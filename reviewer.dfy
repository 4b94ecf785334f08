/** `Reviewer`: the choice of each canonical chapter's text among the
    sections of a processed file, and the length rule that decides which
    sections are sent for compression. The reviewer's own `translations` and
    `chapters` tables are the same as the PDF processor's defaults,
    `Tables.DefaultTranslations` and `Tables.DefaultChapters`, and its
    `max_length_dict` is `Tables.MaxLengths`. */
module Reviewer {
  import opened Wrappers
  import opened Text
  import opened Tables

  // ---------------------------------------------------------------------------
  // identify_and_extract_sections
  // ---------------------------------------------------------------------------

  /** The part of a section record that the reviewer reads: its `"text"`
      field, when present. */
  datatype SectionData = SectionData(text: Option<string>)

  /** One `key: value` item of a file's section dictionary. */
  datatype FileEntry = FileEntry(key: string, data: SectionData)

  /** The `KeyError` of a dictionary lookup with a missing key. */
  datatype KeyError = KeyError(key: string)

  /** `value.get("text", "")`. */
  function TextOf(d: SectionData): string {
    if d.text.Some? then d.text.value else ""
  }

  /** `{k.lower(): v for k, v in file_data.items()}`: of two keys that are
      equal once lower-cased, the later one wins. */
  function LowerKeys(items: seq<FileEntry>): (r: map<string, SectionData>)
    ensures forall key :: key in r <==> exists i | 0 <= i < |items| :: LowerStr(items[i].key) == key
  {
    if items == [] then map[]
    else
      var n := |items| - 1;
      var prev := LowerKeys(items[..n]);
      assert forall i | 0 <= i < n :: items[..n][i] == items[i];
      prev[LowerStr(items[n].key) := items[n].data]
  }

  /** Each lower-cased key holds the value of the last item with that key. */
  lemma {:induction false} LowerKeysLastWins(items: seq<FileEntry>, i: nat)
    requires i < |items|
    requires forall l | i < l < |items| :: LowerStr(items[l].key) != LowerStr(items[i].key)
    ensures LowerStr(items[i].key) in LowerKeys(items)
    ensures LowerKeys(items)[LowerStr(items[i].key)] == items[i].data
  {
    var n := |items| - 1;
    var init := items[..n];
    assert LowerKeys(items) == LowerKeys(init)[LowerStr(items[n].key) := items[n].data];
    if i < n {
      assert init[i] == items[i];
      forall l | i < l < n
        ensures LowerStr(init[l].key) != LowerStr(init[i].key)
      {
        assert init[l] == items[l];
      }
      LowerKeysLastWins(init, i);
    }
  }

  /** `[s.lower() for s in vs]`. */
  function LowerAll(vs: seq<string>): (r: seq<string>)
    ensures |r| == |vs| && forall i | 0 <= i < |vs| :: r[i] == LowerStr(vs[i])
  {
    seq(|vs|, i requires 0 <= i < |vs| => LowerStr(vs[i]))
  }

  /** What the loop over one chapter's synonyms ends with. */
  datatype Pick =
    | Found(text: string)   // a synonym is a key: its text is taken
    | Missing               // no synonym matched: the chapter is skipped
    | Raises(key: string)   // the translation branch looked up a missing key

  /** The synonym `syns[k]` is the first, from `j` on, to end the loop: it
      is a key, or it is one of the chapter's translations, and no earlier
      one was either. */
  predicate EndsLoopAt(lower: map<string, SectionData>, syns: seq<string>, chinese: seq<string>, j: int, k: int)
    requires 0 <= j <= k < |syns|
  {
    && (LowerStr(syns[k]) in lower || LowerStr(syns[k]) in LowerAll(chinese))
    && forall l | j <= l < k :: LowerStr(syns[l]) !in lower && LowerStr(syns[l]) !in LowerAll(chinese)
  }

  /** The loop over `syns[j..]` for one chapter whose translations are
      `chinese`: the first synonym that is a key gives the text; one that is
      not a key but is a translation raises `KeyError`, as the lookup that
      follows uses that same missing key. */
  function PickFrom(lower: map<string, SectionData>, syns: seq<string>, chinese: seq<string>, j: nat): Pick
    requires j <= |syns|
    decreases |syns| - j
  {
    if j == |syns| then Missing
    else
      var key := LowerStr(syns[j]);
      if key in lower then Found(TextOf(lower[key]))
      else if key in LowerAll(chinese) then Raises(key)
      else PickFrom(lower, syns, chinese, j + 1)
  }

  /** The pick is decided by the first synonym from `j` on that ends the
      loop: its text if it is a key, `KeyError` on it if it is only a
      translation, and `Missing` exactly when no synonym ends the loop. */
  lemma {:induction false} PickFromSpec(lower: map<string, SectionData>, syns: seq<string>, chinese: seq<string>, j: nat)
    requires j <= |syns|
    ensures var r := PickFrom(lower, syns, chinese, j);
            r.Found? ==> exists k | j <= k < |syns| ::
              && EndsLoopAt(lower, syns, chinese, j, k)
              && LowerStr(syns[k]) in lower && r.text == TextOf(lower[LowerStr(syns[k])])
    ensures var r := PickFrom(lower, syns, chinese, j);
            r.Raises? ==> exists k | j <= k < |syns| ::
              && EndsLoopAt(lower, syns, chinese, j, k)
              && LowerStr(syns[k]) !in lower && r.key == LowerStr(syns[k])
    ensures PickFrom(lower, syns, chinese, j).Missing? <==>
              forall k | j <= k < |syns| :: LowerStr(syns[k]) !in lower && LowerStr(syns[k]) !in LowerAll(chinese)
    decreases |syns| - j
  {
    if j < |syns| {
      var key := LowerStr(syns[j]);
      if key in lower || key in LowerAll(chinese) {
        assert EndsLoopAt(lower, syns, chinese, j, j);
      } else {
        PickFromSpec(lower, syns, chinese, j + 1);
        assert forall k | j + 1 <= k < |syns| && EndsLoopAt(lower, syns, chinese, j + 1, k) ::
                 EndsLoopAt(lower, syns, chinese, j, k);
      }
    }
  }

  /** The pick for the chapter `chapters[i]`. */
  function PickChapter(chapters: Table, translations: Table, lower: map<string, SectionData>, i: nat): Pick
    requires i < |chapters|
  {
    PickFrom(lower, chapters[i].values, Lookup(translations, LowerStr(chapters[i].key)), 0)
  }

  /** `extracted_sections` after the first `m` chapters, or the error that
      ended the loop. */
  function ExtractUpTo(chapters: Table, translations: Table, lower: map<string, SectionData>, m: nat): Result<map<string, string>, KeyError>
    requires m <= |chapters|
  {
    if m == 0 then Ok(map[])
    else
      match ExtractUpTo(chapters, translations, lower, m - 1)
      case Err(e) => Err(e)
      case Ok(d) =>
        match PickChapter(chapters, translations, lower, m - 1)
        case Found(t) => Ok(d[chapters[m - 1].key := t])
        case Missing => Ok(d)
        case Raises(k) => Err(KeyError(k))
  }

  /** `identify_and_extract_sections(file_data)`. */
  function ExtractSections(chapters: Table, translations: Table, fileData: seq<FileEntry>): Result<map<string, string>, KeyError> {
    ExtractUpTo(chapters, translations, LowerKeys(fileData), |chapters|)
  }

  /** Every extracted key is the key of one of the first `m` chapters. */
  lemma {:induction false} ExtractUpToKeys(chapters: Table, translations: Table, lower: map<string, SectionData>, m: nat)
    requires m <= |chapters|
    ensures ExtractUpTo(chapters, translations, lower, m).Ok? ==>
              forall k | k in ExtractUpTo(chapters, translations, lower, m).value :: exists i | 0 <= i < m :: chapters[i].key == k
  {
    var r := ExtractUpTo(chapters, translations, lower, m);
    if m > 0 && r.Ok? {
      var n := m - 1;
      ExtractUpToKeys(chapters, translations, lower, n);
      assert ExtractUpTo(chapters, translations, lower, n).Ok?;
      var d := ExtractUpTo(chapters, translations, lower, n).value;
      assert r.value == d || r.value == d[chapters[n].key := PickChapter(chapters, translations, lower, n).text];
      forall k | k in r.value
        ensures exists i | 0 <= i < m :: chapters[i].key == k
      {
        if k == chapters[n].key {
          assert 0 <= n < m;
        } else {
          assert k in d;
          var i :| 0 <= i < n && chapters[i].key == k;
        }
      }
    }
  }

  /** Once a lookup has failed, the later chapters are not looked at. */
  lemma {:induction false} ExtractUpToErrSticks(chapters: Table, translations: Table, lower: map<string, SectionData>, m: nat, n: nat)
    requires m <= n <= |chapters|
    requires ExtractUpTo(chapters, translations, lower, m).Err?
    ensures ExtractUpTo(chapters, translations, lower, n) == ExtractUpTo(chapters, translations, lower, m)
    decreases n - m
  {
    if m < n {
      ExtractUpToErrSticks(chapters, translations, lower, m + 1, n);
    }
  }

  /** The inner loop of `identify_and_extract_sections` over one chapter's
      synonyms, up to its `break` or its failing lookup. */
  method PickSynonym(lower: map<string, SectionData>, synonyms: seq<string>, chinese: seq<string>)
    returns (p: Pick)
    ensures p == PickFrom(lower, synonyms, chinese, 0)
  {
    var j := 0;
    while j < |synonyms|
      invariant 0 <= j <= |synonyms|
      invariant PickFrom(lower, synonyms, chinese, j) == PickFrom(lower, synonyms, chinese, 0)
    {
      var key := LowerStr(synonyms[j]);
      if key in lower {
        return Found(TextOf(lower[key]));
      } else if key in LowerAll(chinese) {
        return Raises(key);
      }
      j := j + 1;
    }
    return Missing;
  }

  /** One pass of the outer loop: the chapter `chapters[m]` adds its text,
      adds nothing, or ends the extraction with the error. */
  method ExtractChapter(chapters: Table, translations: Table, lower: map<string, SectionData>, m: nat, extracted: map<string, string>)
    returns (r: Result<map<string, string>, KeyError>)
    requires m < |chapters| && ExtractUpTo(chapters, translations, lower, m) == Ok(extracted)
    ensures r == ExtractUpTo(chapters, translations, lower, m + 1)
  {
    var std := chapters[m].key;
    var pick := PickSynonym(lower, chapters[m].values, Lookup(translations, LowerStr(std)));
    assert pick == PickChapter(chapters, translations, lower, m);
    match pick {
      case Found(text) => r := Ok(extracted[std := text]);
      case Missing => r := Ok(extracted);
      case Raises(key) => r := Err(KeyError(key));
    }
  }

  /** The outer loop of `identify_and_extract_sections`, over the chapters
      in table order, once the keys are lower-cased; a failing lookup ends it
      with the error. */
  method ExtractChapters(chapters: Table, translations: Table, lower: map<string, SectionData>)
    returns (r: Result<map<string, string>, KeyError>)
    ensures r == ExtractUpTo(chapters, translations, lower, |chapters|)
  {
    var extracted: map<string, string> := map[];
    var m := 0;
    while m < |chapters|
      invariant 0 <= m <= |chapters|
      invariant ExtractUpTo(chapters, translations, lower, m) == Ok(extracted)
    {
      var next := ExtractChapter(chapters, translations, lower, m, extracted);
      if next.Err? {
        ExtractUpToErrSticks(chapters, translations, lower, m + 1, |chapters|);
        return next;
      }
      extracted := next.value;
      m := m + 1;
    }
    r := Ok(extracted);
  }

  /** `identify_and_extract_sections(file_data)`. */
  method IdentifyAndExtractSections(chapters: Table, translations: Table, fileData: seq<FileEntry>)
    returns (r: Result<map<string, string>, KeyError>)
    ensures r == ExtractSections(chapters, translations, fileData)
  {
    r := ExtractChapters(chapters, translations, LowerKeys(fileData));
  }

  /** A successful extraction has only chapter names as keys; a chapter is a
      key exactly when one of its synonyms is, and its value is the text of
      the first such synonym. */
  lemma {:induction false} ExtractUpToChapters(chapters: Table, translations: Table, lower: map<string, SectionData>, m: nat)
    requires UniqueKeys(chapters) && m <= |chapters|
    requires ExtractUpTo(chapters, translations, lower, m).Ok?
    ensures var d := ExtractUpTo(chapters, translations, lower, m).value;
            forall i | 0 <= i < m ::
              && !PickChapter(chapters, translations, lower, i).Raises?
              && (chapters[i].key in d <==> PickChapter(chapters, translations, lower, i).Found?)
              && (chapters[i].key in d ==> d[chapters[i].key] == PickChapter(chapters, translations, lower, i).text)
  {
    if m > 0 {
      ExtractUpToChapters(chapters, translations, lower, m - 1);
      ExtractUpToKeys(chapters, translations, lower, m - 1);
    }
  }

  lemma ExtractSectionsChapters(chapters: Table, translations: Table, fileData: seq<FileEntry>)
    requires UniqueKeys(chapters)
    ensures var r := ExtractSections(chapters, translations, fileData);
            var lower := LowerKeys(fileData);
            r.Ok? ==>
              && (forall k | k in r.value :: HasKey(chapters, k))
              && forall i | 0 <= i < |chapters| ::
                   && (chapters[i].key in r.value <==> exists j | 0 <= j < |chapters[i].values| :: LowerStr(chapters[i].values[j]) in lower)
                   && (chapters[i].key in r.value ==>
                         exists j | 0 <= j < |chapters[i].values| ::
                           && LowerStr(chapters[i].values[j]) in lower
                           && (forall l | 0 <= l < j :: LowerStr(chapters[i].values[l]) !in lower)
                           && r.value[chapters[i].key] == TextOf(lower[LowerStr(chapters[i].values[j])]))
  {
    var r := ExtractSections(chapters, translations, fileData);
    var lower := LowerKeys(fileData);
    if r.Ok? {
      ExtractUpToKeys(chapters, translations, lower, |chapters|);
      ExtractUpToChapters(chapters, translations, lower, |chapters|);
      forall i | 0 <= i < |chapters|
        ensures && (chapters[i].key in r.value <==> exists j | 0 <= j < |chapters[i].values| :: LowerStr(chapters[i].values[j]) in lower)
                && (chapters[i].key in r.value ==>
                      exists j | 0 <= j < |chapters[i].values| ::
                        && LowerStr(chapters[i].values[j]) in lower
                        && (forall l | 0 <= l < j :: LowerStr(chapters[i].values[l]) !in lower)
                        && r.value[chapters[i].key] == TextOf(lower[LowerStr(chapters[i].values[j])]))
      {
        PickFromSpec(lower, chapters[i].values, Lookup(translations, LowerStr(chapters[i].key)), 0);
      }
    }
  }

  /** No synonym of any chapter is one of that chapter's translations, once
      lower-cased. */
  predicate NoSynonymTranslated(chapters: Table, translations: Table) {
    forall i, j | 0 <= i < |chapters| && 0 <= j < |chapters[i].values| ::
      LowerStr(chapters[i].values[j]) !in LowerAll(Lookup(translations, LowerStr(chapters[i].key)))
  }

  /** When no synonym is a translation, the extraction never fails. */
  lemma {:induction false} ExtractUpToNeverRaises(chapters: Table, translations: Table, lower: map<string, SectionData>, m: nat)
    requires m <= |chapters| && NoSynonymTranslated(chapters, translations)
    ensures ExtractUpTo(chapters, translations, lower, m).Ok?
  {
    if m > 0 {
      ExtractUpToNeverRaises(chapters, translations, lower, m - 1);
      var i := m - 1;
      PickFromSpec(lower, chapters[i].values, Lookup(translations, LowerStr(chapters[i].key)), 0);
    }
  }

  /** Every synonym of the default chapters starts with an ASCII character. */
  lemma DefaultSynonymsAscii()
    ensures forall i, j | 0 <= i < |DefaultChapters| && 0 <= j < |DefaultChapters[i].values| ::
              |DefaultChapters[i].values[j]| > 0 && DefaultChapters[i].values[j][0] < '\U{80}'
  {
  }

  /** Every default translation starts with a character outside ASCII. */
  lemma DefaultVariantsWide()
    ensures forall i, j | 0 <= i < |DefaultTranslations| && 0 <= j < |DefaultTranslations[i].values| ::
              |DefaultTranslations[i].values[j]| > 0 && DefaultTranslations[i].values[j][0] >= '\U{80}'
  {
  }

  /** With the default tables the translation branch never fires, so the
      extraction never fails. */
  lemma DefaultsNeverRaise(fileData: seq<FileEntry>)
    ensures ExtractSections(DefaultChapters, DefaultTranslations, fileData).Ok?
  {
    DefaultSynonymsAscii();
    DefaultVariantsWide();
    forall i, j | 0 <= i < |DefaultChapters| && 0 <= j < |DefaultChapters[i].values|
      ensures LowerStr(DefaultChapters[i].values[j]) !in LowerAll(Lookup(DefaultTranslations, LowerStr(DefaultChapters[i].key)))
    {
      var syn := LowerStr(DefaultChapters[i].values[j]);
      var chinese := Lookup(DefaultTranslations, LowerStr(DefaultChapters[i].key));
      forall v | v in chinese
        ensures syn != LowerStr(v)
      {
        assert LowerStr(v)[0] == v[0];
        assert syn[0] < '\U{80}';
      }
    }
    ExtractUpToNeverRaises(DefaultChapters, DefaultTranslations, LowerKeys(fileData), |DefaultChapters|);
  }

  /** A chapter whose synonym is also listed among its translations, and is
      not a key of the file, makes the lookup fail with `KeyError`. */
  lemma TranslatedSynonymRaises()
    ensures ExtractSections([Entry("Abstract", ["摘要"])], [Entry("abstract", ["摘要"])], []) == Err(KeyError("摘要"))
  {
    var chapters := [Entry("Abstract", ["摘要"])];
    var translations := [Entry("abstract", ["摘要"])];
    assert LowerStr("Abstract") == "abstract";
    assert LowerStr("摘要") == "摘要" by {
      assert LowerStr("摘要")[0] == Lower('摘') == '摘';
      assert LowerStr("摘要")[1] == Lower('要') == '要';
    }
    assert Lookup(translations, "abstract") == ["摘要"];
    assert LowerAll(["摘要"])[0] == "摘要";
    assert PickChapter(chapters, translations, map[], 0) == Raises("摘要");
  }

  // ---------------------------------------------------------------------------
  // compress_sections
  // ---------------------------------------------------------------------------

  /** `max_length_dict.get(section, 1024)`. */
  function AllowedLength(maxLengths: map<string, int>, section: string): (n: int)
    ensures section in maxLengths ==> n == maxLengths[section]
    ensures section !in maxLengths ==> n == DefaultMaxLength
  {
    if section in maxLengths then maxLengths[section] else DefaultMaxLength
  }

  /** `process_single_section(section, text)`, with the language-model
      compression given as `compress(section, text, allowed)`. */
  function ProcessSingleSection(maxLengths: map<string, int>, compress: (string, string, int) -> string,
                                section: string, text: string): string
  {
    var allowed := AllowedLength(maxLengths, section);
    if |text| > allowed then compress(section, text, allowed) else text
  }

  /** A section is sent for compression exactly when its text is longer than
      its limit: within the limit it is kept whatever the compression does;
      over it, the result is the compression's, whatever the text. */
  lemma LengthRule(maxLengths: map<string, int>, section: string, text: string)
    ensures |text| <= AllowedLength(maxLengths, section) <==>
              forall compress: (string, string, int) -> string :: ProcessSingleSection(maxLengths, compress, section, text) == text
    ensures |text| > AllowedLength(maxLengths, section) ==>
              forall compress: (string, string, int) -> string ::
                ProcessSingleSection(maxLengths, compress, section, text) == compress(section, text, AllowedLength(maxLengths, section))
  {
    if |text| > AllowedLength(maxLengths, section) {
      var appendX := (s: string, t: string, n: int) => t + "x";
      assert ProcessSingleSection(maxLengths, appendX, section, text) != text;
    }
  }

  /** The reviewer's limits: 512 for the abstract, 256 for the
      acknowledgments, 2048 for the references, and 1024 for any section the
      table does not name. */
  lemma ReviewerLimits(section: string)
    ensures AllowedLength(MaxLengths, "Abstract") == 512
    ensures AllowedLength(MaxLengths, "Acknowledgments") == 256
    ensures AllowedLength(MaxLengths, "References") == 2048
    ensures section !in MaxLengths ==> AllowedLength(MaxLengths, section) == 1024
  {
  }

  /** `compress_sections(sections_dict)`: every section processed once, in
      whatever order the workers finish; the result has the same keys. */
  method CompressSections(maxLengths: map<string, int>, compress: (string, string, int) -> string,
                          sections: map<string, string>)
    returns (processed: map<string, string>)
    ensures processed.Keys == sections.Keys
    ensures forall s | s in sections :: processed[s] == ProcessSingleSection(maxLengths, compress, s, sections[s])
  {
    processed := map[];
    var remaining := sections.Keys;
    while remaining != {}
      invariant remaining <= sections.Keys
      invariant processed.Keys == sections.Keys - remaining
      invariant forall s | s in processed :: processed[s] == ProcessSingleSection(maxLengths, compress, s, sections[s])
      decreases |remaining|
    {
      var section :| section in remaining;
      processed := processed[section := ProcessSingleSection(maxLengths, compress, section, sections[section])];
      remaining := remaining - {section};
    }
  }
}
