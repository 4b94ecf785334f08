/** `PDFProcessor`: its tables, and the steps of `translate`,
    `filter_iclr_pdf` and `process_pdf` from the extracted text onward, each
    proved to compute its specification in `Rewriting` and `Locating`. */
module PdfProcessor {
  import opened Wrappers
  import opened Text
  import opened Tables
  import opened Titles
  import opened Rewriting
  import opened Locating

  /** The tables a `PDFProcessor` holds once `__init__` has run; no method
      changes them afterwards. */
  datatype Processor = Processor(
    translations: Table,
    chapters: Table,
    normalizedChapters: Table,
    sectionTitles: seq<string>)

  /** `PDFProcessor(translations, chapters)`: a missing table is replaced by
      the default one, and the chapter aliases are normalised once, in table
      order. */
  function Init(translations: Option<Table>, chapters: Option<Table>): (p: Processor)
    ensures translations.None? ==> p.translations == DefaultTranslations
    ensures translations.Some? ==> p.translations == translations.value
    ensures chapters.None? ==> p.chapters == DefaultChapters
    ensures chapters.Some? ==> p.chapters == chapters.value
    ensures |p.normalizedChapters| == |p.chapters|
    ensures forall i | 0 <= i < |p.chapters| ::
              && p.normalizedChapters[i].key == p.chapters[i].key
              && |p.normalizedChapters[i].values| == |p.chapters[i].values|
              && forall j | 0 <= j < |p.chapters[i].values| ::
                   p.normalizedChapters[i].values[j] == NormalizeTitle(p.chapters[i].values[j])
    ensures forall i, t | 0 <= i < |p.normalizedChapters| && t in p.normalizedChapters[i].values :: IsNormalized(t)
    ensures forall t :: t in p.sectionTitles <==>
              exists i | 0 <= i < |p.normalizedChapters| :: t in p.normalizedChapters[i].values
  {
    var tr := if translations.Some? then translations.value else DefaultTranslations;
    var ch := if chapters.Some? then chapters.value else DefaultChapters;
    var nc := NormalizeChapters(ch);
    Processor(tr, ch, nc, SectionTitles(nc))
  }

  // ---------------------------------------------------------------------------
  // translate
  // ---------------------------------------------------------------------------

  /** The counting loop of `translate`: the number of variants of the table
      that occur in the text. */
  method CountVariants(t: Table, content: string) returns (cnt: nat)
    ensures cnt == CountTable(t, content)
  {
    cnt := 0;
    var i := 0;
    while i < |t|
      invariant 0 <= i <= |t|
      invariant cnt == CountTable(t[..i], content)
    {
      var vs := t[i].values;
      var j := 0;
      while j < |vs|
        invariant 0 <= j <= |vs|
        invariant cnt == CountTable(t[..i], content) + CountPresent(vs[..j], content)
      {
        assert vs[..j + 1][..j] == vs[..j];
        if Contains(content, vs[j]) {
          cnt := cnt + 1;
        }
        j := j + 1;
      }
      assert vs[..j] == vs;
      assert t[..i + 1][..i] == t[..i];
      i := i + 1;
    }
    assert t[..i] == t;
  }

  /** The cuts at the index of tables and the index of figures. */
  method CutIndexMarkers(content: string) returns (c: string)
    ensures c == CutEach(IndexMarkers, content)
  {
    c := content;
    var m := 0;
    while m < |IndexMarkers|
      invariant 0 <= m <= |IndexMarkers|
      invariant c == CutEach(IndexMarkers[..m], content)
    {
      assert IndexMarkers[..m + 1][..m] == IndexMarkers[..m];
      var v := IndexMarkers[m];
      if ContainsFrom(c, v, |c| / 2) {
        c := c[..RIndex(c, v, |c| / 2)];
      }
      m := m + 1;
    }
    assert IndexMarkers[..m] == IndexMarkers;
  }

  /** The cut for one tail section: the first of its variants found in the
      second half, and then `break`. */
  method CutFirstVariant(vs: seq<string>, content: string) returns (c: string)
    ensures c == CutFirstFrom(vs, content, 0)
  {
    c := content;
    var j := 0;
    while j < |vs|
      invariant 0 <= j <= |vs|
      invariant c == content
      invariant CutFirstFrom(vs, content, j) == CutFirstFrom(vs, content, 0)
    {
      if ContainsFrom(c, vs[j], |c| / 2) {
        c := c[..RIndex(c, vs[j], |c| / 2)];
        break;
      }
      j := j + 1;
    }
  }

  /** The cuts for the acknowledgments, appendices and references, in that
      order. */
  method CutTailSections(t: Table, content: string) returns (c: string)
    ensures c == CutTails(t, TailSections, content)
  {
    c := content;
    var si := 0;
    while si < |TailSections|
      invariant 0 <= si <= |TailSections|
      invariant c == CutTails(t, TailSections[..si], content)
    {
      assert TailSections[..si + 1][..si] == TailSections[..si];
      c := CutFirstVariant(Lookup(t, TailSections[si]), c);
      si := si + 1;
    }
    assert TailSections[..si] == TailSections;
  }

  /** The rewriting loops: each variant of each entry, in table order,
      replaced by the entry's marker. */
  method RewriteHeaders(t: Table, content: string) returns (c: string)
    ensures c == RewriteAll(t, content)
  {
    c := content;
    var k := 0;
    while k < |t|
      invariant 0 <= k <= |t|
      invariant c == RewriteAll(t[..k], content)
    {
      assert t[..k + 1][..k] == t[..k];
      var key := t[k].key;
      var vs := t[k].values;
      ghost var before := c;
      var j := 0;
      while j < |vs|
        invariant 0 <= j <= |vs|
        invariant c == RewriteVariants(key, vs[..j], before)
      {
        assert vs[..j + 1][..j] == vs[..j];
        c := SubWord(c, vs[j], "\n" + key + "\n");
        j := j + 1;
      }
      assert vs[..j] == vs;
      k := k + 1;
    }
    assert t[..k] == t;
  }

  /** `translate(content)`: count the variants present, and below the
      threshold return the text; otherwise cut the index and tail material
      and rewrite every Chinese header. */
  method Translate(p: Processor, content: string) returns (r: string)
    ensures r == TranslateSpec(p.translations, content)
  {
    var cnt := CountVariants(p.translations, content);
    if cnt < Threshold {
      return content;
    }
    var c := CutIndexMarkers(content);
    c := CutTailSections(p.translations, c);
    r := RewriteHeaders(p.translations, c);
  }

  // ---------------------------------------------------------------------------
  // filter_iclr_pdf
  // ---------------------------------------------------------------------------

  /** One more title adds its candidate when it matches and nothing
      otherwise. */
  lemma TitleCandidatesStep(section: string, titles: seq<string>, j: nat, c: string)
    requires j < |titles|
    ensures FirstHeaderMatch(c, titles[j]).None? ==>
              TitleCandidates(section, titles[..j + 1], c) == TitleCandidates(section, titles[..j], c)
    ensures FirstHeaderMatch(c, titles[j]).Some? ==>
              TitleCandidates(section, titles[..j + 1], c) ==
              TitleCandidates(section, titles[..j], c) + [Candidate(section, FirstHeaderMatch(c, titles[j]).value)]
  {
    assert titles[..j + 1][..j] == titles[..j];
    var before := TitleCandidates(section, titles[..j], c);
    assert before + [] == before;
  }

  /** The search loops: for every section and every one of its titles, the
      title's first match, if any. */
  method CollectCandidates(nc: Table, c: string) returns (paperSections: seq<Candidate>)
    ensures paperSections == Candidates(nc, c)
  {
    paperSections := [];
    var i := 0;
    while i < |nc|
      invariant 0 <= i <= |nc|
      invariant paperSections == CandidatesUpTo(nc, i, c)
    {
      var titles := nc[i].values;
      var j := 0;
      while j < |titles|
        invariant 0 <= j <= |titles|
        invariant paperSections == CandidatesUpTo(nc, i, c) + TitleCandidates(nc[i].key, titles[..j], c)
      {
        var first := FirstHeaderMatch(c, titles[j]);
        TitleCandidatesStep(nc[i].key, titles, j, c);
        if first.Some? {
          ConcatAssoc(CandidatesUpTo(nc, i, c), TitleCandidates(nc[i].key, titles[..j], c), [Candidate(nc[i].key, first.value)]);
          paperSections := paperSections + [Candidate(nc[i].key, first.value)];
        }
        j := j + 1;
      }
      assert titles[..j] == titles;
      i := i + 1;
    }
  }

  /** The loop with the `seen` set: the first candidate of each section. */
  method KeepFirstOfEachSection(sorted: seq<Candidate>) returns (unique: seq<Candidate>)
    ensures unique == Dedupe(sorted)
  {
    unique := [];
    var seen: set<string> := {};
    var k := 0;
    while k < |sorted|
      invariant 0 <= k <= |sorted|
      invariant unique == Dedupe(sorted[..k])
      invariant forall name :: name in seen <==> HasSection(unique, name)
    {
      assert sorted[..k + 1][..k] == sorted[..k];
      if sorted[k].section !in seen {
        HasSectionSnoc(unique, sorted[k]);
        unique := unique + [sorted[k]];
        seen := seen + {sorted[k].section};
      }
      k := k + 1;
    }
    assert sorted[..k] == sorted;
  }

  /** The loop that gives each section its end, text and length. */
  method AssignRanges(c: string, unique: seq<Candidate>) returns (sections: seq<Span>)
    requires SortedByStart(unique) && StartsWithin(unique, c)
    ensures sections == Ranges(c, unique)
  {
    sections := [];
    var idx := 0;
    while idx < |unique|
      invariant 0 <= idx <= |unique|
      invariant |sections| == idx
      invariant forall n | 0 <= n < idx :: sections[n] == SpanAt(c, unique, n)
    {
      var start := unique[idx].start;
      var end := if idx < |unique| - 1 then unique[idx + 1].start else |c|;
      assert unique[idx] in unique;
      var text := Strip(c[start..end]);
      sections := sections + [Span(unique[idx].section, start, end, |text|, text)];
      idx := idx + 1;
    }
  }

  /** `filter_iclr_pdf(content)`: the sections of the translated text, each
      with its range, stripped text and length, in order of start. */
  method FilterIclrPdf(p: Processor, content: string) returns (sections: seq<Span>)
    ensures sections == Locate(p.normalizedChapters, TranslateSpec(p.translations, content))
  {
    var c := Translate(p, content);
    var paperSections := CollectCandidates(p.normalizedChapters, c);
    if paperSections == [] {
      return [];
    }
    var sorted := SortByStart(paperSections);
    var unique := KeepFirstOfEachSection(sorted);
    assert unique == UniqueCandidates(p.normalizedChapters, c);
    sections := AssignRanges(c, unique);
    assert Locate(p.normalizedChapters, c) == Ranges(c, unique);
  }

  // ---------------------------------------------------------------------------
  // process_pdf, from the extracted text onward
  // ---------------------------------------------------------------------------

  /** The value `process_pdf` stores for a section. */
  datatype SectionFields = SectionFields(text: string, start: nat, end: nat, length: nat)

  function FieldsOf(sp: Span): SectionFields {
    SectionFields(sp.text, sp.start, sp.end, sp.length)
  }

  /** The two fixes of letter-spaced headings that PDF extraction leaves. */
  function FixSpacedHeadings(t: string): (r: string)
    ensures |r| <= |t|
  {
    var once := Replace(t, "I NTRODUCTION", "INTRODUCTION");
    ReplaceFromNotLonger(t, "I NTRODUCTION", "INTRODUCTION", 0);
    ReplaceFromNotLonger(once, "C ONCLUSION", "CONCLUSION", 0);
    Replace(once, "C ONCLUSION", "CONCLUSION")
  }

  /** A text with neither letter-spaced heading is left as it is. */
  lemma FixSpacedHeadingsUntouched(t: string)
    requires !Contains(t, "I NTRODUCTION") && !Contains(t, "C ONCLUSION")
    ensures FixSpacedHeadings(t) == t
  {
    ReplaceAbsent(t, "I NTRODUCTION", "INTRODUCTION");
    ReplaceAbsent(t, "C ONCLUSION", "CONCLUSION");
  }

  /** Both split headings are joined: with `I NTRODUCTION` occurring once
      in the text, and `C ONCLUSION` once in the text after the first
      replacement, each is replaced in place and the rest is kept. */
  lemma FixSpacedHeadingsJoins(a: string, b: string, d: string)
    requires forall k | 0 <= k <= |a + "I NTRODUCTION" + b + "C ONCLUSION" + d| && k != |a| ::
               !OccursAt(a + "I NTRODUCTION" + b + "C ONCLUSION" + d, "I NTRODUCTION", k)
    requires forall k | 0 <= k <= |a + "INTRODUCTION" + b + "C ONCLUSION" + d| && k != |a| + 12 + |b| ::
               !OccursAt(a + "INTRODUCTION" + b + "C ONCLUSION" + d, "C ONCLUSION", k)
    ensures FixSpacedHeadings(a + "I NTRODUCTION" + b + "C ONCLUSION" + d)
            == a + "INTRODUCTION" + b + "CONCLUSION" + d
  {
    var rest := b + "C ONCLUSION" + d;
    assert a + "I NTRODUCTION" + b + "C ONCLUSION" + d == a + "I NTRODUCTION" + rest;
    ReplaceOnly(a, "I NTRODUCTION", "INTRODUCTION", rest);
    var front := a + "INTRODUCTION" + b;
    assert a + "INTRODUCTION" + rest == front + "C ONCLUSION" + d;
    ReplaceOnly(front, "C ONCLUSION", "CONCLUSION", d);
  }

  /** Each split heading on its own is joined. */
  lemma FixSpacedHeadingsExample()
    ensures FixSpacedHeadings("I NTRODUCTION") == "INTRODUCTION"
    ensures FixSpacedHeadings("C ONCLUSION") == "CONCLUSION"
  {
    var intro, joinedIntro := "I NTRODUCTION", "INTRODUCTION";
    var concl, joinedConcl := "C ONCLUSION", "CONCLUSION";
    assert [] + intro + [] == intro && [] + joinedIntro + [] == joinedIntro;
    assert [] + concl + [] == concl && [] + joinedConcl + [] == joinedConcl;
    ReplaceOnly([], intro, joinedIntro, []);
    forall k | 0 <= k <= |joinedIntro| ensures !OccursAt(joinedIntro, concl, k) {
      if k + |concl| <= |joinedIntro| {
        assert joinedIntro[k..k + |concl|][0] == joinedIntro[k] != 'C';
      }
    }
    ReplaceFromAbsent(joinedIntro, concl, joinedConcl, 0);
    ReplaceFromAbsent(concl, intro, joinedIntro, 0);
    ReplaceOnly([], concl, joinedConcl, []);
  }

  /** `section_dict` after the loop over `spans`: a later span of the same
      section would overwrite an earlier one. */
  function SectionDict(spans: seq<Span>): map<string, SectionFields> {
    if spans == [] then map[]
    else SectionDict(spans[..|spans| - 1])[spans[|spans| - 1].section := FieldsOf(spans[|spans| - 1])]
  }

  /** The dictionary's keys are exactly the sections of the spans. */
  lemma {:induction false} SectionDictKeys(spans: seq<Span>)
    ensures forall name :: name in SectionDict(spans) <==> exists k | 0 <= k < |spans| :: spans[k].section == name
  {
    if spans != [] {
      var n := |spans| - 1;
      var init := spans[..n];
      SectionDictKeys(init);
      assert SectionDict(spans) == SectionDict(init)[spans[n].section := FieldsOf(spans[n])];
      forall name | name in SectionDict(spans)
        ensures exists k | 0 <= k < |spans| :: spans[k].section == name
      {
        if name != spans[n].section {
          assert name in SectionDict(init);
          var k :| 0 <= k < n && init[k].section == name;
          assert spans[k].section == name;
        }
      }
      forall name | exists k | 0 <= k < |spans| :: spans[k].section == name
        ensures name in SectionDict(spans)
      {
        var k :| 0 <= k < |spans| && spans[k].section == name;
        if k < n {
          assert init[k].section == name;
        }
      }
    }
  }

  /** With distinct sections, each section's value copies the text, start,
      end and length of its span. */
  lemma {:induction false} SectionDictValues(spans: seq<Span>)
    requires forall k, l | 0 <= k < l < |spans| :: spans[k].section != spans[l].section
    ensures forall k | 0 <= k < |spans| ::
              spans[k].section in SectionDict(spans) && SectionDict(spans)[spans[k].section] == FieldsOf(spans[k])
  {
    if spans != [] {
      var n := |spans| - 1;
      var init := spans[..n];
      assert forall k | 0 <= k < n :: init[k] == spans[k];
      SectionDictValues(init);
    }
  }

  /** The sections `process_pdf` finds in an extracted text. */
  function SpansOfText(p: Processor, extracted: string): seq<Span> {
    Locate(p.normalizedChapters, TranslateSpec(p.translations, FixSpacedHeadings(extracted)))
  }

  lemma SectionDictStep(spans: seq<Span>, i: nat)
    requires i < |spans|
    ensures SectionDict(spans[..i + 1]) == SectionDict(spans[..i])[spans[i].section := FieldsOf(spans[i])]
  {
    assert spans[..i + 1][..i] == spans[..i];
  }

  /** `process_pdf` once the text is extracted: nothing for an empty text or a
      text without sections, otherwise the section dictionary. */
  method ProcessPdf(p: Processor, extracted: string) returns (r: Option<map<string, SectionFields>>)
    ensures r.None? <==> extracted == [] || SpansOfText(p, extracted) == []
    ensures r.Some? ==> r.value == SectionDict(SpansOfText(p, extracted))
  {
    if extracted == [] {
      return None;
    }
    var text := Replace(extracted, "I NTRODUCTION", "INTRODUCTION");
    text := Replace(text, "C ONCLUSION", "CONCLUSION");
    assert text == FixSpacedHeadings(extracted);
    var spans := FilterIclrPdf(p, text);
    if spans == [] {
      return None;
    }
    var dict: map<string, SectionFields> := map[];
    var i := 0;
    while i < |spans|
      invariant 0 <= i <= |spans|
      invariant dict == SectionDict(spans[..i])
    {
      SectionDictStep(spans, i);
      var sp := spans[i];
      dict := dict[sp.section := SectionFields(sp.text, sp.start, sp.end, sp.length)];
      i := i + 1;
    }
    assert spans[..i] == spans;
    return Some(dict);
  }

  /** `process_pdf` gives nothing exactly when the text is empty or no
      normalised title matches the translated text. */
  lemma ProcessPdfNothing(p: Processor, extracted: string, content: string)
    requires content == TranslateSpec(p.translations, FixSpacedHeadings(extracted))
    ensures SpansOfText(p, extracted) == [] <==>
              forall i, j | 0 <= i < |p.normalizedChapters| && 0 <= j < |p.normalizedChapters[i].values| ::
                FirstHeaderMatch(content, p.normalizedChapters[i].values[j]).None?
  {
    LocateEmpty(p.normalizedChapters, content);
  }

  /** The keys of the dictionary are the sections with a matching title, and
      each value copies that section's text, start, end and length. */
  lemma ProcessPdfFields(p: Processor, extracted: string, content: string)
    requires content == TranslateSpec(p.translations, FixSpacedHeadings(extracted))
    ensures forall name :: name in SectionDict(SpansOfText(p, extracted)) <==>
                             SectionMatches(p.normalizedChapters, content, name)
    ensures var spans := SpansOfText(p, extracted);
            forall k | 0 <= k < |spans| ::
              spans[k].section in SectionDict(spans) && SectionDict(spans)[spans[k].section] == FieldsOf(spans[k])
  {
    var spans := SpansOfText(p, extracted);
    assert spans == Locate(p.normalizedChapters, content);
    LocateSections(p.normalizedChapters, content);
    SectionDictKeys(spans);
    SectionDictValues(spans);
    forall name
      ensures name in SectionDict(spans) <==> SectionMatches(p.normalizedChapters, content, name)
    {
      assert name in SectionDict(spans) <==> exists k | 0 <= k < |spans| :: spans[k].section == name;
    }
  }
}
