/** Header titles: `PDFProcessor.normalize_title`, `extract_section_number`
    and the normalised chapter table that `PDFProcessor.__init__` builds. */
module Titles {
  import opened Text
  import opened Tables

  /** The characters `[a-zA-Z0-9\s]` that normalisation keeps. */
  predicate IsTitleChar(c: char) {
    IsAsciiLetter(c) || IsDigit(c) || IsSpace(c)
  }

  /** The characters a normalised title is made of. */
  predicate IsNormalChar(c: char) {
    IsAsciiLower(c) || IsDigit(c) || IsSpace(c)
  }

  /** `re.sub(r'[^a-zA-Z0-9\s]', '', t)`: the kept characters, in order. */
  function KeepTitleChars(t: string): (r: string)
    ensures |r| <= |t|
    ensures forall i | 0 <= i < |r| :: IsTitleChar(r[i])
  {
    if t == [] then []
    else (if IsTitleChar(t[0]) then [t[0]] else []) + KeepTitleChars(t[1..])
  }

  /** `normalize_title`: keep ASCII letters, digits and whitespace, lower-case,
      strip. */
  function NormalizeTitle(t: string): (r: string)
    ensures |r| <= |t|
    ensures forall i | 0 <= i < |r| :: IsNormalChar(r[i])
    ensures r == [] || (!IsSpace(r[0]) && !IsSpace(r[|r| - 1]))
  {
    var lowered := LowerStr(KeepTitleChars(t));
    LowerMakesNormal(KeepTitleChars(t));
    StripKeepsNormal(lowered);
    Strip(lowered)
  }

  /** Lower-casing title characters gives normalised characters. */
  lemma LowerMakesNormal(s: string)
    requires forall i | 0 <= i < |s| :: IsTitleChar(s[i])
    ensures forall i | 0 <= i < |LowerStr(s)| :: IsNormalChar(LowerStr(s)[i])
  {
    forall i | 0 <= i < |s| ensures IsNormalChar(LowerStr(s)[i]) {
      assert LowerStr(s)[i] == Lower(s[i]);
    }
  }

  /** Stripping keeps only characters of its input. */
  lemma StripKeepsNormal(s: string)
    requires forall i | 0 <= i < |s| :: IsNormalChar(s[i])
    ensures forall i | 0 <= i < |Strip(s)| :: IsNormalChar(Strip(s)[i])
  {
    StripKeeps(s, IsNormalChar);
  }

  /** A title that normalisation leaves as it is. */
  predicate IsNormalized(t: string) {
    NormalizeTitle(t) == t
  }

  /** Normalising twice is normalising once. */
  lemma NormalizeTitleIdempotent(t: string)
    ensures NormalizeTitle(NormalizeTitle(t)) == NormalizeTitle(t)
  {
    var n := NormalizeTitle(t);
    NormalKept(n);
    LowerOfNormal(n);
    StripOfTrimmed(n);
  }

  /** A string made of kept characters is kept whole. */
  lemma {:induction false} KeepTitleCharsOfClean(t: string)
    requires forall i | 0 <= i < |t| :: IsTitleChar(t[i])
    ensures KeepTitleChars(t) == t
  {
    if t != [] {
      KeepTitleCharsOfClean(t[1..]);
    }
  }

  /** Normalised characters are all kept by the deletion. */
  lemma NormalKept(n: string)
    requires forall i | 0 <= i < |n| :: IsNormalChar(n[i])
    ensures KeepTitleChars(n) == n
  {
    KeepTitleCharsOfClean(n);
  }

  /** Normalised characters are already lower-case. */
  lemma LowerOfNormal(n: string)
    requires forall i | 0 <= i < |n| :: IsNormalChar(n[i])
    ensures LowerStr(n) == n
  {
    forall i | 0 <= i < |n| ensures LowerStr(n)[i] == n[i] {
      assert !IsAsciiUpper(n[i]);
    }
  }

  /** An alias with punctuation in it is matched without that punctuation. */
  lemma NormalizeWrapUp()
    ensures NormalizeTitle("wrap-up") == "wrapup"
  {
    assert "wrap-up" == "wrap" + (['-'] + "up");
    KeepDropsPunctuation("wrap", '-', "up");
    assert "wrap" + "up" == "wrapup";
    assert LowerStr("wrapup") == "wrapup";
    StripOfTrimmed("wrapup");
  }

  /** A character outside the class between two runs of kept characters is
      the only thing deleted. */
  lemma KeepDropsPunctuation(a: string, c: char, b: string)
    requires forall i | 0 <= i < |a| :: IsTitleChar(a[i])
    requires forall i | 0 <= i < |b| :: IsTitleChar(b[i])
    requires !IsTitleChar(c)
    ensures KeepTitleChars(a + ([c] + b)) == a + b
  {
    var cb := [c] + b;
    assert KeepTitleChars(cb) == b by {
      assert cb[0] == c && cb[1..] == b;
      KeepTitleCharsOfClean(b);
    }
    assert KeepTitleChars(a) == a by {
      KeepTitleCharsOfClean(a);
    }
    assert KeepTitleChars(a + cb) == a + b by {
      KeepTitleCharsConcat(a, cb);
    }
  }

  /** Deleting characters works piecewise. */
  lemma {:induction false} KeepTitleCharsConcat(a: string, b: string)
    ensures KeepTitleChars(a + b) == KeepTitleChars(a) + KeepTitleChars(b)
  {
    if a == [] {
      assert a + b == b;
    } else {
      assert (a + b)[0] == a[0] && (a + b)[1..] == a[1..] + b;
      KeepTitleCharsConcat(a[1..], b);
    }
  }

  // ---------------------------------------------------------------------------
  // extract_section_number: re.match(r'(\d+(?:\.\d+)*)\b', title)
  // ---------------------------------------------------------------------------

  /** A string that matches `\d+(\.\d+)*` in full: digits and dots, starting
      and ending with a digit, every dot followed by a digit. */
  predicate IsSectionNumber(x: string) {
    && |x| > 0 && IsDigit(x[0]) && IsDigit(x[|x| - 1])
    && (forall i | 0 <= i < |x| :: IsDigit(x[i]) || x[i] == '.')
    && (forall i | 0 <= i < |x| - 1 :: x[i] == '.' ==> IsDigit(x[i + 1]))
  }

  /** The prefix `t[..k]` is a section number followed by a word boundary. */
  predicate NumberEndsAt(t: string, k: int)
    requires 0 <= k <= |t|
  {
    IsSectionNumber(t[..k]) && IsBoundary(t, k)
  }

  /** The longest `j <= k` at which a section number ends, or 0. */
  function LongestNumberEnd(t: string, k: nat): (r: nat)
    requires k <= |t|
    ensures r <= k
    ensures r > 0 ==> NumberEndsAt(t, r)
    ensures forall j | r < j <= k :: !NumberEndsAt(t, j)
  {
    if k == 0 then 0
    else if NumberEndsAt(t, k) then k
    else LongestNumberEnd(t, k - 1)
  }

  /** `extract_section_number`. The greedy quantifiers of the pattern try the
      longer candidates first, so the match is the longest prefix that is a
      section number followed by a word boundary, and `""` when there is
      none. */
  function ExtractSectionNumber(t: string): (r: string)
    ensures |r| <= |t| && r == t[..|r|]
    ensures r != [] ==> IsSectionNumber(r) && IsBoundary(t, |r|)
    ensures forall j | |r| < j <= |t| :: !NumberEndsAt(t, j)
  {
    t[..LongestNumberEnd(t, |t|)]
  }

  /** A title that does not start with a digit has no section number; a
      section number is made of digits and dots, and starts and ends with a
      digit. */
  lemma ExtractSectionNumberShape(t: string)
    ensures t == [] || !IsDigit(t[0]) ==> ExtractSectionNumber(t) == []
    ensures var r := ExtractSectionNumber(t);
            r != [] ==> && IsDigit(r[0]) && IsDigit(r[|r| - 1])
                        && forall i | 0 <= i < |r| :: IsDigit(r[i]) || r[i] == '.'
  {
    var r := ExtractSectionNumber(t);
    if r != [] {
      assert r[0] == t[0];
    }
  }

  /** A run of digits that is followed by a non-word character is the whole
      section number. */
  lemma ExtractSectionNumberExample()
    ensures ExtractSectionNumber("3.2 Methods") == "3.2"
    ensures ExtractSectionNumber("12abc") == ""
  {
    var t := "3.2 Methods";
    assert NumberEndsAt(t, 3);
    var u := "12abc";
    forall j | 0 < j <= |u|
      ensures !NumberEndsAt(u, j)
    {
      if j >= 3 {
        assert !IsSectionNumber(u[..j]) by { assert u[..j][2] == 'a'; }
      }
    }
  }

  // ---------------------------------------------------------------------------
  // The tables of PDFProcessor.__init__
  // ---------------------------------------------------------------------------

  /** `[normalize_title(t) for t in ts]`. */
  function NormalizeAll(ts: seq<string>): (r: seq<string>)
    ensures |r| == |ts|
    ensures forall j | 0 <= j < |r| :: r[j] == NormalizeTitle(ts[j])
    ensures forall j | 0 <= j < |r| :: IsNormalized(r[j])
  {
    NormalizedEach(ts);
    seq(|ts|, j requires 0 <= j < |ts| => NormalizeTitle(ts[j]))
  }

  /** Every normalised title of a list is a fixed point of normalisation. */
  lemma NormalizedEach(ts: seq<string>)
    ensures forall j | 0 <= j < |ts| :: IsNormalized(NormalizeTitle(ts[j]))
  {
    forall j | 0 <= j < |ts| ensures IsNormalized(NormalizeTitle(ts[j])) {
      NormalizeTitleIdempotent(ts[j]);
    }
  }

  /** `normalized_chapters`: the chapters table with every alias normalised,
      in the same key order. Every title in it is a fixed point of
      normalisation. */
  function NormalizeChapters(chapters: Table): (r: Table)
    ensures |r| == |chapters|
    ensures forall i | 0 <= i < |r| :: r[i].key == chapters[i].key && |r[i].values| == |chapters[i].values|
    ensures forall i, j | 0 <= i < |r| && 0 <= j < |r[i].values| ::
              r[i].values[j] == NormalizeTitle(chapters[i].values[j]) && IsNormalized(r[i].values[j])
  {
    seq(|chapters|, i requires 0 <= i < |chapters| => Entry(chapters[i].key, NormalizeAll(chapters[i].values)))
  }

  /** `section_titles`: every normalised title, in table order. */
  function SectionTitles(nc: Table): (r: seq<string>)
    ensures forall x :: x in r <==> exists i | 0 <= i < |nc| :: x in nc[i].values
  {
    if nc == [] then []
    else nc[0].values + SectionTitles(nc[1..])
  }

  /** The flattening keeps the table order and every duplicate: a table of
      one entry gives that entry's titles, and a table split in two gives
      the two flattenings one after the other. */
  lemma SectionTitlesSingle(e: Entry)
    ensures SectionTitles([e]) == e.values
  {
    assert [e][1..] == [];
  }

  lemma {:induction false} SectionTitlesConcat(a: Table, b: Table)
    ensures SectionTitles(a + b) == SectionTitles(a) + SectionTitles(b)
  {
    if a == [] {
      assert a + b == b;
    } else {
      assert (a + b)[0] == a[0] && (a + b)[1..] == a[1..] + b;
      SectionTitlesConcat(a[1..], b);
      ConcatAssoc(a[0].values, SectionTitles(a[1..]), SectionTitles(b));
    }
  }
}
