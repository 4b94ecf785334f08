/** Characters and strings as Python's `str` methods and the few fixed
    regular-expression shapes of the section extractor see them. */
module Text {

  // ---------------------------------------------------------------------------
  // Sequence facts, stated once so that each proof can use them in a small
  // context
  // ---------------------------------------------------------------------------

  lemma PrefixOfConcat<T>(a: seq<T>, b: seq<T>, k: nat)
    requires k <= |a|
    ensures (a + b)[..k] == a[..k]
  {
  }

  lemma SuffixOfConcat<T>(a: seq<T>, b: seq<T>)
    ensures (a + b)[|a|..] == b
  {
  }

  lemma SliceCons<T>(s: seq<T>, i: nat, m: nat)
    requires i < m <= |s|
    ensures s[i..m] == [s[i]] + s[i + 1..m]
  {
  }

  lemma MultisetCons<T>(a: T, s: seq<T>)
    ensures multiset([a] + s) == multiset{a} + multiset(s)
  {
  }

  lemma MultisetHead<T>(s: seq<T>)
    requires |s| > 0
    ensures multiset(s) == multiset{s[0]} + multiset(s[1..])
  {
    assert s == [s[0]] + s[1..];
  }

  lemma MultisetLast<T>(s: seq<T>)
    requires |s| > 0
    ensures multiset(s) == multiset(s[..|s| - 1]) + multiset{s[|s| - 1]}
  {
    assert s == s[..|s| - 1] + [s[|s| - 1]];
  }

  lemma ConcatAssoc<T>(a: seq<T>, b: seq<T>, c: seq<T>)
    ensures a + (b + c) == a + b + c
  {
  }

  lemma NotInConcat<T>(x: T, a: seq<T>, b: seq<T>)
    requires x !in a && x !in b
    ensures x !in a + b
  {
  }

  // ---------------------------------------------------------------------------
  // Character classes
  // ---------------------------------------------------------------------------

  /** The characters Python counts as whitespace (`str.isspace`, and `\s` in a
      `str` pattern). */
  predicate IsSpace(c: char) {
    || c == ' '
    || ('\t' <= c <= '\r')
    || ('\U{1C}' <= c <= '\U{1F}')
    || c == '\U{85}' || c == '\U{A0}' || c == '\U{1680}'
    || ('\U{2000}' <= c <= '\U{200A}')
    || c == '\U{2028}' || c == '\U{2029}' || c == '\U{202F}' || c == '\U{205F}'
    || c == '\U{3000}'
  }

  predicate IsAsciiUpper(c: char) { 'A' <= c <= 'Z' }

  predicate IsAsciiLower(c: char) { 'a' <= c <= 'z' }

  predicate IsAsciiLetter(c: char) { IsAsciiUpper(c) || IsAsciiLower(c) }

  /** `\d`, restricted to the ASCII digits. */
  predicate IsDigit(c: char) { '0' <= c <= '9' }

  /** Non-ASCII characters that are not word characters: Latin-1 symbols,
      general punctuation, CJK symbols and punctuation, and the full-width
      forms of ASCII punctuation. */
  predicate IsNonAsciiPunctuation(c: char) {
    || ('\U{80}' <= c <= '\U{BF}') || c == '\U{D7}' || c == '\U{F7}'
    || ('\U{2000}' <= c <= '\U{206F}')
    || ('\U{3000}' <= c <= '\U{3004}') || ('\U{3008}' <= c <= '\U{3020}')
    || ('\U{FF01}' <= c <= '\U{FF0F}') || ('\U{FF1A}' <= c <= '\U{FF20}')
    || ('\U{FF3B}' <= c <= '\U{FF40}') || ('\U{FF5B}' <= c <= '\U{FF65}')
  }

  /** `\w`: ASCII letters, digits and underscore, and every other non-ASCII
      character that is neither whitespace nor punctuation (CJK ideographs
      among them). */
  predicate IsWordChar(c: char) {
    || IsAsciiLetter(c) || IsDigit(c) || c == '_'
    || (c >= '\U{80}' && !IsSpace(c) && !IsNonAsciiPunctuation(c))
  }

  /** ASCII lower-casing of one character. */
  function Lower(c: char): (r: char)
    ensures !IsAsciiUpper(r)
    ensures IsAsciiUpper(c) ==> IsAsciiLower(r) && r as int == c as int + 32
    ensures !IsAsciiUpper(c) ==> r == c
  {
    if IsAsciiUpper(c) then (c as int + 32) as char else c
  }

  /** `str.lower()` on ASCII letters; every other character is kept. */
  function LowerStr(s: string): (r: string)
    ensures |r| == |s|
    ensures forall i | 0 <= i < |s| :: r[i] == Lower(s[i])
  {
    seq(|s|, i requires 0 <= i < |s| => Lower(s[i]))
  }

  /** Case-insensitive equality of two strings of equal length. */
  predicate EqIgnoreCase(a: string, b: string) {
    |a| == |b| && forall i | 0 <= i < |a| :: Lower(a[i]) == Lower(b[i])
  }

  predicate AllSpace(s: string) {
    forall i | 0 <= i < |s| :: IsSpace(s[i])
  }

  // ---------------------------------------------------------------------------
  // str.strip()
  // ---------------------------------------------------------------------------

  /** The position of the first non-whitespace character at or after `i`,
      or `|s|` when there is none. */
  function SkipSpace(s: string, i: nat): (n: nat)
    requires i <= |s|
    ensures i <= n <= |s|
    ensures forall k | i <= k < n :: IsSpace(s[k])
    ensures n == |s| || !IsSpace(s[n])
    decreases |s| - i
  {
    if i < |s| && IsSpace(s[i]) then SkipSpace(s, i + 1) else i
  }

  /** The position just past the last non-whitespace character of `s[lo..j]`,
      or `lo` when there is none. */
  function TrimEnd(s: string, lo: nat, j: nat): (n: nat)
    requires lo <= j <= |s|
    ensures lo <= n <= j
    ensures forall k | n <= k < j :: IsSpace(s[k])
    ensures n == lo || !IsSpace(s[n - 1])
  {
    if j > lo && IsSpace(s[j - 1]) then TrimEnd(s, lo, j - 1) else j
  }

  /** `str.strip()`: the slice `s[i..j]` whose outside is whitespace and whose
      ends are not. */
  function Strip(s: string): (r: string)
    ensures |r| <= |s|
    ensures exists i, j | 0 <= i <= j <= |s| :: r == s[i..j] && AllSpace(s[..i]) && AllSpace(s[j..])
    ensures r == [] || (!IsSpace(r[0]) && !IsSpace(r[|r| - 1]))
  {
    var i := SkipSpace(s, 0);
    var j := TrimEnd(s, i, |s|);
    assert AllSpace(s[..i]) by {
      forall k | 0 <= k < i ensures IsSpace(s[..i][k]) {
        assert s[..i][k] == s[k];
      }
    }
    assert AllSpace(s[j..]) by {
      forall k | 0 <= k < |s| - j ensures IsSpace(s[j..][k]) {
        assert s[j..][k] == s[j + k];
      }
    }
    s[i..j]
  }

  /** Every character of the stripped string is a character of the input, so
      a property of all input characters holds of all output characters. */
  lemma StripKeeps(s: string, p: char -> bool)
    requires forall i | 0 <= i < |s| :: p(s[i])
    ensures forall i | 0 <= i < |Strip(s)| :: p(Strip(s)[i])
  {
    var r := Strip(s);
    var a, b :| 0 <= a <= b <= |s| && r == s[a..b];
    forall i | 0 <= i < |r| ensures p(r[i]) {
      assert r[i] == s[a + i];
    }
  }

  /** Stripping a string whose two ends are not whitespace changes nothing. */
  lemma StripOfTrimmed(s: string)
    requires s == [] || (!IsSpace(s[0]) && !IsSpace(s[|s| - 1]))
    ensures Strip(s) == s
  {
    assert SkipSpace(s, 0) == 0;
    assert TrimEnd(s, 0, |s|) == |s|;
    assert s[0..|s|] == s;
  }

  lemma StripIdempotent(s: string)
    ensures Strip(Strip(s)) == Strip(s)
  {
    StripOfTrimmed(Strip(s));
  }

  // ---------------------------------------------------------------------------
  // Substrings: `v in s`, `v in s[h:]`, `s.rindex(v, h)`
  // ---------------------------------------------------------------------------

  predicate OccursAt(s: string, v: string, i: int) {
    0 <= i && i + |v| <= |s| && s[i..i + |v|] == v
  }

  /** `v in s[h:]`: an occurrence of `v` that starts at or after `h`. */
  predicate ContainsFrom(s: string, v: string, h: int) {
    exists i | h <= i <= |s| - |v| :: OccursAt(s, v, i)
  }

  /** `v in s`. */
  predicate Contains(s: string, v: string) {
    ContainsFrom(s, v, 0)
  }

  /** The last occurrence of `v` that starts in `[h, k]`. */
  function LastOccurrenceIn(s: string, v: string, h: int, k: int): (r: int)
    requires exists i | h <= i <= k :: OccursAt(s, v, i)
    ensures h <= r <= k && OccursAt(s, v, r)
    ensures forall i | r < i <= k :: !OccursAt(s, v, i)
    decreases k - h
  {
    if OccursAt(s, v, k) then k else LastOccurrenceIn(s, v, h, k - 1)
  }

  /** `s.rindex(v, h)`: the highest index at or after `h` where `v` occurs. */
  function RIndex(s: string, v: string, h: nat): (r: nat)
    requires ContainsFrom(s, v, h)
    ensures h <= r && OccursAt(s, v, r)
    ensures forall i | r < i <= |s| - |v| :: !OccursAt(s, v, i)
  {
    LastOccurrenceIn(s, v, h, |s| - |v|)
  }

  // ---------------------------------------------------------------------------
  // Word boundaries and `\b literal \b` under re.IGNORECASE
  // ---------------------------------------------------------------------------

  /** `\b` at position `i` (between `s[i-1]` and `s[i]`). */
  predicate IsBoundary(s: string, i: int)
    requires 0 <= i <= |s|
  {
    (i > 0 && IsWordChar(s[i - 1])) != (i < |s| && IsWordChar(s[i]))
  }

  /** `w` occurs at `i` in `s` up to ASCII case. */
  predicate OccursAtIgnoreCase(s: string, w: string, i: int) {
    0 <= i && i + |w| <= |s| && EqIgnoreCase(s[i..i + |w|], w)
  }

  /** The pattern `\b w \b` (case-insensitively) matches `s` at `i`. */
  predicate WordMatchAt(s: string, w: string, i: int) {
    && OccursAtIgnoreCase(s, w, i)
    && IsBoundary(s, i)
    && IsBoundary(s, i + |w|)
  }

  /** `re.sub(r'\b' + re.escape(w) + r'\b', repl, s[i:], flags=re.IGNORECASE)`,
      with the boundaries judged on the whole of `s`: the matches are taken
      left to right without overlap, and after an empty match the scan moves
      on by one character. */
  function SubWordFrom(s: string, w: string, repl: string, i: nat): string
    requires i <= |s|
    decreases |s| - i, if WordMatchAt(s, w, i) then 1 else 0
  {
    if WordMatchAt(s, w, i) then
      if |w| > 0 then repl + SubWordFrom(s, w, repl, i + |w|)
      else if i < |s| then repl + [s[i]] + SubWordFrom(s, w, repl, i + 1)
      else repl
    else if i < |s| then [s[i]] + SubWordFrom(s, w, repl, i + 1)
    else []
  }

  function SubWord(s: string, w: string, repl: string): string {
    SubWordFrom(s, w, repl, 0)
  }

  /** Where no match starts at or after `i`, the substitution copies the rest. */
  lemma {:induction false} SubWordFromNoMatch(s: string, w: string, repl: string, i: nat)
    requires i <= |s|
    requires forall k | i <= k <= |s| :: !WordMatchAt(s, w, k)
    ensures SubWordFrom(s, w, repl, i) == s[i..]
    decreases |s| - i
  {
    if i < |s| {
      SubWordFromNoMatch(s, w, repl, i + 1);
    }
  }

  /** The text before the first match is kept as it is, and the first match
      is replaced by `repl`. */
  lemma {:induction false} SubWordFromFirstMatch(s: string, w: string, repl: string, i: nat, m: nat)
    requires i <= m <= |s| && |w| > 0
    requires WordMatchAt(s, w, m)
    requires forall k | i <= k < m :: !WordMatchAt(s, w, k)
    ensures SubWordFrom(s, w, repl, i) == s[i..m] + repl + SubWordFrom(s, w, repl, m + |w|)
    decreases m - i
  {
    var rest := SubWordFrom(s, w, repl, m + |w|);
    if i < m {
      SubWordFromFirstMatch(s, w, repl, i + 1, m);
      SubWordFromSkip(s, w, repl, i);
      SliceCons(s, i, m);
      ConcatAssoc([s[i]], s[i + 1..m], repl);
      ConcatAssoc([s[i]], s[i + 1..m] + repl, rest);
    } else {
      SubWordFromHit(s, w, repl, i);
      assert s[i..m] + repl == repl;
    }
  }

  /** One step of the scan over a non-empty match. */
  lemma SubWordFromHit(s: string, w: string, repl: string, i: nat)
    requires i <= |s| && |w| > 0 && WordMatchAt(s, w, i)
    ensures SubWordFrom(s, w, repl, i) == repl + SubWordFrom(s, w, repl, i + |w|)
  {
  }

  /** One step of the scan past a position where no match starts. */
  lemma SubWordFromSkip(s: string, w: string, repl: string, i: nat)
    requires i < |s| && !WordMatchAt(s, w, i)
    ensures SubWordFrom(s, w, repl, i) == [s[i]] + SubWordFrom(s, w, repl, i + 1)
  {
  }

  /** `w` occurs in `s` up to ASCII case. */
  predicate ContainsIgnoreCase(s: string, w: string) {
    exists i | 0 <= i <= |s| - |w| :: OccursAtIgnoreCase(s, w, i)
  }

  lemma ContainsIgnoringCase(s: string, w: string)
    ensures Contains(s, w) ==> ContainsIgnoreCase(s, w)
  {
    if Contains(s, w) {
      var k :| 0 <= k <= |s| - |w| && OccursAt(s, w, k);
      assert OccursAtIgnoreCase(s, w, k);
    }
  }

  /** A word that does not occur in `s`, in any case, is never substituted. */
  lemma SubWordAbsent(s: string, w: string, repl: string)
    requires !ContainsIgnoreCase(s, w)
    ensures SubWord(s, w, repl) == s
  {
    SubWordFromNoMatch(s, w, repl, 0);
  }

  // ---------------------------------------------------------------------------
  // str.replace(old, new)
  // ---------------------------------------------------------------------------

  /** `s[i:].replace(old, new)`: non-overlapping occurrences, left to right. */
  function ReplaceFrom(s: string, pat: string, sub: string, i: nat): string
    requires |pat| > 0 && i <= |s|
    decreases |s| - i
  {
    if OccursAt(s, pat, i) then sub + ReplaceFrom(s, pat, sub, i + |pat|)
    else if i < |s| then [s[i]] + ReplaceFrom(s, pat, sub, i + 1)
    else []
  }

  function Replace(s: string, pat: string, sub: string): string
    requires |pat| > 0
  {
    ReplaceFrom(s, pat, sub, 0)
  }

  lemma {:induction false} ReplaceFromAbsent(s: string, pat: string, sub: string, i: nat)
    requires |pat| > 0 && i <= |s|
    requires forall k | i <= k <= |s| :: !OccursAt(s, pat, k)
    ensures ReplaceFrom(s, pat, sub, i) == s[i..]
    decreases |s| - i
  {
    if i < |s| {
      ReplaceFromAbsent(s, pat, sub, i + 1);
    }
  }

  /** Replacing a string that does not occur changes nothing. */
  lemma ReplaceAbsent(s: string, pat: string, sub: string)
    requires |pat| > 0 && !Contains(s, pat)
    ensures Replace(s, pat, sub) == s
  {
    ReplaceFromAbsent(s, pat, sub, 0);
  }

  /** Replacing by a string no longer than the one replaced never lengthens
      the text. */
  lemma {:induction false} ReplaceFromNotLonger(s: string, pat: string, sub: string, i: nat)
    requires |pat| > 0 && |sub| <= |pat| && i <= |s|
    ensures |ReplaceFrom(s, pat, sub, i)| <= |s| - i
    decreases |s| - i
  {
    if OccursAt(s, pat, i) {
      ReplaceFromNotLonger(s, pat, sub, i + |pat|);
    } else if i < |s| {
      ReplaceFromNotLonger(s, pat, sub, i + 1);
    }
  }

  /** The text before the first occurrence from `i` on is kept as it is, and
      that occurrence is replaced by `sub`. */
  lemma {:induction false} ReplaceFromFirstOccurrence(s: string, pat: string, sub: string, i: nat, m: nat)
    requires |pat| > 0 && i <= m && OccursAt(s, pat, m)
    requires forall k | i <= k < m :: !OccursAt(s, pat, k)
    ensures ReplaceFrom(s, pat, sub, i) == s[i..m] + sub + ReplaceFrom(s, pat, sub, m + |pat|)
    decreases m - i
  {
    var rest := ReplaceFrom(s, pat, sub, m + |pat|);
    if i < m {
      ReplaceFromFirstOccurrence(s, pat, sub, i + 1, m);
      assert ReplaceFrom(s, pat, sub, i) == [s[i]] + ReplaceFrom(s, pat, sub, i + 1);
      SliceCons(s, i, m);
      ConcatAssoc([s[i]], s[i + 1..m], sub);
      ConcatAssoc([s[i]], s[i + 1..m] + sub, rest);
    } else {
      assert s[i..m] + sub == sub;
    }
  }

  /** A text in which `pat` occurs exactly once, between `a` and `b`, has
      that occurrence replaced and nothing else changed. */
  lemma ReplaceOnly(a: string, pat: string, sub: string, b: string)
    requires |pat| > 0
    requires forall k | 0 <= k <= |a + pat + b| && k != |a| :: !OccursAt(a + pat + b, pat, k)
    ensures Replace(a + pat + b, pat, sub) == a + sub + b
  {
    var s := a + pat + b;
    var m := |a|;
    assert s[m..m + |pat|] == pat;
    ReplaceFromFirstOccurrence(s, pat, sub, 0, m);
    ReplaceFromAbsent(s, pat, sub, m + |pat|);
    assert s[..m] == a;
    assert s[m + |pat|..] == b;
  }
}
