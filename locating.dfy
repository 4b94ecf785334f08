/** What `PDFProcessor.filter_iclr_pdf` computes once the text is translated:
    the first match of every normalised title, the stable sort of those
    candidates by position, the earliest candidate of each section, and the
    range `[start, next start)` of each. The method that does this step by
    step is `PdfProcessor.FilterIclrPdf`; these functions are its
    specification. */
module Locating {
  import opened Wrappers
  import opened Text
  import opened Tables
  import opened Titles

  // ---------------------------------------------------------------------------
  // The pattern (?:(?:\d+\.)*\d+\s+)?\b title \b, case-insensitively
  // ---------------------------------------------------------------------------

  /** `x` matches `(?:\d+\.)*\d+\s+` in full: a section number, then
      whitespace. */
  predicate IsNumbering(x: string) {
    exists k | 0 < k < |x| :: IsSectionNumber(x[..k]) && AllSpace(x[k..])
  }

  /** The header pattern of `title` matches `s` starting at `p`: the title as a
      whole word at `p`, or a numbering prefix at `p` and the title as a whole
      word right after it. */
  predicate HeaderMatchAt(s: string, title: string, p: int) {
    || WordMatchAt(s, title, p)
    || (0 <= p <= |s| && exists q | p < q <= |s| :: IsNumbering(s[p..q]) && WordMatchAt(s, title, q))
  }

  /** Some end `r`, from `q` on, has a numbering prefix `s[p..r]` followed by
      the title as a whole word: the scan the search runs for the optional
      group of the pattern. */
  predicate NumberedFrom(s: string, title: string, p: nat, q: nat)
    decreases |s| + 1 - q
  {
    if q > |s| then false
    else (p < q && IsNumbering(s[p..q]) && WordMatchAt(s, title, q)) || NumberedFrom(s, title, p, q + 1)
  }

  lemma {:induction false} NumberedFromExists(s: string, title: string, p: nat, q: nat)
    ensures NumberedFrom(s, title, p, q) <==>
              exists r | q <= r <= |s| && p < r :: IsNumbering(s[p..r]) && WordMatchAt(s, title, r)
    decreases |s| + 1 - q
  {
    if q <= |s| {
      NumberedFromExists(s, title, p, q + 1);
    }
  }

  /** The header pattern as the search tests it, one position at a time. */
  predicate HeaderMatchesAt(s: string, title: string, p: nat) {
    WordMatchAt(s, title, p) || (p <= |s| && NumberedFrom(s, title, p, p + 1))
  }

  /** The test agrees with the pattern. */
  lemma HeaderMatchesAtSpec(s: string, title: string, p: nat)
    ensures HeaderMatchesAt(s, title, p) <==> HeaderMatchAt(s, title, p)
  {
    NumberedFromExists(s, title, p, p + 1);
  }

  /** The leftmost position at or after `p` where the header pattern
      matches. */
  function FindHeaderFrom(s: string, title: string, p: nat): (r: Option<nat>)
    ensures r.Some? ==> p <= r.value <= |s|
    decreases |s| + 1 - p
  {
    if p > |s| then None
    else if HeaderMatchesAt(s, title, p) then Some(p)
    else FindHeaderFrom(s, title, p + 1)
  }

  /** The search finds the leftmost match at or after `p`, and `None` exactly
      when there is no match there. */
  lemma {:induction false} FindHeaderFromLeftmost(s: string, title: string, p: nat)
    ensures FindHeaderFrom(s, title, p).Some? ==>
              HeaderMatchAt(s, title, FindHeaderFrom(s, title, p).value) &&
              forall k | p <= k < FindHeaderFrom(s, title, p).value :: !HeaderMatchAt(s, title, k)
    ensures FindHeaderFrom(s, title, p).None? ==> forall k | p <= k <= |s| :: !HeaderMatchAt(s, title, k)
    decreases |s| + 1 - p
  {
    if p <= |s| {
      HeaderMatchesAtSpec(s, title, p);
      if !HeaderMatchesAt(s, title, p) {
        FindHeaderFromLeftmost(s, title, p + 1);
      }
    }
  }

  /** `match.start()` of the first match of `pattern.finditer(content)`. */
  function FirstHeaderMatch(s: string, title: string): Option<nat> {
    FindHeaderFrom(s, title, 0)
  }

  // ---------------------------------------------------------------------------
  // Candidates: paper_sections before the sort
  // ---------------------------------------------------------------------------

  /** `{'section': section, 'start': start_pos}`. */
  datatype Candidate = Candidate(section: string, start: nat)

  /** The candidate the first match of one title adds, if it matches. */
  function MatchCandidate(section: string, title: string, s: string): seq<Candidate> {
    match FirstHeaderMatch(s, title)
    case Some(p) => [Candidate(section, p)]
    case None => []
  }

  /** The candidates of the titles of one section, in title order. */
  function TitleCandidates(section: string, titles: seq<string>, s: string): seq<Candidate> {
    if titles == [] then []
    else TitleCandidates(section, titles[..|titles| - 1], s) + MatchCandidate(section, titles[|titles| - 1], s)
  }

  /** Every candidate of one section carries its name and starts inside the
      text. */
  lemma {:induction false} TitleCandidatesBounds(section: string, titles: seq<string>, s: string)
    ensures forall x | x in TitleCandidates(section, titles, s) :: x.section == section && x.start <= |s|
  {
    if titles != [] {
      TitleCandidatesBounds(section, titles[..|titles| - 1], s);
    }
  }

  /** The candidates of the first `m` entries of the table, in table order. */
  function CandidatesUpTo(nc: Table, m: nat, s: string): seq<Candidate>
    requires m <= |nc|
  {
    if m == 0 then []
    else CandidatesUpTo(nc, m - 1, s) + TitleCandidates(nc[m - 1].key, nc[m - 1].values, s)
  }

  /** Every candidate is named after one of the first `m` entries and starts
      inside the text. */
  lemma {:induction false} CandidatesUpToBounds(nc: Table, m: nat, s: string)
    requires m <= |nc|
    ensures forall x | x in CandidatesUpTo(nc, m, s) :: x.start <= |s| && exists i | 0 <= i < m :: x.section == nc[i].key
  {
    if m > 0 {
      var n := m - 1;
      CandidatesUpToBounds(nc, n, s);
      TitleCandidatesBounds(nc[n].key, nc[n].values, s);
      assert forall x | x in CandidatesUpTo(nc, m, s) :: x in CandidatesUpTo(nc, n, s) || x in TitleCandidates(nc[n].key, nc[n].values, s);
    }
  }

  function Candidates(nc: Table, s: string): seq<Candidate> {
    CandidatesUpTo(nc, |nc|, s)
  }

  /** The title `nc[i].values[j]` first matches `s` at `p`. */
  predicate TitleMatches(nc: Table, s: string, i: int, j: int, p: int) {
    0 <= i < |nc| && 0 <= j < |nc[i].values| && FirstHeaderMatch(s, nc[i].values[j]) == Some(p)
  }

  lemma MatchCandidateExact(section: string, title: string, s: string, x: Candidate)
    ensures x in MatchCandidate(section, title, s) <==>
              x.section == section && FirstHeaderMatch(s, title) == Some(x.start)
  {
  }

  lemma {:induction false} TitleCandidatesExact(section: string, titles: seq<string>, s: string, x: Candidate)
    ensures x in TitleCandidates(section, titles, s) <==>
              x.section == section && exists j | 0 <= j < |titles| :: FirstHeaderMatch(s, titles[j]) == Some(x.start)
  {
    if titles != [] {
      var n := |titles| - 1;
      var init := titles[..n];
      TitleCandidatesExact(section, init, s, x);
      MatchCandidateExact(section, titles[n], s, x);
      assert TitleCandidates(section, titles, s) ==
             TitleCandidates(section, init, s) + MatchCandidate(section, titles[n], s);
      if x in TitleCandidates(section, init, s) {
        var j :| 0 <= j < n && FirstHeaderMatch(s, init[j]) == Some(x.start);
        assert init[j] == titles[j];
      }
      if x.section == section && exists j | 0 <= j < |titles| :: FirstHeaderMatch(s, titles[j]) == Some(x.start) {
        var j :| 0 <= j < |titles| && FirstHeaderMatch(s, titles[j]) == Some(x.start);
        if j < n {
          assert init[j] == titles[j];
        }
      }
    }
  }

  /** A candidate is exactly a section of the table together with the first
      match position of one of its titles. */
  lemma {:induction false} CandidatesUpToExact(nc: Table, m: nat, s: string, x: Candidate)
    requires m <= |nc|
    ensures x in CandidatesUpTo(nc, m, s) <==>
              exists i, j | 0 <= i < m && 0 <= j < |nc[i].values| ::
                x.section == nc[i].key && TitleMatches(nc, s, i, j, x.start)
  {
    if m > 0 {
      var n := m - 1;
      var prev := CandidatesUpTo(nc, n, s);
      var added := TitleCandidates(nc[n].key, nc[n].values, s);
      assert CandidatesUpTo(nc, m, s) == prev + added;
      CandidatesUpToExact(nc, n, s, x);
      TitleCandidatesExact(nc[n].key, nc[n].values, s, x);
      if x in added {
        var j :| 0 <= j < |nc[n].values| && FirstHeaderMatch(s, nc[n].values[j]) == Some(x.start);
        assert TitleMatches(nc, s, n, j, x.start);
      }
      if exists i, j | 0 <= i < m && 0 <= j < |nc[i].values| ::
           x.section == nc[i].key && TitleMatches(nc, s, i, j, x.start) {
        var i, j :| 0 <= i < m && 0 <= j < |nc[i].values| &&
                    x.section == nc[i].key && TitleMatches(nc, s, i, j, x.start);
        if i == n {
          assert x in added;
        } else {
          assert x in prev;
        }
      }
    }
  }

  /** Every candidate comes from a title of its section and that title's first
      match. */
  lemma CandidateSound(nc: Table, s: string, x: Candidate)
    requires x in Candidates(nc, s)
    ensures exists i, j :: TitleMatches(nc, s, i, j, x.start) && x.section == nc[i].key
  {
    CandidatesUpToExact(nc, |nc|, s, x);
  }

  /** Every first match of a title gives a candidate for its section. */
  lemma CandidateComplete(nc: Table, s: string, i: int, j: int, p: nat)
    requires TitleMatches(nc, s, i, j, p)
    ensures Candidate(nc[i].key, p) in Candidates(nc, s)
  {
    CandidatesUpToExact(nc, |nc|, s, Candidate(nc[i].key, p));
  }

  /** A candidate is exactly a section of the table together with the first
      match position of one of its titles. */
  lemma CandidatesExact(nc: Table, s: string, x: Candidate)
    ensures x in Candidates(nc, s) <==>
              exists i, j :: TitleMatches(nc, s, i, j, x.start) && x.section == nc[i].key
  {
    if x in Candidates(nc, s) {
      CandidateSound(nc, s, x);
    }
    if exists i, j :: TitleMatches(nc, s, i, j, x.start) && x.section == nc[i].key {
      var i, j :| TitleMatches(nc, s, i, j, x.start) && x.section == nc[i].key;
      CandidateComplete(nc, s, i, j, x.start);
    }
  }

  /** No candidate at all exactly when no title of the table matches. */
  lemma CandidatesEmpty(nc: Table, s: string)
    ensures Candidates(nc, s) == [] <==>
              forall i, j | 0 <= i < |nc| && 0 <= j < |nc[i].values| :: FirstHeaderMatch(s, nc[i].values[j]).None?
  {
    var cs := Candidates(nc, s);
    if cs != [] {
      assert cs[0] in cs;
      CandidateSound(nc, s, cs[0]);
    }
    if exists i, j | 0 <= i < |nc| && 0 <= j < |nc[i].values| :: FirstHeaderMatch(s, nc[i].values[j]).Some? {
      var i, j :| 0 <= i < |nc| && 0 <= j < |nc[i].values| && FirstHeaderMatch(s, nc[i].values[j]).Some?;
      CandidateComplete(nc, s, i, j, FirstHeaderMatch(s, nc[i].values[j]).value);
    }
  }

  // ---------------------------------------------------------------------------
  // sorted(paper_sections, key=lambda x: x['start']): a stable sort
  // ---------------------------------------------------------------------------

  predicate SortedByStart(cs: seq<Candidate>) {
    forall i, j | 0 <= i < j < |cs| :: cs[i].start <= cs[j].start
  }

  /** Insert `x` into a sorted sequence after every element whose start is not
      greater than its own. */
  function InsertByStart(x: Candidate, cs: seq<Candidate>): (r: seq<Candidate>)
    requires SortedByStart(cs)
    ensures SortedByStart(r)
    ensures forall e :: e in r <==> e == x || e in cs
  {
    if cs == [] then [x]
    else if x.start < cs[0].start then
      SortedByStartCons(x, cs);
      [x] + cs
    else
      var rest := InsertByStart(x, cs[1..]);
      assert x in rest;
      assert rest[0].start >= cs[0].start by {
        assert rest[0] in rest;
        if rest[0] != x {
          var k :| 0 <= k < |cs| - 1 && cs[1..][k] == rest[0];
          assert cs[1..][k] == cs[k + 1];
        }
      }
      SortedByStartCons(cs[0], rest);
      assert forall e :: e in cs <==> e == cs[0] || e in cs[1..] by {
        assert cs == [cs[0]] + cs[1..];
      }
      [cs[0]] + rest
  }

  lemma {:induction false} SortedByStartCons(c: Candidate, rest: seq<Candidate>)
    requires SortedByStart(rest)
    requires rest != [] ==> c.start <= rest[0].start
    ensures SortedByStart([c] + rest)
  {
    var r := [c] + rest;
    forall i, j | 0 <= i < j < |r|
      ensures r[i].start <= r[j].start
    {
      assert r[j] == rest[j - 1];
      if i > 0 {
        assert r[i] == rest[i - 1];
      } else if j > 1 {
        assert rest[0].start <= rest[j - 1].start;
      }
    }
  }

  /** Insertion adds exactly one copy of `x`. */
  lemma {:induction false} InsertByStartPerm(x: Candidate, cs: seq<Candidate>)
    requires SortedByStart(cs)
    ensures multiset(InsertByStart(x, cs)) == multiset(cs) + multiset{x}
  {
    if cs == [] {
    } else if x.start < cs[0].start {
      MultisetCons(x, cs);
    } else {
      var rest := InsertByStart(x, cs[1..]);
      assert InsertByStart(x, cs) == [cs[0]] + rest;
      InsertByStartPerm(x, cs[1..]);
      MultisetCons(cs[0], rest);
      MultisetHead(cs);
    }
  }

  /** Insertion sort by start, which keeps equal starts in input order. */
  function SortByStart(cs: seq<Candidate>): (r: seq<Candidate>)
    ensures SortedByStart(r)
    ensures forall e :: e in r <==> e in cs
  {
    if cs == [] then []
    else
      var n := |cs| - 1;
      assert forall e :: e in cs <==> e in cs[..n] || e == cs[n] by {
        assert cs == cs[..n] + [cs[n]];
      }
      InsertByStart(cs[n], SortByStart(cs[..n]))
  }

  /** `sorted` returns a permutation of its input. */
  lemma {:induction false} SortByStartPerm(cs: seq<Candidate>)
    ensures multiset(SortByStart(cs)) == multiset(cs)
  {
    if cs != [] {
      var n := |cs| - 1;
      var sorted := SortByStart(cs[..n]);
      assert SortByStart(cs) == InsertByStart(cs[n], sorted);
      SortByStartPerm(cs[..n]);
      InsertByStartPerm(cs[n], sorted);
      MultisetLast(cs);
    }
  }

  /** The candidates whose start is `p`, in order. */
  function WithStart(cs: seq<Candidate>, p: int): seq<Candidate> {
    if cs == [] then []
    else (if cs[0].start == p then [cs[0]] else []) + WithStart(cs[1..], p)
  }

  lemma {:induction false} WithStartConcat(a: seq<Candidate>, b: seq<Candidate>, p: int)
    ensures WithStart(a + b, p) == WithStart(a, p) + WithStart(b, p)
  {
    if a == [] {
      assert a + b == b;
    } else {
      var head := if a[0].start == p then [a[0]] else [];
      WithStartConcat(a[1..], b, p);
      assert WithStart(a + b, p) == head + WithStart(a[1..] + b, p) by {
        assert (a + b)[0] == a[0] && (a + b)[1..] == a[1..] + b;
      }
      assert WithStart(a, p) == head + WithStart(a[1..], p);
      ConcatAssoc(head, WithStart(a[1..], p), WithStart(b, p));
    }
  }

  lemma {:induction false} WithStartAbove(cs: seq<Candidate>, p: int)
    requires forall e | e in cs :: e.start > p
    ensures WithStart(cs, p) == []
  {
    if cs != [] {
      WithStartAbove(cs[1..], p);
    }
  }

  lemma WithStartCons(c: Candidate, cs: seq<Candidate>, p: int)
    ensures WithStart([c] + cs, p) == (if c.start == p then [c] else []) + WithStart(cs, p)
  {
    assert ([c] + cs)[0] == c && ([c] + cs)[1..] == cs;
  }

  lemma WithStartSingle(c: Candidate, p: int)
    ensures WithStart([c], p) == if c.start == p then [c] else []
  {
    WithStartCons(c, [], p);
    assert [c] + [] == [c];
  }

  lemma {:induction false} InsertByStartStable(x: Candidate, cs: seq<Candidate>, p: int)
    requires SortedByStart(cs)
    ensures WithStart(InsertByStart(x, cs), p) == WithStart(cs, p) + (if x.start == p then [x] else [])
  {
    var hit := if x.start == p then [x] else [];
    if cs == [] {
      WithStartSingle(x, p);
    } else if x.start < cs[0].start {
      WithStartCons(x, cs, p);
      if x.start == p {
        WithStartAbove(cs, p);
      }
    } else {
      var rest := InsertByStart(x, cs[1..]);
      var head := if cs[0].start == p then [cs[0]] else [];
      assert InsertByStart(x, cs) == [cs[0]] + rest;
      InsertByStartStable(x, cs[1..], p);
      WithStartCons(cs[0], rest, p);
      assert WithStart(cs, p) == head + WithStart(cs[1..], p) by {
        assert cs == [cs[0]] + cs[1..];
        WithStartCons(cs[0], cs[1..], p);
      }
      ConcatAssoc(head, WithStart(cs[1..], p), hit);
    }
  }

  /** The sort is stable: the candidates that share a start keep their input
      order. With `SortedByStart` and `SortByStartPerm`,
      this is all of what Python's `sorted` promises. */
  lemma {:induction false} SortByStartStable(cs: seq<Candidate>, p: int)
    ensures WithStart(SortByStart(cs), p) == WithStart(cs, p)
  {
    if cs != [] {
      var n := |cs| - 1;
      var sorted := SortByStart(cs[..n]);
      assert SortByStart(cs) == InsertByStart(cs[n], sorted);
      SortByStartStable(cs[..n], p);
      InsertByStartStable(cs[n], sorted, p);
      assert WithStart(cs, p) == WithStart(cs[..n], p) + WithStart([cs[n]], p) by {
        assert cs == cs[..n] + [cs[n]];
        WithStartConcat(cs[..n], [cs[n]], p);
      }
      WithStartSingle(cs[n], p);
    }
  }

  // ---------------------------------------------------------------------------
  // Table order among equal starts
  // ---------------------------------------------------------------------------

  /** The position of the entry `k` in the table, `|nc|` when it is absent. */
  function KeyIndex(nc: Table, k: string): (r: nat)
    ensures r <= |nc|
    ensures r < |nc| ==> nc[r].key == k
    ensures forall i | 0 <= i < r :: nc[i].key != k
  {
    if nc == [] then 0
    else if nc[0].key == k then 0
    else 1 + KeyIndex(nc[1..], k)
  }

  lemma KeyIndexOf(nc: Table, i: nat)
    requires UniqueKeys(nc) && i < |nc|
    ensures KeyIndex(nc, nc[i].key) == i
  {
  }

  /** Earlier start first, and among equal starts, earlier table entry
      first. */
  predicate Precedes(nc: Table, a: Candidate, b: Candidate) {
    a.start < b.start || (a.start == b.start && KeyIndex(nc, a.section) <= KeyIndex(nc, b.section))
  }

  predicate InTableOrder(nc: Table, cs: seq<Candidate>) {
    forall i, j | 0 <= i < j < |cs| :: KeyIndex(nc, cs[i].section) <= KeyIndex(nc, cs[j].section)
  }

  predicate LexSorted(nc: Table, cs: seq<Candidate>) {
    forall i, j | 0 <= i < j < |cs| :: Precedes(nc, cs[i], cs[j])
  }

  /** The candidates of the first `m` chapters belong to those chapters. */
  lemma CandidatesKeyBound(nc: Table, m: nat, s: string)
    requires UniqueKeys(nc) && m <= |nc|
    ensures forall x | x in CandidatesUpTo(nc, m, s) :: KeyIndex(nc, x.section) < m
  {
    CandidatesUpToBounds(nc, m, s);
    forall x | x in CandidatesUpTo(nc, m, s)
      ensures KeyIndex(nc, x.section) < m
    {
      var i :| 0 <= i < m && x.section == nc[i].key;
      KeyIndexOf(nc, i);
    }
  }

  lemma CandidatesUpToStep(nc: Table, m: nat, s: string)
    requires 0 < m <= |nc|
    ensures CandidatesUpTo(nc, m, s) == CandidatesUpTo(nc, m - 1, s) + TitleCandidates(nc[m - 1].key, nc[m - 1].values, s)
  {
  }

  /** The candidates of one chapter sit at that chapter's position. */
  lemma TitleCandidatesKeyIndex(nc: Table, i: nat, s: string)
    requires UniqueKeys(nc) && i < |nc|
    ensures forall x | x in TitleCandidates(nc[i].key, nc[i].values, s) :: KeyIndex(nc, x.section) == i
  {
    KeyIndexOf(nc, i);
    TitleCandidatesBounds(nc[i].key, nc[i].values, s);
  }

  /** The candidates come out of the scan in table order. */
  lemma {:induction false} CandidatesInTableOrder(nc: Table, m: nat, s: string)
    requires UniqueKeys(nc) && m <= |nc|
    ensures InTableOrder(nc, CandidatesUpTo(nc, m, s))
  {
    if m > 0 {
      var n := m - 1;
      CandidatesInTableOrder(nc, n, s);
      CandidatesKeyBound(nc, n, s);
      TitleCandidatesKeyIndex(nc, n, s);
      InTableOrderConcat(nc, CandidatesUpTo(nc, n, s), TitleCandidates(nc[n].key, nc[n].values, s), n);
      CandidatesUpToStep(nc, m, s);
    }
  }

  /** Two runs in table order, the first wholly before the entry `k` and the
      second wholly at it, are in table order together. */
  lemma InTableOrderConcat(nc: Table, a: seq<Candidate>, b: seq<Candidate>, k: nat)
    requires InTableOrder(nc, a)
    requires forall x | x in a :: KeyIndex(nc, x.section) < k
    requires forall y | y in b :: KeyIndex(nc, y.section) == k
    ensures InTableOrder(nc, a + b)
    ensures forall x | x in a + b :: KeyIndex(nc, x.section) <= k
  {
    var r := a + b;
    forall i, j | 0 <= i < j < |r|
      ensures KeyIndex(nc, r[i].section) <= KeyIndex(nc, r[j].section)
    {
      if j < |a| {
        assert r[i] == a[i] && r[j] == a[j];
      } else if i < |a| {
        assert r[i] == a[i] && a[i] in a;
        assert r[j] == b[j - |a|] && b[j - |a|] in b;
      } else {
        assert r[i] == b[i - |a|] && b[i - |a|] in b;
        assert r[j] == b[j - |a|] && b[j - |a|] in b;
      }
    }
  }

  lemma {:induction false} InsertByStartLex(nc: Table, x: Candidate, cs: seq<Candidate>)
    requires SortedByStart(cs) && LexSorted(nc, cs)
    requires forall e | e in cs :: KeyIndex(nc, e.section) <= KeyIndex(nc, x.section)
    ensures LexSorted(nc, InsertByStart(x, cs))
  {
    if cs == [] {
    } else if x.start < cs[0].start {
      LexSortedCons(nc, x, cs);
    } else {
      var rest := InsertByStart(x, cs[1..]);
      assert InsertByStart(x, cs) == [cs[0]] + rest;
      InsertByStartLex(nc, x, cs[1..]);
      forall j | 0 <= j < |rest|
        ensures Precedes(nc, cs[0], rest[j])
      {
        assert rest[j] in rest;
        if rest[j] != x {
          assert rest[j] in cs[1..];
        }
      }
      LexSortedCons(nc, cs[0], rest);
    }
  }

  lemma LexSortedCons(nc: Table, c: Candidate, rest: seq<Candidate>)
    requires LexSorted(nc, rest)
    requires forall j | 0 <= j < |rest| :: Precedes(nc, c, rest[j])
    ensures LexSorted(nc, [c] + rest)
  {
    var r := [c] + rest;
    forall i, j | 0 <= i < j < |r|
      ensures Precedes(nc, r[i], r[j])
    {
      assert r[j] == rest[j - 1];
      if i > 0 {
        assert r[i] == rest[i - 1];
      }
    }
  }

  /** Sorting candidates that are in table order by start gives the order of
      (start, table position). */
  lemma {:induction false} SortByStartLex(nc: Table, cs: seq<Candidate>)
    requires InTableOrder(nc, cs)
    ensures LexSorted(nc, SortByStart(cs))
  {
    if cs != [] {
      var n := |cs| - 1;
      SortByStartLex(nc, cs[..n]);
      forall e | e in SortByStart(cs[..n])
        ensures KeyIndex(nc, e.section) <= KeyIndex(nc, cs[n].section)
      {
        assert e in cs[..n];
      }
      InsertByStartLex(nc, cs[n], SortByStart(cs[..n]));
    }
  }

  // ---------------------------------------------------------------------------
  // unique_sections: the first candidate of every section
  // ---------------------------------------------------------------------------

  predicate HasSection(cs: seq<Candidate>, name: string) {
    exists i | 0 <= i < |cs| :: cs[i].section == name
  }

  predicate UniqueSections(cs: seq<Candidate>) {
    forall i, j | 0 <= i < j < |cs| :: cs[i].section != cs[j].section
  }

  lemma HasSectionSnoc(cs: seq<Candidate>, x: Candidate)
    ensures forall name :: HasSection(cs + [x], name) <==> HasSection(cs, name) || x.section == name
  {
    forall name | HasSection(cs, name)
      ensures HasSection(cs + [x], name)
    {
      var i :| 0 <= i < |cs| && cs[i].section == name;
      assert (cs + [x])[i] == cs[i];
    }
    assert (cs + [x])[|cs|] == x;
  }

  /** Permuting the candidates keeps the sections they name. */
  lemma HasSectionPermuted(a: seq<Candidate>, b: seq<Candidate>)
    requires forall e :: e in a <==> e in b
    ensures forall name :: HasSection(a, name) <==> HasSection(b, name)
  {
    forall name | HasSection(a, name)
      ensures HasSection(b, name)
    {
      var i :| 0 <= i < |a| && a[i].section == name;
      assert a[i] in b;
      var j :| 0 <= j < |b| && b[j] == a[i];
    }
    forall name | HasSection(b, name)
      ensures HasSection(a, name)
    {
      var j :| 0 <= j < |b| && b[j].section == name;
      assert b[j] in a;
      var i :| 0 <= i < |a| && a[i] == b[j];
    }
  }

  /** Keep the first candidate of each section, in order: the loop over the
      sorted candidates with its `seen` set. */
  function Dedupe(cs: seq<Candidate>): (r: seq<Candidate>)
    ensures UniqueSections(r)
    ensures forall name :: HasSection(r, name) <==> HasSection(cs, name)
    ensures forall x | x in r :: x in cs
  {
    if cs == [] then []
    else
      var n := |cs| - 1;
      var d := Dedupe(cs[..n]);
      assert cs == cs[..n] + [cs[n]];
      HasSectionSnoc(cs[..n], cs[n]);
      if HasSection(d, cs[n].section) then d
      else
        HasSectionSnoc(d, cs[n]);
        d + [cs[n]]
  }

  /** From candidates sorted by start, the kept candidate of every section is
      one with the least start of that section, and the kept ones stay
      sorted. */
  lemma {:induction false} DedupeKeepsLeast(cs: seq<Candidate>)
    requires SortedByStart(cs)
    ensures var r := Dedupe(cs);
            && SortedByStart(r)
            && forall i, j | 0 <= i < |r| && 0 <= j < |cs| && r[i].section == cs[j].section ::
                 r[i].start <= cs[j].start
  {
    if cs != [] {
      var n := |cs| - 1;
      var d := Dedupe(cs[..n]);
      var r := Dedupe(cs);
      DedupeKeepsLeast(cs[..n]);
      forall i | 0 <= i < |d|
        ensures d[i].start <= cs[n].start
      {
        assert d[i] in cs[..n];
      }
      forall i, j | 0 <= i < |r| && 0 <= j < |cs| && r[i].section == cs[j].section
        ensures r[i].start <= cs[j].start
      {
        if j < n {
          assert cs[..n][j] == cs[j];
        }
      }
    }
  }

  lemma {:induction false} DedupeLex(nc: Table, cs: seq<Candidate>)
    requires LexSorted(nc, cs)
    ensures LexSorted(nc, Dedupe(cs))
  {
    if cs != [] {
      var n := |cs| - 1;
      DedupeLex(nc, cs[..n]);
      var d := Dedupe(cs[..n]);
      forall x | x in d
        ensures Precedes(nc, x, cs[n])
      {
        var k :| 0 <= k < n && cs[..n][k] == x;
      }
    }
  }

  // ---------------------------------------------------------------------------
  // Ranges: end, text and length of each section
  // ---------------------------------------------------------------------------

  /** A section of the result: `{'section', 'start', 'end', 'length', 'text'}`. */
  datatype Span = Span(section: string, start: nat, end: nat, length: nat, text: string)

  predicate StartsWithin(cs: seq<Candidate>, s: string) {
    forall x | x in cs :: x.start <= |s|
  }

  /** The end of the `i`-th section: the next start, or the end of the text. */
  function EndOf(s: string, us: seq<Candidate>, i: nat): nat
    requires i < |us|
  {
    if i < |us| - 1 then us[i + 1].start else |s|
  }

  /** The span of the `i`-th section. */
  function SpanAt(s: string, us: seq<Candidate>, i: nat): Span
    requires SortedByStart(us) && StartsWithin(us, s) && i < |us|
  {
    var end := EndOf(s, us, i);
    assert us[i] in us;
    var text := Strip(s[us[i].start..end]);
    Span(us[i].section, us[i].start, end, |text|, text)
  }

  function Ranges(s: string, us: seq<Candidate>): seq<Span>
    requires SortedByStart(us) && StartsWithin(us, s)
  {
    seq(|us|, i requires 0 <= i < |us| => SpanAt(s, us, i))
  }

  /** The deduplicated candidates, in order of start. */
  function UniqueCandidates(nc: Table, s: string): (us: seq<Candidate>)
    ensures SortedByStart(us) && StartsWithin(us, s)
  {
    var cs := Candidates(nc, s);
    var sorted := SortByStart(cs);
    CandidatesUpToBounds(nc, |nc|, s);
    DedupeKeepsLeast(sorted);
    Dedupe(sorted)
  }

  /** The result of `filter_iclr_pdf` on a translated text `s`. */
  function Locate(nc: Table, s: string): seq<Span> {
    if Candidates(nc, s) == [] then []
    else Ranges(s, UniqueCandidates(nc, s))
  }

  // ---------------------------------------------------------------------------
  // What the result promises
  // ---------------------------------------------------------------------------

  /** Some title of the section `name` matches the text. */
  predicate SectionMatches(nc: Table, s: string, name: string) {
    exists i, j | 0 <= i < |nc| && 0 <= j < |nc[i].values| ::
      nc[i].key == name && FirstHeaderMatch(s, nc[i].values[j]).Some?
  }

  /** The sections the candidates name are those with a matching title, and
      so are the sections kept after sorting and deduplication. */
  lemma UniqueCandidatesSections(nc: Table, s: string)
    ensures forall name :: HasSection(UniqueCandidates(nc, s), name) <==> SectionMatches(nc, s, name)
  {
    var cs := Candidates(nc, s);
    HasSectionPermuted(cs, SortByStart(cs));
    forall name
      ensures HasSection(cs, name) <==> SectionMatches(nc, s, name)
    {
      if SectionMatches(nc, s, name) {
        var i, j :| 0 <= i < |nc| && 0 <= j < |nc[i].values| &&
                    nc[i].key == name && FirstHeaderMatch(s, nc[i].values[j]).Some?;
        var x := Candidate(name, FirstHeaderMatch(s, nc[i].values[j]).value);
        CandidateComplete(nc, s, i, j, x.start);
        var k :| 0 <= k < |cs| && cs[k] == x;
      }
      if HasSection(cs, name) {
        var k :| 0 <= k < |cs| && cs[k].section == name;
        CandidateSound(nc, s, cs[k]);
      }
    }
  }

  /** The result is empty exactly when no normalised title matches. */
  lemma LocateEmpty(nc: Table, s: string)
    ensures Locate(nc, s) == [] <==>
              forall i, j | 0 <= i < |nc| && 0 <= j < |nc[i].values| :: FirstHeaderMatch(s, nc[i].values[j]).None?
  {
    CandidatesEmpty(nc, s);
    var cs := Candidates(nc, s);
    if cs != [] {
      UniqueCandidatesSections(nc, s);
      assert cs[0] in cs;
      CandidateSound(nc, s, cs[0]);
      assert SectionMatches(nc, s, cs[0].section);
      assert HasSection(UniqueCandidates(nc, s), cs[0].section);
    }
  }

  /** Each section appears at most once, the starts never decrease, and the
      sections present are exactly those with a matching title. */
  lemma LocateSections(nc: Table, s: string)
    ensures var spans := Locate(nc, s);
            && (forall k, l | 0 <= k < l < |spans| :: spans[k].section != spans[l].section)
            && (forall k, l | 0 <= k < l < |spans| :: spans[k].start <= spans[l].start)
            && forall name :: (exists k | 0 <= k < |spans| :: spans[k].section == name) <==>
                                SectionMatches(nc, s, name)
  {
    var spans := Locate(nc, s);
    if Candidates(nc, s) == [] {
      CandidatesEmpty(nc, s);
    } else {
      var us := UniqueCandidates(nc, s);
      UniqueCandidatesSections(nc, s);
      RangesKeep(s, us);
      forall name
        ensures (exists k | 0 <= k < |spans| :: spans[k].section == name) <==> SectionMatches(nc, s, name)
      {
        if SectionMatches(nc, s, name) {
          assert HasSection(us, name);
          var k :| 0 <= k < |us| && us[k].section == name;
          assert spans[k].section == name;
        }
        if exists k | 0 <= k < |spans| :: spans[k].section == name {
          var k :| 0 <= k < |spans| && spans[k].section == name;
          assert HasSection(us, name);
        }
      }
    }
  }

  /** The ranges keep the sections and starts of the candidates they are made
      of, in order. */
  lemma RangesKeep(s: string, us: seq<Candidate>)
    requires SortedByStart(us) && StartsWithin(us, s)
    ensures |Ranges(s, us)| == |us|
    ensures forall k | 0 <= k < |us| ::
              Ranges(s, us)[k].section == us[k].section && Ranges(s, us)[k].start == us[k].start
  {
  }

  /** The span starts where a title of its section first matches, and no
      title of that section first matches earlier. */
  ghost predicate StartIsLeast(nc: Table, s: string, sp: Span) {
    && (exists i, j | 0 <= i < |nc| && 0 <= j < |nc[i].values| ::
          nc[i].key == sp.section && TitleMatches(nc, s, i, j, sp.start))
    && forall i, j, p | 0 <= i < |nc| && 0 <= j < |nc[i].values| &&
         nc[i].key == sp.section && TitleMatches(nc, s, i, j, p) :: sp.start <= p
  }

  /** A section's start is the least first-match position over its titles
      (a numbering prefix counts as part of the match). */
  lemma LocateStartIsLeast(nc: Table, s: string)
    ensures forall k | 0 <= k < |Locate(nc, s)| :: StartIsLeast(nc, s, Locate(nc, s)[k])
  {
    var cs := Candidates(nc, s);
    var sorted := SortByStart(cs);
    var us := UniqueCandidates(nc, s);
    DedupeKeepsLeast(sorted);
    forall k | 0 <= k < |Locate(nc, s)|
      ensures StartIsLeast(nc, s, Locate(nc, s)[k])
    {
      var sp := Locate(nc, s)[k];
      assert sp.section == us[k].section && sp.start == us[k].start;
      assert us[k] in sorted;
      CandidateSound(nc, s, us[k]);
      forall i, j, p | 0 <= i < |nc| && 0 <= j < |nc[i].values| &&
                       nc[i].key == sp.section && TitleMatches(nc, s, i, j, p)
        ensures sp.start <= p
      {
        var y := Candidate(sp.section, p);
        CandidateComplete(nc, s, i, j, p);
        assert y in sorted;
        var m :| 0 <= m < |sorted| && sorted[m] == y;
      }
    }
  }

  /** Among sections with the same start, the one that comes first in the
      table comes first, as the stable sort keeps the scan's table order. */
  lemma LocateTies(nc: Table, s: string)
    requires UniqueKeys(nc)
    ensures var spans := Locate(nc, s);
            forall k, l | 0 <= k < l < |spans| ::
              spans[k].start < spans[l].start ||
              (spans[k].start == spans[l].start &&
               KeyIndex(nc, spans[k].section) < KeyIndex(nc, spans[l].section))
  {
    if Candidates(nc, s) != [] {
      UniqueCandidatesTies(nc, s);
      RangesKeep(s, UniqueCandidates(nc, s));
    }
  }

  lemma UniqueCandidatesTies(nc: Table, s: string)
    requires UniqueKeys(nc)
    ensures forall k, l | 0 <= k < l < |UniqueCandidates(nc, s)| ::
              var us := UniqueCandidates(nc, s);
              us[k].start < us[l].start ||
              (us[k].start == us[l].start && KeyIndex(nc, us[k].section) < KeyIndex(nc, us[l].section))
  {
    var cs := Candidates(nc, s);
    var sorted := SortByStart(cs);
    var us := UniqueCandidates(nc, s);
    CandidatesInTableOrder(nc, |nc|, s);
    CandidatesKeyBound(nc, |nc|, s);
    SortByStartLex(nc, cs);
    DedupeLex(nc, sorted);
    assert forall x | x in us :: KeyIndex(nc, x.section) < |nc| by {
      forall x | x in us
        ensures KeyIndex(nc, x.section) < |nc|
      {
        assert x in sorted;
        assert x in cs;
      }
    }
    LexStrictOnDistinct(nc, us);
  }

  /** In a list ordered by start and then table position, with no section
      twice and every section in the table, ties are broken strictly. */
  lemma {:induction false} LexStrictOnDistinct(nc: Table, us: seq<Candidate>)
    requires LexSorted(nc, us) && UniqueSections(us)
    requires forall x | x in us :: KeyIndex(nc, x.section) < |nc|
    ensures forall k, l | 0 <= k < l < |us| ::
              us[k].start < us[l].start ||
              (us[k].start == us[l].start && KeyIndex(nc, us[k].section) < KeyIndex(nc, us[l].section))
  {
    forall k, l | 0 <= k < l < |us|
      ensures us[k].start < us[l].start ||
              (us[k].start == us[l].start && KeyIndex(nc, us[k].section) < KeyIndex(nc, us[l].section))
    {
      assert Precedes(nc, us[k], us[l]);
      assert us[k] in us && us[l] in us;
    }
  }

  /** The span covers `[start, end)` within the text, its text is that range
      stripped, and its length is the length of that text. */
  predicate SpanFits(s: string, sp: Span) {
    && sp.start <= sp.end <= |s|
    && sp.text == Strip(s[sp.start..sp.end])
    && sp.length == |sp.text| <= sp.end - sp.start
  }

  /** The spans tile `[first start, |s|)`: each ends where the next starts, the
      last ends at the end of the text, and each text is its range stripped. */
  lemma LocateTiles(nc: Table, s: string)
    ensures forall k | 0 <= k < |Locate(nc, s)| - 1 :: Locate(nc, s)[k].end == Locate(nc, s)[k + 1].start
    ensures Locate(nc, s) != [] ==> Locate(nc, s)[|Locate(nc, s)| - 1].end == |s|
    ensures forall k | 0 <= k < |Locate(nc, s)| :: SpanFits(s, Locate(nc, s)[k])
  {
    if Candidates(nc, s) != [] {
      RangesTile(s, UniqueCandidates(nc, s));
    }
  }

  lemma RangesTile(s: string, us: seq<Candidate>)
    requires SortedByStart(us) && StartsWithin(us, s)
    ensures forall k | 0 <= k < |Ranges(s, us)| - 1 :: Ranges(s, us)[k].end == Ranges(s, us)[k + 1].start
    ensures Ranges(s, us) != [] ==> Ranges(s, us)[|Ranges(s, us)| - 1].end == |s|
    ensures forall k | 0 <= k < |Ranges(s, us)| :: SpanFits(s, Ranges(s, us)[k])
  {
    forall k | 0 <= k < |us|
      ensures SpanFits(s, Ranges(s, us)[k])
    {
      assert Ranges(s, us)[k] == SpanAt(s, us, k);
      assert us[k] in us;
      if k < |us| - 1 {
        assert us[k + 1] in us;
      }
    }
  }
}
