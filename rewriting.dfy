/** What `PDFProcessor.translate` computes: the threshold gate on Chinese
    header variants, the truncation of the index and tail material in the
    second half of the text, and the rewriting of every Chinese header into
    its English key. The method that runs these phases step by step is
    `PdfProcessor.Translate`; these functions are its specification. */
module Rewriting {
  import opened Text
  import opened Tables

  /** The number of distinct variants a document must contain before it is
      treated as Chinese-headed. */
  const Threshold: nat := 3

  /** The markers of the index of tables and the index of figures. */
  const IndexMarkers: seq<string> := ["表格索引", "插图索引"]

  /** The translation keys whose variants start a tail to cut, in the order
      they are tried. */
  const TailSections: seq<string> := ["acknowledgments", "appendices", "references"]

  predicate IsPrefix(r: string, c: string) {
    |r| <= |c| && r == c[..|r|]
  }

  // ---------------------------------------------------------------------------
  // The gate: how many variants are present
  // ---------------------------------------------------------------------------

  /** How many of `vs` occur in `c` (each at most once). */
  function CountPresent(vs: seq<string>, c: string): (n: nat)
    ensures n <= |vs|
  {
    if vs == [] then 0
    else CountPresent(vs[..|vs| - 1], c) + (if Contains(c, vs[|vs| - 1]) then 1 else 0)
  }

  /** `cnt` after the counting loop over the table entries `t`. */
  function CountTable(t: Table, c: string): nat {
    if t == [] then 0
    else CountTable(t[..|t| - 1], c) + CountPresent(t[|t| - 1].values, c)
  }

  /** The number of (section, variant) positions in the table. */
  function TotalVariants(t: Table): nat {
    if t == [] then 0 else TotalVariants(t[..|t| - 1]) + |t[|t| - 1].values|
  }

  /** The count is the number of variant positions whose string occurs in the
      text, not the number of occurrences. */
  lemma {:induction false} CountPresentIsDistinct(vs: seq<string>, c: string)
    ensures CountPresent(vs, c) == |set j | 0 <= j < |vs| && Contains(c, vs[j])|
  {
    if vs != [] {
      var n := |vs| - 1;
      CountPresentIsDistinct(vs[..n], c);
      var a := set j | 0 <= j < n && Contains(c, vs[..n][j]);
      var b := set j | 0 <= j < |vs| && Contains(c, vs[j]);
      assert a == set j | 0 <= j < n && Contains(c, vs[j]);
      if Contains(c, vs[n]) {
        assert b == a + {n};
      } else {
        assert b == a;
      }
    }
  }

  /** Every variant counts at most once. */
  lemma {:induction false} CountTableAtMostTotal(t: Table, c: string)
    ensures CountTable(t, c) <= TotalVariants(t)
  {
    if t != [] {
      CountTableAtMostTotal(t[..|t| - 1], c);
    }
  }

  /** The count depends only on which variants are present: two texts that
      contain the same variants, however often, have the same count. */
  lemma {:induction false} CountTableOnlyPresence(t: Table, c1: string, c2: string)
    requires forall i, j | 0 <= i < |t| && 0 <= j < |t[i].values| ::
               Contains(c1, t[i].values[j]) <==> Contains(c2, t[i].values[j])
    ensures CountTable(t, c1) == CountTable(t, c2)
  {
    if t != [] {
      var n := |t| - 1;
      CountTableOnlyPresence(t[..n], c1, c2);
      CountPresentOnlyPresence(t[n].values, c1, c2);
    }
  }

  lemma {:induction false} CountPresentOnlyPresence(vs: seq<string>, c1: string, c2: string)
    requires forall j | 0 <= j < |vs| :: Contains(c1, vs[j]) <==> Contains(c2, vs[j])
    ensures CountPresent(vs, c1) == CountPresent(vs, c2)
  {
    if vs != [] {
      CountPresentOnlyPresence(vs[..|vs| - 1], c1, c2);
    }
  }

  /** A text that contains none of the variants has count zero. */
  lemma {:induction false} CountTableNone(t: Table, c: string)
    requires forall i, j | 0 <= i < |t| && 0 <= j < |t[i].values| :: !Contains(c, t[i].values[j])
    ensures CountTable(t, c) == 0
  {
    if t != [] {
      var n := |t| - 1;
      CountTableNone(t[..n], c);
      CountPresentNone(t[n].values, c);
    }
  }

  lemma {:induction false} CountPresentNone(vs: seq<string>, c: string)
    requires forall j | 0 <= j < |vs| :: !Contains(c, vs[j])
    ensures CountPresent(vs, c) == 0
  {
    if vs != [] {
      CountPresentNone(vs[..|vs| - 1], c);
    }
  }

  // ---------------------------------------------------------------------------
  // Truncation
  // ---------------------------------------------------------------------------

  /** One cut: if `v` occurs at or after the midpoint `|c| / 2`, keep the text
      before its last such occurrence; otherwise keep everything. */
  function CutAtMarker(c: string, v: string): (r: string)
    ensures IsPrefix(r, c)
    ensures ContainsFrom(c, v, |c| / 2) ==>
              && |c| / 2 <= |r| && OccursAt(c, v, |r|)
              && forall i | |r| < i <= |c| - |v| :: !OccursAt(c, v, i)
    ensures !ContainsFrom(c, v, |c| / 2) ==> r == c
  {
    if ContainsFrom(c, v, |c| / 2) then c[..RIndex(c, v, |c| / 2)] else c
  }

  /** The cuts of the markers `ms`, one after the other, each judged on the
      text the previous ones left. */
  function CutEach(ms: seq<string>, c: string): (r: string)
    ensures IsPrefix(r, c)
  {
    if ms == [] then c
    else CutAtMarker(CutEach(ms[..|ms| - 1], c), ms[|ms| - 1])
  }

  /** The cut of the first of `vs[j..]`, in list order, that occurs in the
      second half of `c`; there is at most one cut. */
  function CutFirstFrom(vs: seq<string>, c: string, j: nat): (r: string)
    ensures IsPrefix(r, c)
    ensures (exists k | j <= k < |vs| :: ContainsFrom(c, vs[k], |c| / 2)) ==>
            exists k | j <= k < |vs| ::
              && ContainsFrom(c, vs[k], |c| / 2)
              && (forall l | j <= l < k :: !ContainsFrom(c, vs[l], |c| / 2))
              && r == CutAtMarker(c, vs[k])
    ensures (forall l | j <= l < |vs| :: !ContainsFrom(c, vs[l], |c| / 2)) ==> r == c
    decreases |vs| - j
  {
    if j >= |vs| then c
    else if ContainsFrom(c, vs[j], |c| / 2) then CutAtMarker(c, vs[j])
    else CutFirstFrom(vs, c, j + 1)
  }

  /** The tail cuts for the translation keys `secs`, one key after the other. */
  function CutTails(t: Table, secs: seq<string>, c: string): (r: string)
    ensures IsPrefix(r, c)
  {
    if secs == [] then c
    else CutFirstFrom(Lookup(t, secs[|secs| - 1]), CutTails(t, secs[..|secs| - 1], c), 0)
  }

  /** One more tail section `sec`, judged on the text `d` the earlier ones
      left: the first of its variants, in list order, that occurs in the
      second half of `d` cuts `d` at its last occurrence there; with no such
      variant `d` is kept. */
  lemma CutTailsStep(t: Table, secs: seq<string>, sec: string, c: string)
    ensures var d := CutTails(t, secs, c);
            var vs := Lookup(t, sec);
            (exists k | 0 <= k < |vs| :: ContainsFrom(d, vs[k], |d| / 2)) ==>
              exists k | 0 <= k < |vs| ::
                && ContainsFrom(d, vs[k], |d| / 2)
                && (forall l | 0 <= l < k :: !ContainsFrom(d, vs[l], |d| / 2))
                && CutTails(t, secs + [sec], c) == CutAtMarker(d, vs[k])
    ensures var d := CutTails(t, secs, c);
            var vs := Lookup(t, sec);
            (forall l | 0 <= l < |vs| :: !ContainsFrom(d, vs[l], |d| / 2)) ==>
              CutTails(t, secs + [sec], c) == d
  {
    var d := CutTails(t, secs, c);
    assert (secs + [sec])[..|secs|] == secs;
    assert CutTails(t, secs + [sec], c) == CutFirstFrom(Lookup(t, sec), d, 0);
  }

  /** The whole truncation phase: the two index markers, then the three tail
      sections. */
  function Truncate(t: Table, c: string): string {
    CutTails(t, TailSections, CutEach(IndexMarkers, c))
  }

  /** Truncation only ever keeps a prefix of the text. */
  lemma TruncateIsPrefix(t: Table, c: string)
    ensures IsPrefix(Truncate(t, c), c)
  {
    var m := CutEach(IndexMarkers, c);
    var r := CutTails(t, TailSections, m);
    assert r == m[..|r|];
    assert m == c[..|m|];
  }

  // ---------------------------------------------------------------------------
  // Rewriting the headers
  // ---------------------------------------------------------------------------

  /** The text a Chinese header of the section `key` is replaced by. */
  function Marker(key: string): (r: string)
    ensures |r| == |key| + 2 && r[0] == '\n' && r[|r| - 1] == '\n' && r[1..|r| - 1] == key
  {
    "\n" + key + "\n"
  }

  /** Every variant of `vs`, one after the other, replaced by the marker of
      `key` wherever it stands between word boundaries, in any case. */
  function RewriteVariants(key: string, vs: seq<string>, c: string): string {
    if vs == [] then c
    else SubWord(RewriteVariants(key, vs[..|vs| - 1], c), vs[|vs| - 1], Marker(key))
  }

  /** The rewriting of every entry of the table, in table order. */
  function RewriteAll(t: Table, c: string): string {
    if t == [] then c
    else RewriteVariants(t[|t| - 1].key, t[|t| - 1].values, RewriteAll(t[..|t| - 1], c))
  }

  /** No variant of the table occurs in `c`, in any case. */
  predicate NoVariant(t: Table, c: string) {
    forall i, j | 0 <= i < |t| && 0 <= j < |t[i].values| :: !ContainsIgnoreCase(c, t[i].values[j])
  }

  /** A text in which no variant occurs is left as it is by the rewriting. */
  lemma {:induction false} RewriteAllUntouched(t: Table, c: string)
    requires NoVariant(t, c)
    ensures RewriteAll(t, c) == c
  {
    if t != [] {
      var n := |t| - 1;
      assert NoVariant(t[..n], c) by {
        forall i, j | 0 <= i < n && 0 <= j < |t[..n][i].values|
          ensures !ContainsIgnoreCase(c, t[..n][i].values[j])
        {
          assert t[..n][i] == t[i];
        }
      }
      RewriteAllUntouched(t[..n], c);
      RewriteVariantsUntouched(t[n].key, t[n].values, c);
    }
  }

  lemma {:induction false} RewriteVariantsUntouched(key: string, vs: seq<string>, c: string)
    requires forall j | 0 <= j < |vs| :: !ContainsIgnoreCase(c, vs[j])
    ensures RewriteVariants(key, vs, c) == c
  {
    if vs != [] {
      var n := |vs| - 1;
      RewriteVariantsUntouched(key, vs[..n], c);
      SubWordAbsent(c, vs[n], Marker(key));
    }
  }

  /** One more variant `v` of an entry is rewritten, in the text `d` the
      earlier variants left, at its first whole-word match: the text before
      it is kept and the marker of the entry's key takes its place. */
  lemma RewriteFirstVariant(key: string, vs: seq<string>, v: string, c: string, m: nat)
    requires |v| > 0 && m <= |RewriteVariants(key, vs, c)|
    requires WordMatchAt(RewriteVariants(key, vs, c), v, m)
    requires forall k | 0 <= k < m :: !WordMatchAt(RewriteVariants(key, vs, c), v, k)
    ensures var d := RewriteVariants(key, vs, c);
            RewriteVariants(key, vs + [v], c) == d[..m] + Marker(key) + SubWordFrom(d, v, Marker(key), m + |v|)
  {
    assert (vs + [v])[..|vs|] == vs;
    SubWordFromFirstMatch(RewriteVariants(key, vs, c), v, Marker(key), 0, m);
  }

  // ---------------------------------------------------------------------------
  // translate
  // ---------------------------------------------------------------------------

  /** `translate(content)`. */
  function TranslateSpec(t: Table, c: string): string {
    if CountTable(t, c) < Threshold then c
    else RewriteAll(t, Truncate(t, c))
  }

  /** Below the threshold the text is returned as it is; at or above it, the
      result is the rewriting of a prefix of the text. */
  lemma TranslateGate(t: Table, c: string)
    ensures CountTable(t, c) < Threshold ==> TranslateSpec(t, c) == c
    ensures CountTable(t, c) >= Threshold ==>
              exists p | IsPrefix(p, c) :: TranslateSpec(t, c) == RewriteAll(t, p)
  {
    TruncateIsPrefix(t, c);
  }

  /** A text that contains no variant at all, in any case, is returned as it
      is. */
  lemma TranslateEnglishText(t: Table, c: string)
    requires NoVariant(t, c)
    ensures TranslateSpec(t, c) == c
  {
    forall i, j | 0 <= i < |t| && 0 <= j < |t[i].values|
      ensures !Contains(c, t[i].values[j])
    {
      ContainsIgnoringCase(c, t[i].values[j]);
    }
    CountTableNone(t, c);
  }
}
