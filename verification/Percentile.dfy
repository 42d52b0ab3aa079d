// Nearest-rank percentiles (internal/store/percentile.go), over exact reals.
module Percentiles {
  import opened Common

  ghost predicate Sorted(s: seq<real>) {
    forall i, j :: 0 <= i <= j < |s| ==> s[i] <= s[j]
  }

  function Insert(s: seq<real>, x: real): (r: seq<real>) {
    if s == [] || x <= s[0] then [x] + s else [s[0]] + Insert(s[1..], x)
  }

  lemma {:induction false} InsertSorts(s: seq<real>, x: real)
    requires Sorted(s)
    ensures Sorted(Insert(s, x)) && |Insert(s, x)| == |s| + 1
    ensures Insert(s, x)[0] == x || (s != [] && Insert(s, x)[0] == s[0])
  {
    if s != [] && x > s[0] {
      InsertSorts(s[1..], x);
      var t := Insert(s[1..], x);
      assert t[0] >= s[0];
    }
  }

  lemma {:induction false} InsertKeeps(s: seq<real>, x: real)
    ensures multiset(Insert(s, x)) == multiset(s) + multiset{x}
  {
    if s != [] && x > s[0] {
      InsertKeeps(s[1..], x);
      assert s == [s[0]] + s[1..];
    }
  }

  /** The ascending rearrangement of s, standing for sort.Float64s. */
  function SortSeq(s: seq<real>): (r: seq<real>)
    ensures Sorted(r) && multiset(r) == multiset(s) && |r| == |s|
  {
    if s == [] then []
    else
      var t := SortSeq(s[..|s| - 1]);
      InsertLast(s, t);
      Insert(t, s[|s| - 1])
  }

  lemma InsertLast(s: seq<real>, t: seq<real>)
    requires s != [] && Sorted(t) && multiset(t) == multiset(s[..|s| - 1])
    ensures Sorted(Insert(t, s[|s| - 1])) && multiset(Insert(t, s[|s| - 1])) == multiset(s)
    ensures |Insert(t, s[|s| - 1])| == |s|
  {
    InsertSorts(t, s[|s| - 1]);
    InsertKeeps(t, s[|s| - 1]);
    assert s == s[..|s| - 1] + [s[|s| - 1]];
    assert |multiset(Insert(t, s[|s| - 1]))| == |multiset(s)|;
  }

  lemma {:induction false} SortedUnique(a: seq<real>, b: seq<real>)
    requires Sorted(a) && Sorted(b) && multiset(a) == multiset(b)
    ensures a == b
  {
    assert |multiset(a)| == |a| && |multiset(b)| == |b|;
    if a != [] {
      SortedHead(a, b);
      SortedHead(b, a);
      TailMultiset(a);
      TailMultiset(b);
      SortedUnique(a[1..], b[1..]);
      assert a == [a[0]] + a[1..] && b == [b[0]] + b[1..];
    }
  }

  lemma TailMultiset(a: seq<real>)
    requires a != []
    ensures multiset(a[1..]) == multiset(a) - multiset{a[0]}
  {
    assert a == [a[0]] + a[1..];
  }

  lemma SortedHead(a: seq<real>, b: seq<real>)
    requires Sorted(a) && multiset(a) == multiset(b) && a != [] && b != []
    ensures a[0] <= b[0]
  {
    assert b[0] in multiset(b);
    assert b[0] in a;
  }

  /** Least integer not below x, as math.Ceil. */
  function Ceil(x: real): int { -((-x).Floor) }

  /** It is the least one. */
  lemma CeilIsLeast(x: real, k: int)
    ensures x <= k as real <==> Ceil(x) <= k
  {
  }

  /** The index Percentile reads for 0 < p < 100, before clamping. */
  function Rank(p: real, n: nat): int { Ceil(p / 100.0 * n as real) - 1 }

  /** What Percentile returns, as a function of the samples. */
  function PercentileOf(values: seq<real>, p: real): real {
    if values == [] then 0.0
    else
      var cp := SortSeq(values);
      if p <= 0.0 then cp[0]
      else if p >= 100.0 then cp[|cp| - 1]
      else
        var idx := Rank(p, |cp|);
        var low := if idx < 0 then 0 else idx;
        cp[if low >= |cp| then |cp| - 1 else low]
  }

  method SortFloats(a: array<real>)
    modifies a
    ensures a[..] == SortSeq(old(a[..]))
  {
    var s := SortSeq(a[..]);
    forall i | 0 <= i < a.Length { a[i] := s[i]; }
  }

  method CopyOf(values: seq<real>) returns (cp: array<real>)
    ensures fresh(cp) && cp[..] == values
  {
    cp := new real[|values|];
    forall i | 0 <= i < cp.Length { cp[i] := values[i]; }
  }

  method Percentile(values: seq<real>, p: real) returns (r: real)
    ensures r == PercentileOf(values, p)
  {
    if |values| == 0 { return 0.0; }
    var cp := CopyOf(values);
    SortFloats(cp);
    ghost var sorted := SortSeq(values);
    assert cp[..] == sorted && cp.Length == |values|;
    if p <= 0.0 { return cp[0]; }
    if p >= 100.0 { return cp[cp.Length - 1]; }
    var idx := Rank(p, cp.Length);
    if idx < 0 { idx := 0; }
    if idx >= cp.Length { idx := cp.Length - 1; }
    return cp[idx];
  }

  function CountAtMost(s: seq<real>, v: real): nat { |Filter(s, (x: real) => x <= v)| }

  function CountBelow(s: seq<real>, v: real): nat { |Filter(s, x => x < v)| }

  /** In exact arithmetic neither clamp is ever taken. */
  lemma RankInRange(p: real, n: nat)
    requires 0.0 < p < 100.0 && 0 < n
    ensures 0 <= Rank(p, n) < n
  {
    var x := p / 100.0 * n as real;
    assert 0.0 < p / 100.0 < 1.0;
    MulBounds(p / 100.0, n as real);
    assert 0.0 < x < n as real;
  }

  lemma MulBounds(a: real, b: real)
    requires 0.0 < a < 1.0 && 0.0 < b
    ensures 0.0 < a * b < b
  {
  }

  lemma MulMonotone(a: real, b: real, c: real)
    requires a <= b && 0.0 <= c
    ensures a * c <= b * c
  {
  }

  lemma {:induction false} SortedCounts(s: seq<real>, i: nat)
    requires Sorted(s) && i < |s|
    ensures i < CountAtMost(s, s[i])
    ensures CountBelow(s, s[i]) <= i
  {
    var v := s[i];
    var atMost, below := x => x <= v, x => x < v;
    assert s == s[..i + 1] + s[i + 1..] && s == s[..i] + s[i..];
    FilterConcat(s[..i + 1], s[i + 1..], atMost);
    AllPass(s[..i + 1], atMost);
    FilterConcat(s[..i], s[i..], below);
    NonePass(s[i..], below);
  }

  lemma CountsPermute(s: seq<real>, t: seq<real>, v: real)
    requires multiset(s) == multiset(t)
    ensures CountAtMost(s, v) == CountAtMost(t, v)
    ensures CountBelow(s, v) == CountBelow(t, v)
  {
    FilterPermutation(s, t, x => x <= v);
    FilterPermutation(s, t, x => x < v);
    assert |multiset(Filter(s, x => x <= v))| == |multiset(Filter(t, x => x <= v))|;
    assert |multiset(Filter(s, x => x < v))| == |multiset(Filter(t, x => x < v))|;
  }

  /** Nearest rank: with k = ceil(p/100 * n), the result is a sample v such that at least k samples
      are <= v and fewer than k samples are < v. */
  lemma NearestRank(values: seq<real>, p: real)
    requires values != [] && 0.0 < p < 100.0
    ensures var k := Ceil(p / 100.0 * |values| as real);
            var v := PercentileOf(values, p);
            && v in values
            && 1 <= k <= |values|
            && CountAtMost(values, v) >= k > CountBelow(values, v)
  {
    var cp := SortSeq(values);
    RankInRange(p, |values|);
    var i := Rank(p, |values|);
    SortedCounts(cp, i);
    CountsPermute(cp, values, cp[i]);
    assert cp[i] in multiset(values);
  }

  /** The same without a rank: at least p hundredths of the samples are at or below the result, and fewer are below. */
  lemma NearestShare(values: seq<real>, p: real)
    requires values != [] && 0.0 < p < 100.0
    ensures var v := PercentileOf(values, p);
            && v in values
            && CountAtMost(values, v) as real >= p / 100.0 * |values| as real > CountBelow(values, v) as real
  {
    var v, x := PercentileOf(values, p), p / 100.0 * |values| as real;
    NearestRank(values, p);
    CeilIsLeast(x, CountAtMost(values, v));
    CeilIsLeast(x, CountBelow(values, v));
  }

  /** From 100 on the largest sample, up to 0 the smallest, and zero for no samples. */
  lemma PercentileEnds(values: seq<real>, p: real)
    ensures values == [] ==> PercentileOf(values, p) == 0.0
    ensures values != [] && p >= 100.0 ==>
              PercentileOf(values, p) in values && forall v :: v in values ==> v <= PercentileOf(values, p)
    ensures values != [] && p <= 0.0 ==>
              PercentileOf(values, p) in values && forall v :: v in values ==> v >= PercentileOf(values, p)
  {
    if values != [] {
      var cp := SortSeq(values);
      assert cp[0] in multiset(values) && cp[|cp| - 1] in multiset(values);
      forall v | v in values ensures cp[0] <= v <= cp[|cp| - 1] {
        assert v in multiset(cp);
        var i :| 0 <= i < |cp| && cp[i] == v;
      }
    }
  }

  /** The rank conditions pin the result down: only one sample value satisfies them. */
  lemma {:induction false} NearestRankUnique(values: seq<real>, k: int, v: real, w: real)
    requires v in values && w in values
    requires CountAtMost(values, v) >= k > CountBelow(values, v)
    requires CountAtMost(values, w) >= k > CountBelow(values, w)
    ensures v == w
  {
    if v < w { CountsNested(values, v, w); }
    if w < v { CountsNested(values, w, v); }
  }

  lemma {:induction false} CountsNested(s: seq<real>, v: real, w: real)
    requires v < w
    ensures CountAtMost(s, v) <= CountBelow(s, w)
  {
    if s != [] {
      CountsNested(s[..|s| - 1], v, w);
    }
  }

  /** The order in which samples arrived does not matter. */
  lemma PercentilePermutation(a: seq<real>, b: seq<real>, p: real)
    requires multiset(a) == multiset(b)
    ensures PercentileOf(a, p) == PercentileOf(b, p)
  {
    SortedUnique(SortSeq(a), SortSeq(b));
    assert |multiset(a)| == |multiset(b)|;
  }

  /** A higher percentile is never a smaller value, for any p and q (clamped ones included). */
  lemma PercentileMonotone(values: seq<real>, p: real, q: real)
    requires p <= q
    ensures PercentileOf(values, p) <= PercentileOf(values, q)
  {
    if values != [] {
      var n := |values|;
      if 0.0 < p < 100.0 { RankInRange(p, n); }
      if 0.0 < q < 100.0 { RankInRange(q, n); }
      if 0.0 < p && q < 100.0 { RankMonotone(p, q, n); }
      var cp := SortSeq(values);
      assert forall i :: 0 <= i < n ==> cp[0] <= cp[i] <= cp[n - 1];
    }
  }

  lemma RankMonotone(p: real, q: real, n: nat)
    requires p <= q
    ensures Rank(p, n) <= Rank(q, n)
  {
    MulMonotone(p / 100.0, q / 100.0, n as real);
  }
}
