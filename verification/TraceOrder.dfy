// Order independence and span conservation of assembled traces.
module TraceOrder {
  import opened Common
  import opened TraceModel

  ghost predicate SameTrace(t: TraceV, u: TraceV) {
    && t.traceID == u.traceID && t.root == u.root && t.duration == u.duration
    && t.children.Keys == u.children.Keys
    && forall p :: p in t.children ==> multiset(t.children[p]) == multiset(u.children[p])
  }

  /** Equal up to the order of siblings. */
  ghost predicate SameAssembly(m: map<string, TraceV>, n: map<string, TraceV>) {
    m.Keys == n.Keys && forall id :: id in m ==> SameTrace(m[id], n[id])
  }

  /** No trace has received two different root spans. */
  ghost predicate OneRootPerTrace(spans: seq<Span>) {
    forall i, j | 0 <= i < |spans| && 0 <= j < |spans|
                  && IsRoot(spans[i]) && IsRoot(spans[j]) && spans[i].traceID == spans[j].traceID != "" ::
      spans[i] == spans[j]
  }

  lemma {:induction false} NoAnonymousTrace(spans: seq<Span>)
    ensures "" !in Assemble(spans)
  {
    if spans != [] { NoAnonymousTrace(spans[..|spans| - 1]); }
  }

  lemma LastRootIsRoot(fs: seq<Span>)
    ensures var r := LastRoot(fs);
            if r.Some? then r.value in fs && IsRoot(r.value) else forall s :: s in fs ==> !IsRoot(s)
  {
    var roots := Filter(fs, RootSpan());
    forall s: Span ensures s in roots <==> s in fs && IsRoot(s) { FilterMember(fs, s, RootSpan()); }
  }

  lemma PermutationMembers<T>(a: seq<T>, b: seq<T>)
    requires multiset(a) == multiset(b)
    ensures forall x :: x in a <==> x in b
  {
    forall x ensures x in a <==> x in b {
      assert x in a <==> x in multiset(a);
      assert x in b <==> x in multiset(b);
    }
  }

  lemma EndSetsPermute(a: seq<Span>, b: seq<Span>)
    requires forall x :: x in a <==> x in b
    ensures NonRootEnds(a) <= NonRootEnds(b) && Durations(a) <= Durations(b)
  {
    forall e | e in NonRootEnds(a) ensures e in NonRootEnds(b) {
      var i :| 0 <= i < |a| && !IsRoot(a[i]) && End(a[i]) == e;
      assert a[i] in b;
    }
    forall d | d in Durations(a) ensures d in Durations(b) {
      var i :| 0 <= i < |a| && a[i].duration == d;
      assert a[i] in b;
    }
  }

  lemma SameRoot(a: seq<Span>, b: seq<Span>, id: string)
    requires multiset(a) == multiset(b) && OneRootPerTrace(a) && id != ""
    ensures LastRoot(Arrived(a, id)) == LastRoot(Arrived(b, id))
  {
    var fa, fb := Arrived(a, id), Arrived(b, id);
    FilterPermutation(a, b, OfTrace(id));
    PermutationMembers(fa, fb);
    LastRootIsRoot(fa);
    LastRootIsRoot(fb);
    var ra, rb := LastRoot(fa), LastRoot(fb);
    if ra.Some? && rb.Some? {
      FilterMember(a, ra.value, OfTrace(id));
      FilterMember(a, rb.value, OfTrace(id));
    }
  }

  /** With at most one root per trace, every arrival order assembles the same traces. */
  lemma OrderIndependent(a: seq<Span>, b: seq<Span>)
    requires multiset(a) == multiset(b) && OneRootPerTrace(a)
    ensures SameAssembly(Assemble(a), Assemble(b))
  {
    var m, n := Assemble(a), Assemble(b);
    NoAnonymousTrace(a);
    NoAnonymousTrace(b);
    forall id ensures (id in m <==> id in n) && (id in m ==> SameTrace(m[id], n[id])) {
      if id != "" {
        SameTraceFor(a, b, id);
      }
    }
  }

  lemma SameTraceFor(a: seq<Span>, b: seq<Span>, id: string)
    requires multiset(a) == multiset(b) && OneRootPerTrace(a) && id != ""
    ensures var m, n := Assemble(a), Assemble(b);
            (id in m <==> id in n) && (id in m ==> SameTrace(m[id], n[id]))
  {
    var m, n := Assemble(a), Assemble(b);
    var fa, fb := Arrived(a, id), Arrived(b, id);
    AssembleClosedForm(a, id);
    AssembleClosedForm(b, id);
    FilterPermutation(a, b, OfTrace(id));
    assert |multiset(fa)| == |multiset(fb)|;
    if id in m {
      SameRoot(a, b, id);
      PermutationMembers(fa, fb);
      EndSetsPermute(fa, fb);
      EndSetsPermute(fb, fa);
      forall p ensures multiset(Kids(m[id].children, p)) == multiset(Kids(n[id].children, p)) {
        FilterPermutation(fa, fb, ChildOf(p));
      }
      SameKeys(m[id].children, n[id].children);
    }
  }

  lemma SameKeys(c: map<string, seq<Span>>, d: map<string, seq<Span>>)
    requires forall p :: p in c ==> c[p] != []
    requires forall p :: p in d ==> d[p] != []
    requires forall p :: multiset(Kids(c, p)) == multiset(Kids(d, p))
    ensures c.Keys == d.Keys
    ensures forall p :: p in c ==> multiset(c[p]) == multiset(d[p])
  {
    forall p ensures p in c <==> p in d {
      assert multiset(Kids(c, p)) == multiset(Kids(d, p));
      assert |multiset(Kids(c, p))| == |Kids(c, p)| && |multiset(Kids(d, p))| == |Kids(d, p)|;
    }
    forall p | p in c ensures multiset(c[p]) == multiset(d[p]) {
      assert multiset(Kids(c, p)) == multiset(Kids(d, p));
    }
  }

  /** a with its i-th span delivered last. */
  function Delay(a: seq<Span>, i: nat): seq<Span>
    requires i < |a|
  {
    a[..i] + a[i + 1..] + [a[i]]
  }

  lemma DelayedRootWins(a: seq<Span>, i: nat)
    requires i < |a| && IsRoot(a[i]) && a[i].traceID != ""
    ensures multiset(Delay(a, i)) == multiset(a)
    ensures var m := Assemble(Delay(a, i)); a[i].traceID in m && m[a[i].traceID].root == Some(a[i])
  {
    assert a == a[..i] + ([a[i]] + a[i + 1..]);
    var init := a[..i] + a[i + 1..];
    assert Delay(a, i)[..|a| - 1] == init;
  }

  /** Exactly when arrival order cannot be observed: no trace received two different roots. */
  lemma OrderIndependentIff(a: seq<Span>)
    ensures OneRootPerTrace(a) <==>
            (forall b :: multiset(b) == multiset(a) ==> SameAssembly(Assemble(a), Assemble(b)))
  {
    if OneRootPerTrace(a) {
      forall b | multiset(b) == multiset(a) ensures SameAssembly(Assemble(a), Assemble(b)) {
        OrderIndependent(a, b);
      }
    } else {
      var i, j :| 0 <= i < |a| && 0 <= j < |a| && IsRoot(a[i]) && IsRoot(a[j])
                  && a[i].traceID == a[j].traceID != "" && a[i] != a[j];
      DelayedRootWins(a, i);
      DelayedRootWins(a, j);
      var m := Assemble(a);
      var same := m.Keys == Assemble(Delay(a, i)).Keys && m[a[i].traceID].root == Some(a[i]);
      var b := if same then Delay(a, j) else Delay(a, i);
      assert multiset(b) == multiset(a) && !SameAssembly(m, Assemble(b));
    }
  }

  // ---- conservation of spans ------------------------------------------------------------

  ghost function SumLens(c: map<string, seq<Span>>): nat {
    if c.Keys == {} then 0 else var k :| k in c; |c[k]| + SumLens(c - {k})
  }

  lemma MinusSmaller(c: map<string, seq<Span>>, k: string)
    requires k in c
    ensures |c - {k}| < |c|
  {
    assert (c - {k}).Keys == c.Keys - {k};
  }

  lemma {:induction false} SumLensRemove(c: map<string, seq<Span>>, k: string)
    requires k in c
    ensures SumLens(c) == |c[k]| + SumLens(c - {k})
    decreases |c|
  {
    var j :| j in c && SumLens(c) == |c[j]| + SumLens(c - {j});
    if j != k {
      MinusSmaller(c, j);
      MinusSmaller(c, k);
      SumLensRemove(c - {j}, k);
      SumLensRemove(c - {k}, j);
      assert c - {j} - {k} == c - {k} - {j};
    }
  }

  lemma SumLensAppend(c: map<string, seq<Span>>, p: string, s: Span)
    ensures SumLens(c[p := Kids(c, p) + [s]]) == SumLens(c) + 1
  {
    var d := c[p := Kids(c, p) + [s]];
    SumLensRemove(d, p);
    assert d - {p} == c - {p};
    if p in c { SumLensRemove(c, p); } else { assert c - {p} == c; }
  }

  /** What the traces panel reports for a trace (traceSpanCount). */
  ghost function SpanCount(t: TraceV): nat {
    (if t.root.Some? then 1 else 0) + SumLens(t.children)
  }

  method TraceSpanCount(t: TraceV) returns (n: nat)
    ensures n == SpanCount(t)
  {
    n := 0;
    if t.root.Some? { n := n + 1; }
    var rest := t.children.Keys;
    ghost var left := t.children;
    while rest != {}
      invariant rest == left.Keys && left.Keys <= t.children.Keys
      invariant forall p :: p in left ==> left[p] == t.children[p]
      invariant n + SumLens(left) == SpanCount(t)
      decreases |rest|
    {
      var p :| p in rest;
      SumLensRemove(left, p);
      n := n + |t.children[p]|;
      rest, left := rest - {p}, left - {p};
    }
  }

  function RootsOf(fs: seq<Span>): seq<Span> { Filter(fs, RootSpan()) }

  ghost predicate Counted(c: map<string, seq<Span>>, fs: seq<Span>) {
    SumLens(c) + |RootsOf(fs)| == |fs|
  }

  lemma {:induction false} CountAssembled(spans: seq<Span>, id: string)
    requires id != ""
    ensures Counted(TraceFor(Assemble(spans), id).children, Arrived(spans, id))
  {
    if spans != [] {
      var init, s := spans[..|spans| - 1], spans[|spans| - 1];
      CountAssembled(init, id);
      CountStep(TraceFor(Assemble(init), id), s, Arrived(init, id));
    }
  }

  lemma CountStep(t: TraceV, s: Span, fs: seq<Span>)
    ensures SumLens(AddTo(t, s).children) + |RootsOf(fs + [s])| == SumLens(t.children) + |RootsOf(fs)| + 1
  {
    FilterAppend(fs, s, RootSpan());
    SumLensAppend(t.children, s.parentID, s);
  }

  /** The panel's count is the number of spans ever added exactly when at most one of them was a root. */
  lemma SpanCountExact(spans: seq<Span>, id: string)
    requires id != "" && id in Assemble(spans)
    ensures SpanCount(Assemble(spans)[id]) == |Arrived(spans, id)| <==> |RootsOf(Arrived(spans, id))| <= 1
  {
    CountAssembled(spans, id);
    AssembleClosedForm(spans, id);
    assert TraceFor(Assemble(spans), id) == Assemble(spans)[id];
  }
}
