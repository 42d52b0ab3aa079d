// Runs that mix arriving spans and evictions: internal/store/tracemap.go, Add and Evict.
module TraceEviction {
  import opened TraceModel

  datatype Op = AddSpan(span: Span) | EvictBefore(cutoff: int)

  ghost function RunOps(ops: seq<Op>): map<string, TraceV> {
    if ops == [] then map[]
    else
      var m := RunOps(ops[..|ops| - 1]);
      match ops[|ops| - 1]
      case AddSpan(s) => AddV(m, s)
      case EvictBefore(cutoff) => EvictV(m, cutoff)
  }

  /** The latest end among the spans a trace keeps of these arrivals: its last root and every other span that is
      no root; without a root the zero time counts too. */
  ghost function LatestOf(fs: seq<Span>): int {
    MaxOf({BaseEnd(LastRoot(fs))} + NonRootEnds(fs))
  }

  /** The spans that arrived for a trace since it was last evicted. */
  ghost function Since(ops: seq<Op>, id: string): seq<Span> {
    if ops == [] then []
    else
      var fs := Since(ops[..|ops| - 1], id);
      match ops[|ops| - 1]
      case AddSpan(s) => if s.traceID == id then fs + [s] else fs
      case EvictBefore(cutoff) => if LatestOf(fs) < cutoff then [] else fs
  }

  lemma DescribedLatest(t: TraceV, id: string, fs: seq<Span>)
    requires Describes(t, id, fs)
    ensures LatestEnd(t) == LatestOf(fs)
  {
    ChildEndsMatch(t.children, fs);
  }

  /** Over any run of arrivals and evictions: a trace is held exactly when a span arrived for it since its last
      eviction, and it is what those spans describe, its incremental Duration included. */
  lemma {:induction false} HeldSinceEviction(ops: seq<Op>, id: string)
    requires id != ""
    ensures id in RunOps(ops) <==> Since(ops, id) != []
    ensures id in RunOps(ops) ==> Describes(RunOps(ops)[id], id, Since(ops, id))
  {
    if ops != [] {
      var init := ops[..|ops| - 1];
      HeldSinceEviction(init, id);
      hide Describes, LatestOf, LatestEnd, AddTo;
      match ops[|ops| - 1] {
        case AddSpan(s) =>
          if s.traceID == id { AddDescribes(TraceFor(RunOps(init), id), s, Since(init, id)); }
        case EvictBefore(cutoff) =>
          if id in RunOps(init) { DescribedLatest(RunOps(init)[id], id, Since(init, id)); }
      }
    }
  }

  lemma {:induction false} NeverAnonymous(ops: seq<Op>)
    ensures "" !in RunOps(ops)
  {
    if ops != [] { NeverAnonymous(ops[..|ops| - 1]); }
  }

  /** A trace outlives an eviction, unchanged, exactly when a span it keeps ends at or after the cutoff. */
  lemma EvictsExactly(ops: seq<Op>, cutoff: int, id: string)
    requires id in RunOps(ops)
    ensures var m, fs := RunOps(ops + [EvictBefore(cutoff)]), Since(ops, id);
            && (id in m <==>
                  || (exists s :: s in fs && !IsRoot(s) && End(s) >= cutoff)
                  || (if LastRoot(fs).Some? then End(LastRoot(fs).value) >= cutoff else 0 >= cutoff))
            && (id in m ==> m[id] == RunOps(ops)[id])
  {
    NeverAnonymous(ops);
    HeldSinceEviction(ops, id);
    var t, fs := RunOps(ops)[id], Since(ops, id);
    DescribedLatest(t, id, fs);
    assert (ops + [EvictBefore(cutoff)])[..|ops|] == ops;
    LatestReaches(fs, cutoff);
  }

  lemma LatestReaches(fs: seq<Span>, cutoff: int)
    ensures LatestOf(fs) >= cutoff <==>
              || (exists s :: s in fs && !IsRoot(s) && End(s) >= cutoff)
              || BaseEnd(LastRoot(fs)) >= cutoff
  {
    var ends := {BaseEnd(LastRoot(fs))} + NonRootEnds(fs);
    assert IsMax(MaxOf(ends), ends);
    if s :| s in fs && !IsRoot(s) && End(s) >= cutoff {
      var i :| 0 <= i < |fs| && fs[i] == s;
      assert End(fs[i]) in ends;
    }
    if MaxOf(ends) in NonRootEnds(fs) {
      var i :| 0 <= i < |fs| && !IsRoot(fs[i]) && End(fs[i]) == MaxOf(ends);
      assert fs[i] in fs;
    }
  }

  /** The Durations the run leaves: with a root, latest end minus root start; without, the longest span. */
  lemma DurationsStayExact(ops: seq<Op>, id: string)
    requires id in RunOps(ops)
    ensures var t, fs := RunOps(ops)[id], Since(ops, id);
            if t.root.Some? then t.duration == LatestOf(fs) - t.root.value.start
            else t.duration >= 0 && (forall s :: s in fs ==> s.duration <= t.duration)
                 && (t.duration == 0 || exists s :: s in fs && s.duration == t.duration)
  {
    NeverAnonymous(ops);
    HeldSinceEviction(ops, id);
    var fs := Since(ops, id);
    var lengths := {0} + Durations(fs);
    assert IsMax(MaxOf(lengths), lengths);
    forall s | s in fs ensures s.duration in lengths {
      var i :| 0 <= i < |fs| && fs[i] == s;
    }
    if MaxOf(lengths) in Durations(fs) {
      var i :| 0 <= i < |fs| && fs[i].duration == MaxOf(lengths);
      assert fs[i] in fs;
    }
  }
}
