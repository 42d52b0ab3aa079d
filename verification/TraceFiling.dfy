// Where the trace table puts a span, read off the characters of its parent ID, and what its durations and evictions
// come to in starts and lengths: internal/store/tracemap.go, Add, Evict and isRoot.
module TraceFiling {
  import opened Common
  import opened TraceModel
  import opened TraceEviction

  /** A parent ID with a character other than '0' files the span as the newest child of that parent and leaves the
      root alone; one without makes it the root and leaves the children alone. Nothing else changes. */
  lemma AddFiles(m: map<string, TraceV>, s: Span)
    ensures s.traceID == "" ==> AddV(m, s) == m
    ensures s.traceID != "" ==>
              var r, id := AddV(m, s), s.traceID;
              var root, children := if id in m then m[id].root else None, if id in m then m[id].children else map[];
              && r.Keys == m.Keys + {id} && (forall k :: k in m && k != id ==> r[k] == m[k])
              && r[id].traceID == (if id in m then m[id].traceID else id)
              && ((exists i :: 0 <= i < |s.parentID| && s.parentID[i] != '0') ==>
                    && r[id].root == root
                    && r[id].children == children[s.parentID := Kids(children, s.parentID) + [s]])
              && ((forall i :: 0 <= i < |s.parentID| ==> s.parentID[i] == '0') ==>
                    r[id].root == Some(s) && r[id].children == children)
  {
  }

  /** Only zeros, or nothing. */
  predicate Zeros(id: string) { forall i :: 0 <= i < |id| ==> id[i] == '0' }

  /** Span i is the last of its trace to arrive with such a parent ID. */
  ghost predicate IsLastZeros(spans: seq<Span>, id: string, i: nat) {
    && i < |spans| && spans[i].traceID == id && Zeros(spans[i].parentID)
    && forall j :: i < j < |spans| && spans[j].traceID == id ==> !Zeros(spans[j].parentID)
  }

  ghost predicate NoZeros(spans: seq<Span>, id: string) {
    forall s :: s in spans && s.traceID == id ==> !Zeros(s.parentID)
  }

  ghost predicate RootArrived(root: Option<Span>, spans: seq<Span>, id: string) {
    if root.None? then NoZeros(spans, id) else exists i: nat :: IsLastZeros(spans, id, i) && root == Some(spans[i])
  }

  lemma RootArrives(root: Option<Span>, spans: seq<Span>, id: string, s: Span)
    requires RootArrived(root, spans, id)
    ensures RootArrived(if s.traceID == id && Zeros(s.parentID) then Some(s) else root, spans + [s], id)
  {
    if s.traceID == id && Zeros(s.parentID) {
      assert IsLastZeros(spans + [s], id, |spans|);
    } else if root.Some? {
      var i: nat :| IsLastZeros(spans, id, i) && root == Some(spans[i]);
      assert IsLastZeros(spans + [s], id, i);
    }
  }

  lemma {:induction false} AssembledRoot(spans: seq<Span>, id: string)
    requires id != ""
    ensures RootArrived(if id in Assemble(spans) then Assemble(spans)[id].root else None, spans, id)
  {
    if spans != [] {
      var init, s := spans[..|spans| - 1], spans[|spans| - 1];
      hide RootArrived, Zeros, AddV;
      AssembledRoot(init, id);
      assert spans == init + [s];
      AddedRoot(Assemble(init), s);
      RootArrives(if id in Assemble(init) then Assemble(init)[id].root else None, init, id, s);
    }
  }

  lemma AddedRoot(m: map<string, TraceV>, s: Span)
    ensures s.traceID == "" ==> AddV(m, s) == m
    ensures forall k :: k != s.traceID ==> (k in AddV(m, s) <==> k in m) && (k in m ==> AddV(m, s)[k] == m[k])
    ensures s.traceID != "" ==>
              s.traceID in AddV(m, s) && AddV(m, s)[s.traceID].root ==
              if Zeros(s.parentID) then Some(s) else if s.traceID in m then m[s.traceID].root else None
  {
    AddFiles(m, s);
  }

  ghost predicate IsChildOf(spans: seq<Span>, id: string, p: string, s: Span) {
    s in spans && s.traceID == id && s.parentID == p && !Zeros(p)
  }

  lemma ChildArrived(spans: seq<Span>, id: string, p: string, s: Span)
    requires id != "" && id in Assemble(spans)
    ensures s in Kids(Assemble(spans)[id].children, p) <==> IsChildOf(spans, id, p, s)
  {
    AssembleClosedForm(spans, id);
    FilterMember(Arrived(spans, id), s, ChildOf(p));
    FilterMember(spans, s, OfTrace(id));
  }

  /** After any arrivals: a span is a child in its trace exactly when its parent ID has a character other than '0', and
      lies under that parent ID; the root is the last span to arrive whose parent ID has none. */
  lemma FiledByCharacters(spans: seq<Span>, id: string)
    requires id != "" && id in Assemble(spans)
    ensures var t := Assemble(spans)[id];
            && RootArrived(t.root, spans, id)
            && forall p, s :: s in Kids(t.children, p) <==> IsChildOf(spans, id, p, s)
  {
    var t := Assemble(spans)[id];
    forall p, s ensures s in Kids(t.children, p) <==> IsChildOf(spans, id, p, s) { ChildArrived(spans, id, p, s); }
    hide Kids, IsChildOf;
    AssembledRoot(spans, id);
  }

  // ---- durations and evictions in starts and lengths ---------------------------------------------------------

  ghost predicate ChildOfTrace(t: TraceV, s: Span) { exists p :: p in t.children && s in t.children[p] }

  /** Over any run of arrivals and evictions, in a trace with a root: no span of it ends later than the root's start
      plus the trace's Duration, and one ends then. */
  lemma DurationCovers(ops: seq<Op>, id: string)
    requires id in RunOps(ops) && RunOps(ops)[id].root.Some?
    ensures var t := RunOps(ops)[id];
            var root, end := t.root.value, t.root.value.start + t.duration;
            && root.start + root.duration <= end
            && (forall s :: ChildOfTrace(t, s) ==> s.start + s.duration <= end)
            && (root.start + root.duration == end || exists s :: ChildOfTrace(t, s) && s.start + s.duration == end)
  {
    NeverAnonymous(ops);
    HeldSinceEviction(ops, id);
    DescribedLatest(RunOps(ops)[id], id, Since(ops, id));
    DurationsStayExact(ops, id);
    LatestIsReached(RunOps(ops)[id]);
  }

  /** The latest end in starts and lengths; without a root the zero time counts. */
  lemma LatestIsReached(t: TraceV)
    ensures var base := if t.root.Some? then t.root.value.start + t.root.value.duration else 0;
            && base <= LatestEnd(t)
            && (forall s :: ChildOfTrace(t, s) ==> s.start + s.duration <= LatestEnd(t))
            && (base == LatestEnd(t) || exists s :: ChildOfTrace(t, s) && s.start + s.duration == LatestEnd(t))
  {
    var ends := {BaseEnd(t.root)} + ChildEnds(t.children);
    assert IsMax(MaxOf(ends), ends);
    forall s | ChildOfTrace(t, s) ensures s.start + s.duration in ends {
      var p :| p in t.children && s in t.children[p];
      var i :| 0 <= i < |t.children[p]| && t.children[p][i] == s;
      assert End(t.children[p][i]) in ChildEnds(t.children);
    }
    if MaxOf(ends) in ChildEnds(t.children) {
      var p, i :| p in t.children && 0 <= i < |t.children[p]| && End(t.children[p][i]) == MaxOf(ends);
      assert t.children[p][i] in t.children[p];
      assert ChildOfTrace(t, t.children[p][i]);
    }
  }

  /** An eviction keeps a trace, unchanged, exactly when its root or a child ends at or after the cutoff; a trace
      without a root also stays when the cutoff is not after the zero time. */
  lemma EvictedByEnds(m: map<string, TraceV>, cutoff: int, id: string)
    requires id in m
    ensures var t := m[id];
            id in EvictV(m, cutoff) <==>
              || (exists s :: ChildOfTrace(t, s) && s.start + s.duration >= cutoff)
              || (if t.root.Some? then t.root.value.start + t.root.value.duration >= cutoff else 0 >= cutoff)
    ensures id in EvictV(m, cutoff) ==> EvictV(m, cutoff)[id] == m[id]
  {
    LatestIsReached(m[id]);
  }
}
