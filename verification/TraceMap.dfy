// The mutable trace table (internal/store/tracemap.go), updated in place.
module TraceMaps {
  import opened Common
  import opened TraceModel

  class Trace {
    const traceID: string
    var root: Option<Span>
    var children: map<string, seq<Span>>
    var duration: int

    ghost function View(): TraceV
      reads this
    {
      TraceV(traceID, root, children, duration)
    }

    constructor (traceID: string)
      ensures View() == TraceV(traceID, None, map[], 0)
    {
      this.traceID := traceID;
      root, children, duration := None, map[], 0;
    }

    /** Files the span and refreshes the running duration. */
    method Update(s: Span)
      modifies this
      ensures View() == AddTo(old(View()), s)
    {
      var isRoot := IsRootSpan(s);
      if isRoot {
        root := Some(s);
      } else {
        children := children[s.parentID := Kids(children, s.parentID) + [s]];
      }
      assert View() == Attach(old(View()), s);
      var end := s.start + s.duration;
      if root.Some? {
        var traceEnd := TraceLatestEnd(this);
        duration := traceEnd - root.value.start;
      } else if duration < end - s.start {
        duration := end - s.start;
      }
    }
  }

  method IsRootSpan(s: Span) returns (r: bool)
    ensures r == IsRoot(s)
    ensures r <==> forall i :: 0 <= i < |s.parentID| ==> s.parentID[i] == '0'
  {
    for i := 0 to |s.parentID|
      invariant forall j :: 0 <= j < i ==> s.parentID[j] == '0'
    {
      if s.parentID[i] != '0' { return false; }
    }
    return true;
  }

  /** Running maximum over the root and all children, in whatever order the map yields them. */
  method TraceLatestEnd(t: Trace) returns (latest: int)
    ensures latest == LatestEnd(t.View())
  {
    latest := if t.root.Some? then End(t.root.value) else 0;
    var rest := t.children.Keys;
    ghost var done: set<string> := {};
    ghost var seen := {latest};
    assert seen == {BaseEnd(t.root)} + EndsUnder(t.children, done);
    while rest != {}
      invariant done + rest == t.children.Keys
      invariant IsMax(latest, seen) && seen == {BaseEnd(t.root)} + EndsUnder(t.children, done)
      decreases |rest|
    {
      var p :| p in rest;
      EndsUnderAdd(t.children, done, p);
      latest, seen := MaxEnd(t.children[p], latest, seen);
      done, rest := done + {p}, rest - {p};
    }
    assert done == t.children.Keys;
    LatestIsMax(t.View(), latest, seen);
  }

  ghost function EndsUnder(c: map<string, seq<Span>>, ps: set<string>): set<int> {
    set p, i | p in c && p in ps && 0 <= i < |c[p]| :: End(c[p][i])
  }

  lemma LatestIsMax(t: TraceV, latest: int, seen: set<int>)
    requires IsMax(latest, seen) && seen == {BaseEnd(t.root)} + EndsUnder(t.children, t.children.Keys)
    ensures latest == LatestEnd(t)
  {
    assert EndsUnder(t.children, t.children.Keys) == ChildEnds(t.children);
    assert IsMax(LatestEnd(t), seen);
  }

  ghost function EndsOf(kids: seq<Span>): set<int> {
    set i | 0 <= i < |kids| :: End(kids[i])
  }

  lemma EndsUnderAdd(c: map<string, seq<Span>>, ps: set<string>, p: string)
    requires p in c
    ensures EndsUnder(c, ps + {p}) == EndsUnder(c, ps) + EndsOf(c[p])
  {
    var kids := c[p];
    forall e | e in EndsOf(kids) ensures e in EndsUnder(c, ps + {p}) {
      var i :| 0 <= i < |kids| && End(kids[i]) == e;
      assert End(c[p][i]) == e;
    }
    forall e | e in EndsUnder(c, ps) ensures e in EndsUnder(c, ps + {p}) {
      var q, i :| q in c && q in ps && 0 <= i < |c[q]| && End(c[q][i]) == e;
    }
  }

  method MaxEnd(kids: seq<Span>, start: int, ghost seen: set<int>) returns (latest: int, ghost all: set<int>)
    requires IsMax(start, seen)
    ensures IsMax(latest, all) && all == seen + EndsOf(kids)
  {
    latest, all := start, seen;
    for i := 0 to |kids|
      invariant IsMax(latest, all) && all == seen + EndsOf(kids[..i])
    {
      var end := End(kids[i]);
      EndsOfNext(kids, i);
      if end > latest { latest := end; }
      all := all + {end};
    }
    assert kids[..|kids|] == kids;
  }

  lemma EndsOfNext(kids: seq<Span>, i: nat)
    requires i < |kids|
    ensures EndsOf(kids[..i + 1]) == EndsOf(kids[..i]) + {End(kids[i])}
  {
    var a, b := kids[..i + 1], kids[..i];
    assert forall j :: 0 <= j < i ==> a[j] == b[j];
    assert a[i] == kids[i];
  }

  lemma AddVAfterLookup(m: map<string, TraceV>, before: map<string, TraceV>, s: Span)
    requires s.traceID != "" && before == m[s.traceID := TraceFor(m, s.traceID)]
    ensures AddV(m, s) == before[s.traceID := AddTo(before[s.traceID], s)]
  {
  }

  lemma ReplaceOne(m: map<string, TraceV>, n: map<string, TraceV>, id: string, t: TraceV)
    requires m.Keys == n.Keys && id in m && n[id] == t
    requires forall k :: k in m && k != id ==> n[k] == m[k]
    ensures n == m[id := t]
  {
  }

  /** What is left of m once the stale ones among those done are gone. */
  ghost predicate Swept<T>(m: map<string, T>, stale: set<string>, done: set<string>, left: map<string, T>) {
    left == m - stale * done
  }

  lemma DoneOne<T>(
    m: map<string, T>, stale: set<string>, done: set<string>, id: string, left: map<string, T>, left': map<string, T>)
    requires Swept(m, stale, done, left) && left' == if id in stale then left - {id} else left
    ensures Swept(m, stale, done + {id}, left') && m.Keys - done - {id} == m.Keys - (done + {id})
  {
    if id !in stale { assert stale * (done + {id}) == stale * done; }
  }

  lemma AllDone<T>(m: map<string, T>, stale: set<string>, done: set<string>)
    requires m.Keys <= done
    ensures m - stale * done == m - stale
  {
  }

  lemma KeepFresh(m: map<string, TraceV>, n: map<string, TraceV>, cutoff: int)
    requires forall id :: id in n <==> id in m && LatestEnd(m[id]) >= cutoff
    requires forall id :: id in n ==> n[id] == m[id]
    ensures n == EvictV(m, cutoff)
  {
  }

  class TraceMap {
    var traces: map<string, Trace>

    /** Every trace is its own object. */
    ghost predicate Valid()
      reads this
    {
      forall i, j :: i in traces && j in traces && traces[i] == traces[j] ==> i == j
    }

    ghost function View(): map<string, TraceV>
      reads this, traces.Values
    {
      map id | id in traces :: traces[id].View()
    }

    constructor ()
      ensures Valid() && View() == map[] && traces == map[]
    {
      traces := map[];
    }

    /** The trace with this id, created on first sight. */
    method Lookup(id: string) returns (t: Trace)
      requires Valid()
      modifies this
      ensures Valid() && id in traces && traces[id] == t
      ensures View() == old(View())[id := TraceFor(old(View()), id)]
      ensures id in old(traces) ==> traces == old(traces)
      ensures id !in old(traces) ==> fresh(t) && traces == old(traces)[id := t]
    {
      if id in traces {
        t := traces[id];
      } else {
        t := new Trace(id);
        assert t !in traces.Values;
        traces := traces[id := t];
      }
    }

    method Add(span: Span)
      requires Valid()
      modifies this, traces.Values
      ensures Valid() && fresh(traces.Values - old(traces.Values))
      ensures View() == AddV(old(View()), span)
    {
      if span.traceID == "" { return; }
      var t := Lookup(span.traceID);
      ghost var before := View();
      AddVAfterLookup(old(View()), before, span);
      t.Update(span);
      ReplaceOne(before, View(), span.traceID, AddTo(before[span.traceID], span));
    }

    /** Drops exactly the traces whose latest end precedes now - ttl, and counts them. */
    method Evict(ttl: int, now: int) returns (removed: nat)
      requires Valid()
      modifies this
      ensures Valid() && traces.Values <= old(traces.Values)
      ensures View() == EvictV(old(View()), now - ttl)
      ensures removed == |old(traces)| - |traces|
    {
      hide LatestEnd, Trace.View;
      var cutoff := now - ttl;
      removed := Sweep(cutoff);
      KeepFresh(old(View()), View(), cutoff);
    }

    method Sweep(cutoff: int) returns (removed: nat)
      modifies this
      ensures traces == old(traces) - old(StaleIds(traces, cutoff))
      ensures removed == |old(traces)| - |traces|
    {
      hide LatestEnd, Trace.View;
      removed := 0;
      ghost var all, stale, done := traces, StaleIds(traces, cutoff), {};
      var rest := traces.Keys;
      while rest != {}
        invariant rest == all.Keys - done && Swept(all, stale, done, traces)
        invariant removed == |all| - |traces|
        decreases |rest|
      {
        var id :| id in rest;
        assert id in stale <==> Stale(traces[id], cutoff);
        ghost var left := traces;
        var dropped := DropIfStale(id, cutoff);
        removed := removed + if dropped then 1 else 0;
        DoneOne(all, stale, done, id, left, traces);
        rest, done := rest - {id}, done + {id};
      }
      AllDone(all, stale, done);
    }

    static ghost function StaleIds(m: map<string, Trace>, cutoff: int): set<string>
      reads m.Values
    {
      set id | id in m && Stale(m[id], cutoff)
    }

    static ghost predicate Stale(t: Trace, cutoff: int)
      reads t
    {
      LatestEnd(t.View()) < cutoff
    }

    method DropIfStale(id: string, cutoff: int) returns (dropped: bool)
      requires id in traces
      modifies this
      ensures dropped == Stale(old(traces[id]), cutoff)
      ensures traces == if dropped then old(traces) - {id} else old(traces)
      ensures |traces| == |old(traces)| - if dropped then 1 else 0
    {
      var latest := TraceLatestEnd(traces[id]);
      dropped := latest < cutoff;
      if dropped {
        assert (traces - {id}).Keys == traces.Keys - {id};
        traces := traces - {id};
      }
    }
  }
}
