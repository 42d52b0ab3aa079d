// The list of recent traces: internal/store/tracemap.go, Recent, and internal/tui/panels/traces.go, refresh.
module TraceList {
  import opened Common
  import opened SortedStrings
  import opened TraceModel

  const RECENT_TRACE_LIMIT: nat := 50

  type Traces = map<string, TraceV>

  datatype Ref = Ref(service: string, trace: TraceV)

  /** What traceStart may report: the root's start, or the start of some child, in map order. */
  ghost predicate MayStart(t: TraceV, at: int) {
    if t.root.Some? then at == t.root.value.start
    else if exists p :: p in t.children && t.children[p] != [] then
      exists p :: p in t.children && t.children[p] != [] && at == t.children[p][0].start
    else at == 0
  }

  method TraceStart(t: TraceV) returns (at: int)
    ensures MayStart(t, at)
    ensures t.root.Some? ==> at == t.root.value.start
    ensures t.root.None? ==>
              || (exists p :: p in t.children && t.children[p] != [] && at == t.children[p][0].start)
              || (at == 0 && forall p :: p in t.children ==> t.children[p] == [])
  {
    if t.root.Some? { return t.root.value.start; }
    var rest := t.children.Keys;
    while rest != {}
      invariant rest <= t.children.Keys
      invariant forall p :: p in t.children && p !in rest ==> t.children[p] == []
      decreases |rest|
    {
      var p :| p in rest;
      if |t.children[p]| > 0 { return t.children[p][0].start; }
      rest := rest - {p};
    }
    return 0;
  }

  /** A reading of the starts: one that traceStart may have reported, for each trace of the map. */
  ghost predicate ReadsStarts(m: Traces, starts: TraceV -> int) {
    forall id :: id in m ==> MayStart(m[id], starts(m[id]))
  }

  /** Latest start first. */
  predicate NewestFirst(refs: seq<Ref>, starts: TraceV -> int) {
    forall i, j :: 0 <= i < j < |refs| ==> starts(refs[i].trace) >= starts(refs[j].trace)
  }

  /** A trace map files every trace under its own ID. */
  predicate FiledByID(m: Traces) {
    forall id :: id in m ==> m[id].traceID == id
  }

  /** r is a trace of the store that this panel shows: of the chosen service, or of any. */
  predicate Shown(store: map<string, Traces>, service: string, r: Ref) {
    && r.service in store && (service != "" ==> r.service == service)
    && r.trace.traceID in store[r.service] && store[r.service][r.trace.traceID] == r.trace
  }

  /** The limit newest traces: nothing left out is newer than anything listed. */
  ghost predicate IsNewestOf(
    refs: seq<Ref>, store: map<string, Traces>, service: string, starts: TraceV -> int, limit: nat)
  {
    && |refs| <= limit && NoDup(refs) && NewestFirst(refs, starts)
    && (forall r :: r in refs ==> Shown(store, service, r))
    && (forall r, x :: Shown(store, service, r) && r !in refs && x in refs ==> starts(x.trace) >= starts(r.trace))
    && (forall r :: Shown(store, service, r) && r !in refs ==> |refs| == limit)
  }

  /** What such a listing shows: traces of the service chosen, or of any, in the order of their starts, latest first, a
      trace with a root by the root's start; and while a trace of them is missing, the listing is full and shows nothing
      older. */
  lemma NewestMeans(
    refs: seq<Ref>, store: map<string, Traces>, service: string, starts: TraceV -> int, limit: nat)
    requires forall s :: s in store ==> ReadsStarts(store[s], starts)
    requires IsNewestOf(refs, store, service, starts, limit)
    ensures |refs| <= limit
    ensures forall i, j :: 0 <= i < j < |refs| ==>
              refs[i] != refs[j] && starts(refs[i].trace) >= starts(refs[j].trace)
    ensures forall i :: 0 <= i < |refs| ==>
              && refs[i].service in store && (service == "" || refs[i].service == service)
              && refs[i].trace.traceID in store[refs[i].service]
              && store[refs[i].service][refs[i].trace.traceID] == refs[i].trace
              && (refs[i].trace.root.Some? ==> starts(refs[i].trace) == refs[i].trace.root.value.start)
    ensures forall s, id :: s in store && (service == "" || s == service) && id in store[s]
                            && store[s][id].traceID == id && Ref(s, store[s][id]) !in refs ==>
              |refs| == limit && forall i :: 0 <= i < |refs| ==> starts(refs[i].trace) >= starts(store[s][id])
  {
    forall i | 0 <= i < |refs| ensures Shown(store, service, refs[i]) { assert refs[i] in refs; }
    forall s, id | s in store && (service == "" || s == service) && id in store[s]
                   && store[s][id].traceID == id && Ref(s, store[s][id]) !in refs
      ensures |refs| == limit && forall i :: 0 <= i < |refs| ==> starts(refs[i].trace) >= starts(store[s][id])
    {
      assert Shown(store, service, Ref(s, store[s][id]));
      assert forall i :: 0 <= i < |refs| ==> refs[i] in refs;
    }
  }

  method SortNewest(refs: seq<Ref>, starts: TraceV -> int) returns (r: seq<Ref>)
    ensures NewestFirst(r, starts) && multiset(r) == multiset(refs)
  {
    r := [];
    for i := 0 to |refs|
      invariant NewestFirst(r, starts) && multiset(r) == multiset(refs[..i])
    {
      r := InsertNewest(r, refs[i], starts);
      assert refs[..i + 1] == refs[..i] + [refs[i]];
    }
    assert refs[..|refs|] == refs;
  }

  method InsertNewest(r: seq<Ref>, x: Ref, starts: TraceV -> int) returns (t: seq<Ref>)
    requires NewestFirst(r, starts)
    ensures NewestFirst(t, starts) && multiset(t) == multiset(r) + multiset{x}
  {
    var k: nat := |r|;
    while k > 0 && starts(x.trace) > starts(r[k - 1].trace)
      invariant k <= |r| && forall i :: k <= i < |r| ==> starts(x.trace) > starts(r[i].trace)
    {
      k := k - 1;
    }
    t := r[..k] + [x] + r[k..];
    InsertKeepsOrder(r, x, k, starts);
    InsertKeepsAll(r, x, k);
  }

  lemma InsertKeepsAll(r: seq<Ref>, x: Ref, k: nat)
    requires k <= |r|
    ensures multiset(r[..k] + [x] + r[k..]) == multiset(r) + multiset{x}
  {
    assert r == r[..k] + r[k..];
  }

  lemma InsertKeepsOrder(r: seq<Ref>, x: Ref, k: nat, starts: TraceV -> int)
    requires NewestFirst(r, starts) && k <= |r|
    requires k > 0 ==> starts(r[k - 1].trace) >= starts(x.trace)
    requires forall i :: k <= i < |r| ==> starts(x.trace) >= starts(r[i].trace)
    ensures NewestFirst(r[..k] + [x] + r[k..], starts)
  {
    var t := r[..k] + [x] + r[k..];
    forall i, j | 0 <= i < j < |t| ensures starts(t[i].trace) >= starts(t[j].trace) {
      assert i < k ==> t[i] == r[i];
      assert j > k ==> t[j] == r[j - 1];
      assert i > k ==> t[i] == r[i - 1];
      assert j < k ==> t[j] == r[j];
      if i < k && k > 0 { assert starts(r[i].trace) >= starts(r[k - 1].trace); }
    }
  }

  /** Recent: the traces of one map, newest first, at most n of them when n is positive. */
  method Recent(service: string, m: Traces, n: int, starts: TraceV -> int) returns (refs: seq<Ref>)
    requires FiledByID(m) && ReadsStarts(m, starts)
    ensures forall r :: r in refs ==> MayStart(r.trace, starts(r.trace))
    ensures IsNewestOf(refs, map[service := m], service, starts, if n > 0 then n else |m|)
    ensures n <= 0 ==> forall r :: r in refs <==>
              r.service == service && r.trace.traceID in m && m[r.trace.traceID] == r.trace
  {
    var all := TracesOf(service, m);
    refs := SortNewest(all, starts);
    SortedListing(all, refs);
    if n > 0 && |refs| > n {
      KeepNewest(refs, map[service := m], service, starts, n);
      refs := refs[..n];
    }
  }

  /** Each trace of the map once, in map order. */
  method TracesOf(service: string, m: Traces) returns (all: seq<Ref>)
    requires FiledByID(m)
    ensures NoDup(all) && |all| == |m|
    ensures forall r :: r in all <==> r.service == service && r.trace.traceID in m && m[r.trace.traceID] == r.trace
  {
    all := [];
    var rest := m.Keys;
    while rest != {}
      invariant rest <= m.Keys && NoDup(all) && |all| + |rest| == |m|
      invariant forall r :: r in all <==>
                  && r.service == service && r.trace.traceID in m
                  && r.trace.traceID !in rest && m[r.trace.traceID] == r.trace
      decreases |rest|
    {
      var id :| id in rest;
      all := all + [Ref(service, m[id])];
      rest := rest - {id};
    }
  }

  lemma SortedListing(all: seq<Ref>, refs: seq<Ref>)
    requires NoDup(all) && multiset(refs) == multiset(all)
    ensures NoDup(refs) && |refs| == |all| && forall r :: r in refs <==> r in all
  {
    DistinctPermutes(all, refs);
    assert |multiset(refs)| == |refs| && |multiset(all)| == |all|;
    forall r ensures r in refs <==> r in all { assert r in multiset(refs) <==> r in multiset(all); }
  }

  /** Cutting a full newest-first listing keeps the newest. */
  lemma KeepNewest(refs: seq<Ref>, store: map<string, Traces>, service: string, starts: TraceV -> int, limit: nat)
    requires NoDup(refs) && NewestFirst(refs, starts) && |refs| > limit
    requires forall r :: r in refs <==> Shown(store, service, r)
    ensures IsNewestOf(refs[..limit], store, service, starts, limit)
  {
    var kept := refs[..limit];
    assert forall n :: 0 <= n < limit ==> kept[n] == refs[n] && refs[n] in kept;
    forall r, x | Shown(store, service, r) && r !in kept && x in kept ensures starts(x.trace) >= starts(r.trace) {
      var j :| 0 <= j < |refs| && refs[j] == r;
      var i :| 0 <= i < |kept| && kept[i] == x;
    }
  }

  /** The panel's refresh: the newest traces of all services, or of the chosen one, and the row selected. The
      selection stays on the trace that was selected, wherever it is now, and falls back to the first row. */
  method Refresh(store: map<string, Traces>, service: string, prevID: string, starts: TraceV -> int)
    returns (refs: seq<Ref>, selected: nat)
    requires forall s :: s in store ==> FiledByID(store[s]) && ReadsStarts(store[s], starts)
    ensures forall r :: r in refs ==> MayStart(r.trace, starts(r.trace))
    ensures IsNewestOf(refs, store, service, starts, RECENT_TRACE_LIMIT)
    ensures selected == 0 || selected < |refs|
    ensures prevID != "" && (exists r :: r in refs && r.trace.traceID == prevID) ==>
              && selected < |refs| && refs[selected].trace.traceID == prevID
              && forall i :: 0 <= i < selected ==> refs[i].trace.traceID != prevID
    ensures prevID == "" || (forall r :: r in refs ==> r.trace.traceID != prevID) ==> selected == 0
  {
    var services := SortedKeysOf(store.Keys);
    SortedKeysNoDup(store.Keys);
    if service != "" { services := [service]; }
    var all := Gather(store, services, starts);
    assert forall r :: r in all <==> Shown(store, service, r);
    refs := SortNewest(all, starts);
    SortedListing(all, refs);
    if |refs| > RECENT_TRACE_LIMIT {
      KeepNewest(refs, store, service, starts, RECENT_TRACE_LIMIT);
      refs := refs[..RECENT_TRACE_LIMIT];
    }
    selected := Reselect(refs, prevID);
  }

  method Reselect(refs: seq<Ref>, prevID: string) returns (selected: nat)
    ensures selected == 0 || selected < |refs|
    ensures prevID != "" && (exists r :: r in refs && r.trace.traceID == prevID) ==>
              && selected < |refs| && refs[selected].trace.traceID == prevID
              && forall i :: 0 <= i < selected ==> refs[i].trace.traceID != prevID
    ensures prevID == "" || (forall r :: r in refs ==> r.trace.traceID != prevID) ==> selected == 0
  {
    selected := 0;
    if prevID != "" {
      for i := 0 to |refs|
        invariant forall j :: 0 <= j < i ==> refs[j].trace.traceID != prevID
      {
        if refs[i].trace.traceID == prevID { return i; }
      }
    }
  }

  method Gather(store: map<string, Traces>, services: seq<string>, starts: TraceV -> int) returns (all: seq<Ref>)
    requires NoDup(services) && forall s :: s in store ==> FiledByID(store[s]) && ReadsStarts(store[s], starts)
    ensures NoDup(all)
    ensures forall r :: r in all <==> r.service in services && Shown(store, "", r)
  {
    all := [];
    for i := 0 to |services|
      invariant NoDup(all)
      invariant forall r :: r in all <==> r.service in services[..i] && Shown(store, "", r)
    {
      assert services[..i + 1] == services[..i] + [services[i]];
      if services[i] in store {
        var recent := Recent(services[i], store[services[i]], 0, starts);
        all := all + recent;
      }
    }
    assert services[..|services|] == services;
  }

  // ---- the listing does not depend on map order --------------------------------------------------------

  ghost predicate DistinctStarts(store: map<string, Traces>, service: string, starts: TraceV -> int) {
    forall r, x :: Shown(store, service, r) && Shown(store, service, x) && starts(r.trace) == starts(x.trace) ==> r == x
  }

  lemma ListedInBoth(
    a: seq<Ref>, b: seq<Ref>, store: map<string, Traces>, service: string, starts: TraceV -> int, limit: nat, r: Ref)
    requires IsNewestOf(a, store, service, starts, limit) && IsNewestOf(b, store, service, starts, limit)
    requires DistinctStarts(store, service, starts) && r in a
    ensures r in b
  {
    if r !in b {
      assert forall x :: x in b ==> x in a;
      PigeonHole(b, a, r);
    }
  }

  /** A listing inside another one, and without one of its rows, is shorter. */
  lemma PigeonHole(b: seq<Ref>, a: seq<Ref>, r: Ref)
    requires NoDup(b) && NoDup(a) && r in a && r !in b && forall x :: x in b ==> x in a
    ensures |b| < |a|
  {
    var sb, sa := set x | x in b, set x | x in a;
    Size(b);
    Size(a);
    assert r in sa && r !in sb && sb <= sa;
    SmallerSet(sb, sa);
  }

  lemma SmallerSet(s: set<Ref>, t: set<Ref>)
    requires s < t
    ensures |s| < |t|
  {
    assert t == s + (t - s);
    assert |t| == |s| + |t - s|;
  }

  lemma {:induction false} Size(a: seq<Ref>)
    requires NoDup(a)
    ensures |set x | x in a| == |a|
  {
    if a != [] {
      var init, last := a[..|a| - 1], a[|a| - 1];
      Size(init);
      assert a == init + [last];
      assert (set x | x in a) == (set x | x in init) + {last};
    }
  }

  ghost predicate Falling(a: seq<Ref>, starts: TraceV -> int) {
    forall i, j :: 0 <= i < j < |a| ==> starts(a[i].trace) > starts(a[j].trace)
  }

  ghost predicate SameMembers(a: seq<Ref>, b: seq<Ref>) { forall r :: r in a <==> r in b }

  lemma SameHead(a: seq<Ref>, b: seq<Ref>, starts: TraceV -> int)
    requires Falling(a, starts) && Falling(b, starts) && SameMembers(a, b) && a != []
    ensures b != [] && a[0] == b[0]
  {
    assert a[0] in b && b[0] in a;
  }

  lemma FirstMember(b: seq<Ref>)
    requires b != []
    ensures exists r :: r in b
  {
    assert b[0] in b;
  }

  lemma FallingTail(a: seq<Ref>, starts: TraceV -> int, r: Ref)
    requires Falling(a, starts) && a != []
    ensures Falling(a[1..], starts)
    ensures r in a[1..] <==> r in a && r != a[0]
  {
    assert a == [a[0]] + a[1..];
  }

  lemma TailsAgree(a: seq<Ref>, b: seq<Ref>, starts: TraceV -> int)
    requires Falling(a, starts) && Falling(b, starts) && a != [] && b != [] && a[0] == b[0] && SameMembers(a, b)
    ensures Falling(a[1..], starts) && Falling(b[1..], starts) && SameMembers(a[1..], b[1..])
  {
    FallingTail(a, starts, a[0]);
    FallingTail(b, starts, b[0]);
    forall r ensures r in a[1..] <==> r in b[1..] {
      FallingTail(a, starts, r);
      FallingTail(b, starts, r);
    }
  }

  lemma {:induction false} SameOrder(a: seq<Ref>, b: seq<Ref>, starts: TraceV -> int)
    requires Falling(a, starts) && Falling(b, starts) && SameMembers(a, b)
    ensures a == b
  {
    if a == [] {
      if b != [] { FirstMember(b); }
    } else {
      hide Falling, SameMembers;
      SameHead(a, b, starts);
      TailsAgree(a, b, starts);
      SameOrder(a[1..], b[1..], starts);
      assert a == [a[0]] + a[1..] && b == [b[0]] + b[1..];
    }
  }

  /** When no two traces start together, the listing is a function of the store: neither the order in which the
      maps are walked nor the sorting algorithm shows. */
  lemma NewestUnique(
    a: seq<Ref>, b: seq<Ref>, store: map<string, Traces>, service: string, starts: TraceV -> int, limit: nat)
    requires IsNewestOf(a, store, service, starts, limit) && IsNewestOf(b, store, service, starts, limit)
    requires DistinctStarts(store, service, starts)
    ensures a == b
  {
    forall r ensures r in a <==> r in b {
      if r in a { ListedInBoth(a, b, store, service, starts, limit, r); }
      if r in b { ListedInBoth(b, a, store, service, starts, limit, r); }
    }
    SameOrder(a, b, starts);
  }

  /** When every trace shown has its root, the reading does not matter either: roots have one start. */
  lemma RootedListing(
    refs: seq<Ref>, store: map<string, Traces>, service: string, s1: TraceV -> int, s2: TraceV -> int, limit: nat)
    requires forall s :: s in store ==> ReadsStarts(store[s], s1) && ReadsStarts(store[s], s2)
    requires forall r :: Shown(store, service, r) ==> r.trace.root.Some?
    requires IsNewestOf(refs, store, service, s1, limit)
    ensures IsNewestOf(refs, store, service, s2, limit)
  {
    forall r | Shown(store, service, r) ensures s1(r.trace) == s2(r.trace) {
      assert MayStart(store[r.service][r.trace.traceID], s1(r.trace));
    }
    forall i, j | 0 <= i < j < |refs| ensures s2(refs[i].trace) >= s2(refs[j].trace) {
      assert refs[i] in refs && refs[j] in refs;
    }
  }
}
