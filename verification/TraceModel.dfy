// What trace assembly computes, as functions of values: internal/store/tracemap.go.
module TraceModel {
  import opened Common

  datatype SpanStatus = StatusUnset | StatusOK | StatusError

  datatype Span = Span(
    traceID: string, spanID: string, parentID: string, name: string, service: string,
    start: int, duration: int, status: SpanStatus, attrs: map<string, string>)

  function End(s: Span): int { s.start + s.duration }

  /** An empty parent, or one written with zeros only, marks a root span. */
  predicate IsRoot(s: Span) { forall i :: 0 <= i < |s.parentID| ==> s.parentID[i] == '0' }

  datatype TraceV =
    TraceV(traceID: string, root: Option<Span>, children: map<string, seq<Span>>, duration: int)

  function Kids(children: map<string, seq<Span>>, parent: string): seq<Span> {
    if parent in children then children[parent] else []
  }

  // ---- the latest end of a trace ------------------------------------------------------

  ghost predicate IsMax(m: int, s: set<int>) {
    m in s && forall x :: x in s ==> x <= m
  }

  lemma SomeElement(s: set<int>)
    ensures s == {} || exists x :: x in s
  {
    if forall x :: x !in s { assert s == {}; }
  }

  lemma {:induction false} MaxExists(s: set<int>)
    requires s != {}
    ensures exists m :: IsMax(m, s)
  {
    SomeElement(s);
    var x :| x in s;
    var rest := s - {x};
    assert s == rest + {x};
    if rest == {} {
      assert IsMax(x, s);
    } else {
      MaxExists(rest);
      var m :| IsMax(m, rest);
      assert IsMax(Max(m, x), s);
    }
  }

  ghost function MaxOf(s: set<int>): (m: int)
    requires s != {}
    ensures IsMax(m, s)
  {
    MaxExists(s);
    var m :| IsMax(m, s);
    m
  }

  lemma MaxOfAdd(s: set<int>, x: int)
    requires s != {}
    ensures MaxOf(s + {x}) == Max(MaxOf(s), x)
  {
    assert IsMax(Max(MaxOf(s), x), s + {x});
  }

  ghost function ChildEnds(children: map<string, seq<Span>>): set<int> {
    set p, i | p in children && 0 <= i < |children[p]| :: End(children[p][i])
  }

  /** Without a root the running maximum starts at the zero time. */
  ghost function BaseEnd(root: Option<Span>): int {
    if root.Some? then End(root.value) else 0
  }

  ghost function LatestEnd(t: TraceV): int {
    MaxOf({BaseEnd(t.root)} + ChildEnds(t.children))
  }

  // ---- adding a span ------------------------------------------------------------------

  function Attach(t: TraceV, s: Span): TraceV {
    if IsRoot(s) then t.(root := Some(s))
    else t.(children := t.children[s.parentID := Kids(t.children, s.parentID) + [s]])
  }

  ghost function NewDuration(t: TraceV, s: Span): int {
    if t.root.Some? then LatestEnd(t) - t.root.value.start
    else Max(t.duration, s.duration)
  }

  function TraceFor(m: map<string, TraceV>, id: string): TraceV {
    if id in m then m[id] else TraceV(id, None, map[], 0)
  }

  ghost function AddTo(t: TraceV, s: Span): TraceV {
    var t' := Attach(t, s);
    t'.(duration := NewDuration(t', s))
  }

  ghost function AddV(m: map<string, TraceV>, s: Span): map<string, TraceV> {
    if s.traceID == "" then m
    else m[s.traceID := AddTo(TraceFor(m, s.traceID), s)]
  }

  ghost function EvictV(m: map<string, TraceV>, cutoff: int): map<string, TraceV> {
    map id | id in m && LatestEnd(m[id]) >= cutoff :: m[id]
  }

  // ---- what a trace must be, given the spans that arrived -------------------------------

  ghost function Assemble(spans: seq<Span>): map<string, TraceV> {
    if spans == [] then map[]
    else AddV(Assemble(spans[..|spans| - 1]), spans[|spans| - 1])
  }

  function OfTrace(id: string): Span -> bool { (s: Span) => s.traceID == id }

  function ChildOf(parent: string): Span -> bool { (s: Span) => !IsRoot(s) && s.parentID == parent }

  function RootSpan(): Span -> bool { (s: Span) => IsRoot(s) }

  function Arrived(spans: seq<Span>, id: string): seq<Span> { Filter(spans, OfTrace(id)) }

  function LastRoot(spans: seq<Span>): Option<Span> {
    var roots := Filter(spans, RootSpan());
    if roots == [] then None else Some(roots[|roots| - 1])
  }

  ghost function NonRootEnds(spans: seq<Span>): set<int> {
    set i | 0 <= i < |spans| && !IsRoot(spans[i]) :: End(spans[i])
  }

  ghost function Durations(spans: seq<Span>): set<int> {
    set i | 0 <= i < |spans| :: spans[i].duration
  }

  /** With a root: latest end minus root start. Without: the longest span, at least 0. */
  ghost function ExpectedDuration(spans: seq<Span>): int {
    var root := LastRoot(spans);
    if root.Some? then MaxOf({End(root.value)} + NonRootEnds(spans)) - root.value.start
    else MaxOf({0} + Durations(spans))
  }

  ghost predicate ChildrenMatch(children: map<string, seq<Span>>, spans: seq<Span>) {
    && (forall p :: p in children ==> children[p] != [])
    && (forall p :: Kids(children, p) == Filter(spans, ChildOf(p)))
  }

  /** t is the trace that the spans of fs, all of one trace, must assemble to. */
  ghost predicate Describes(t: TraceV, id: string, fs: seq<Span>) {
    && t.traceID == id
    && t.root == LastRoot(fs)
    && ChildrenMatch(t.children, fs)
    && t.duration == ExpectedDuration(fs)
  }

  lemma ChildEndsMatch(children: map<string, seq<Span>>, spans: seq<Span>)
    requires ChildrenMatch(children, spans)
    ensures ChildEnds(children) == NonRootEnds(spans)
  {
    forall e | e in ChildEnds(children) ensures e in NonRootEnds(spans) {
      var p, i :| p in children && 0 <= i < |children[p]| && e == End(children[p][i]);
      var s := Kids(children, p)[i];
      FilterMember(spans, s, ChildOf(p));
      var j :| 0 <= j < |spans| && spans[j] == s;
    }
    forall e | e in NonRootEnds(spans) ensures e in ChildEnds(children) {
      var j :| 0 <= j < |spans| && !IsRoot(spans[j]) && e == End(spans[j]);
      var p := spans[j].parentID;
      FilterMember(spans, spans[j], ChildOf(p));
      var i :| 0 <= i < |Kids(children, p)| && Kids(children, p)[i] == spans[j];
      assert p in children && children[p][i] == spans[j];
    }
  }

  lemma AttachRoot(root: Option<Span>, s: Span, fs: seq<Span>)
    requires root == LastRoot(fs)
    ensures LastRoot(fs + [s]) == if IsRoot(s) then Some(s) else root
  {
    FilterAppend(fs, s, RootSpan());
  }

  lemma AttachChildren(t: TraceV, s: Span, fs: seq<Span>)
    requires ChildrenMatch(t.children, fs)
    ensures ChildrenMatch(Attach(t, s).children, fs + [s])
  {
    forall p ensures Kids(Attach(t, s).children, p) == Filter(fs + [s], ChildOf(p)) {
      FilterAppend(fs, s, ChildOf(p));
    }
  }

  lemma AttachMatches(t: TraceV, s: Span, fs: seq<Span>)
    requires t.root == LastRoot(fs) && ChildrenMatch(t.children, fs)
    ensures var t' := Attach(t, s);
            t'.root == LastRoot(fs + [s]) && ChildrenMatch(t'.children, fs + [s])
  {
    hide ChildrenMatch, LastRoot;
    AttachRoot(t.root, s, fs);
    AttachChildren(t, s, fs);
  }

  lemma LongestPush(fs: seq<Span>, s: Span)
    ensures MaxOf({0} + Durations(fs + [s])) == Max(MaxOf({0} + Durations(fs)), s.duration)
  {
    assert {0} + Durations(fs + [s]) == ({0} + Durations(fs)) + {s.duration} by {
      assert forall i :: 0 <= i < |fs| ==> (fs + [s])[i] == fs[i];
      assert (fs + [s])[|fs|] == s;
    }
    MaxOfAdd({0} + Durations(fs), s.duration);
  }

  /** The new duration is the one the spans ask for. */
  lemma NewDurationExpected(t: TraceV, s: Span, fs: seq<Span>)
    requires t.root == LastRoot(fs + [s]) && ChildrenMatch(t.children, fs + [s])
    requires t.duration == ExpectedDuration(fs)
    ensures NewDuration(t, s) == ExpectedDuration(fs + [s])
  {
    ChildEndsMatch(t.children, fs + [s]);
    if t.root.None? {
      FilterAppend(fs, s, RootSpan());
      LongestPush(fs, s);
    }
  }

  /** One arrival keeps a trace equal to what its spans describe. */
  lemma AddDescribes(t: TraceV, s: Span, fs: seq<Span>)
    requires Describes(t, s.traceID, fs) || (fs == [] && t == TraceV(s.traceID, None, map[], 0))
    ensures Describes(AddTo(t, s), s.traceID, fs + [s])
  {
    hide ChildrenMatch, ExpectedDuration, LastRoot, NewDuration;
    NothingArrived();
    AttachMatches(t, s, fs);
    NewDurationExpected(Attach(t, s), s, fs);
  }

  lemma NothingArrived()
    ensures LastRoot([]) == None && ChildrenMatch(map[], []) && ExpectedDuration([]) == 0
  {
    assert {0} + Durations([]) == {0};
  }

  /** Closed form of assembly: every trace holds exactly the spans that arrived for it, its root is the
      last root to arrive, and the incrementally kept Duration equals the recomputed one. */
  lemma {:induction false} AssembleClosedForm(spans: seq<Span>, id: string)
    requires id != ""
    ensures var m, fs := Assemble(spans), Arrived(spans, id);
            && (id in m <==> fs != [])
            && (id in m ==> Describes(m[id], id, fs))
  {
    if spans != [] {
      var init, s := spans[..|spans| - 1], spans[|spans| - 1];
      AssembleClosedForm(init, id);
      if s.traceID == id {
        var fs := Arrived(init, id);
        assert Arrived(spans, id) == fs + [s];
        AddDescribes(TraceFor(Assemble(init), id), s, fs);
      } else {
        assert Arrived(spans, id) == Arrived(init, id);
      }
    }
  }
}
