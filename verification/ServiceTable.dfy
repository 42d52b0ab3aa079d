// Creating a service's state once, under concurrent callers: internal/store/store.go, serviceFor. Each locked
// region is one step of the thread that runs it.
module ServiceTable {
  import opened StoreModel

  /** A caller of serviceFor: before the read lock, after a failed look-up, or returned with a state. */
  datatype Caller = Started(name: string) | Missed(name: string) | Returned(name: string, obj: nat)

  /** services maps names to objects; next numbers the objects created; installed lists the creations. */
  datatype Table = Table(
    services: map<string, nat>, next: nat, callers: map<nat, Caller>, installed: seq<(string, nat)>)

  const EMPTY := Table(map[], 0, map[], [])

  datatype Step = Call(thread: nat, name: string) | LookUp(thread: nat) | Create(thread: nat)

  ghost predicate Enabled(t: Table, step: Step) {
    match step
    case Call(i, _) => i !in t.callers
    case LookUp(i) => i in t.callers && t.callers[i].Started?
    case Create(i) => i in t.callers && t.callers[i].Missed?
  }

  function Next(t: Table, step: Step): Table
    requires Enabled(t, step)
  {
    match step
    case Call(i, name) => t.(callers := t.callers[i := Started(ServiceName(name))])
    // under the read lock
    case LookUp(i) =>
      var n := t.callers[i].name;
      t.(callers := t.callers[i := if n in t.services then Returned(n, t.services[n]) else Missed(n)])
    // under the write lock: looks again, and only then creates and installs
    case Create(i) =>
      var n := t.callers[i].name;
      if n in t.services then t.(callers := t.callers[i := Returned(n, t.services[n])])
      else Table(t.services[n := t.next], t.next + 1, t.callers[i := Returned(n, t.next)], t.installed + [(n, t.next)])
  }

  ghost predicate Run(steps: seq<Step>)
    decreases |steps|, 0
  {
    if steps == [] then true
    else Run(steps[..|steps| - 1]) && Enabled(After(steps[..|steps| - 1]), steps[|steps| - 1])
  }

  ghost function After(steps: seq<Step>): Table
    requires Run(steps)
    decreases |steps|, 1
  {
    if steps == [] then EMPTY else Next(After(steps[..|steps| - 1]), steps[|steps| - 1])
  }

  /** The map and the list of creations agree, and no object serves two names. */
  ghost predicate Consistent(t: Table) {
    && (forall n :: n in t.services ==> t.services[n] < t.next && n != "" && (n, t.services[n]) in t.installed)
    && (forall m, n :: m in t.services && n in t.services && m != n ==> t.services[m] != t.services[n])
    && (forall k :: 0 <= k < |t.installed| ==>
          t.installed[k].0 in t.services && t.services[t.installed[k].0] == t.installed[k].1)
    && (forall j, k :: 0 <= j < k < |t.installed| ==> t.installed[j].0 != t.installed[k].0)
  }

  /** Whoever has returned holds the object the map has for the name asked for. */
  ghost predicate Answered(t: Table) {
    && (forall i :: i in t.callers ==> t.callers[i].name != "")
    && (forall i :: i in t.callers && t.callers[i].Returned? ==>
          t.callers[i].name in t.services && t.services[t.callers[i].name] == t.callers[i].obj)
  }

  ghost predicate Inv(t: Table) { Consistent(t) && Answered(t) }

  /** t' still has every entry of t. */
  ghost predicate Keeps(t: Table, t': Table) {
    forall n :: n in t.services ==> n in t'.services && t'.services[n] == t.services[n]
  }

  lemma InstallConsistent(t: Table, t': Table, n: string)
    requires Consistent(t) && n !in t.services && n != ""
    requires t'.services == t.services[n := t.next] && t'.next == t.next + 1
    requires t'.installed == t.installed + [(n, t.next)]
    ensures Consistent(t') && Keeps(t, t')
  {
    assert t'.installed[|t.installed|] == (n, t.next);
    forall m | m in t'.services ensures (m, t'.services[m]) in t'.installed {
      if m != n { assert (m, t.services[m]) in t.installed; }
    }
  }

  lemma InstallKeeps(t: Table, i: nat)
    requires Inv(t) && Enabled(t, Create(i)) && t.callers[i].name !in t.services
    ensures Inv(Next(t, Create(i))) && Keeps(t, Next(t, Create(i)))
  {
    InstallConsistent(t, Next(t, Create(i)), t.callers[i].name);
  }

  lemma ReturnKeeps(t: Table, step: Step)
    requires Inv(t) && Enabled(t, step) && Next(t, step).services == t.services
    requires Next(t, step).installed == t.installed && Next(t, step).next == t.next
    ensures Inv(Next(t, step)) && Keeps(t, Next(t, step))
  {
  }

  lemma StepKeeps(t: Table, step: Step)
    requires Inv(t) && Enabled(t, step)
    ensures Inv(Next(t, step)) && Keeps(t, Next(t, step))
  {
    if step.Create? && t.callers[step.thread].name !in t.services {
      InstallKeeps(t, step.thread);
    } else {
      ReturnKeeps(t, step);
    }
  }

  lemma {:induction false} RunKeeps(steps: seq<Step>)
    requires Run(steps)
    ensures Inv(After(steps))
  {
    if steps != [] {
      RunKeeps(steps[..|steps| - 1]);
      StepKeeps(After(steps[..|steps| - 1]), steps[|steps| - 1]);
    }
  }

  lemma {:induction false} PrefixRuns(steps: seq<Step>, n: nat)
    requires Run(steps) && n <= |steps|
    ensures Run(steps[..n])
    decreases |steps|
  {
    if n < |steps| {
      PrefixRuns(steps[..|steps| - 1], n);
      assert steps[..|steps| - 1][..n] == steps[..n];
    } else {
      assert steps[..n] == steps;
    }
  }

  /** An installed state is never replaced or removed. */
  lemma {:induction false} InstalledForGood(steps: seq<Step>, n: nat)
    requires Run(steps) && n <= |steps|
    ensures Run(steps[..n]) && Keeps(After(steps[..n]), After(steps))
    decreases |steps|
  {
    PrefixRuns(steps, n);
    if n < |steps| {
      var init := steps[..|steps| - 1];
      InstalledForGood(init, n);
      assert init[..n] == steps[..n];
      RunKeeps(init);
      StepKeeps(After(init), steps[|steps| - 1]);
    } else {
      assert steps[..n] == steps;
    }
  }

  /** Under every interleaving: at most one state per name is ever created, all callers for a name get that
      one, at whatever point of the run they return, and different names get different states. */
  lemma OneStatePerName(steps: seq<Step>)
    requires Run(steps)
    ensures var t := After(steps);
            && (forall j, k :: 0 <= j < k < |t.installed| ==> t.installed[j].0 != t.installed[k].0)
            && (forall i, j :: i in t.callers && j in t.callers && t.callers[i].Returned? && t.callers[j].Returned? ==>
                  (t.callers[i].obj == t.callers[j].obj <==> t.callers[i].name == t.callers[j].name))
            && (forall i :: i in t.callers && t.callers[i].Returned? ==>
                  (t.callers[i].name, t.callers[i].obj) in t.installed)
  {
    RunKeeps(steps);
  }

  lemma RunPush(steps: seq<Step>, step: Step)
    requires Run(steps) && Enabled(After(steps), step)
    ensures Run(steps + [step]) && After(steps + [step]) == Next(After(steps), step)
  {
    assert (steps + [step])[..|steps|] == steps;
  }

  /** The second look-up is what this rests on: without it two callers that both missed would install twice. */
  lemma BothMayMiss(name: string)
    requires name != ""
    ensures var steps := [Call(0, name), Call(1, name)] + [LookUp(0), LookUp(1)];
            Run(steps) && After(steps).callers == map[0 := Missed(name), 1 := Missed(name)]
  {
    var calls := [Call(0, name), Call(1, name)];
    BothStart(name);
    RunPush(calls, LookUp(0));
    RunPush(calls + [LookUp(0)], LookUp(1));
    assert calls + [LookUp(0)] + [LookUp(1)] == calls + [LookUp(0), LookUp(1)];
  }

  lemma BothStart(name: string)
    requires name != ""
    ensures var calls := [Call(0, name), Call(1, name)];
            Run(calls) && After(calls) == Table(map[], 0, map[0 := Started(name), 1 := Started(name)], [])
  {
    RunPush([], Call(0, name));
    assert [] + [Call(0, name)] == [Call(0, name)];
    RunPush([Call(0, name)], Call(1, name));
    assert [Call(0, name)] + [Call(1, name)] == [Call(0, name), Call(1, name)];
  }
}
