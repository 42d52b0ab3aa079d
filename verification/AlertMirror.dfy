// The TUI's list of active alerts, kept from messages alone: internal/tui/app.go.
module AlertMirror {
  import opened AlertModel
  import opened AlertMessages

  class AppModel {
    var alerts: map<string, Alert>
    var statusBarAlerts: nat

    ghost predicate Valid()
      reads this
    {
      statusBarAlerts == |alerts|
    }

    constructor ()
      ensures Valid() && alerts == Replay([])
    {
      alerts, statusBarAlerts := map[], 0;
    }

    /** The FiredMsg and ResolvedMsg cases of Update. */
    method Update(msg: Msg)
      modifies this
      ensures Valid() && alerts == Apply(old(alerts), msg)
    {
      match msg {
        case Fired(a) => alerts := alerts[AlertKey(a) := a];
        case Resolved(a) => alerts := alerts - {AlertKey(a)};
      }
      statusBarAlerts := |alerts|;
    }

    /** Draining every message the engine has sent leaves the status bar showing its active count. */
    method Drain(ghost ticks: seq<Tick>, msgs: seq<Msg>)
      requires Valid() && alerts == Replay([])
      requires msgs == Run(ticks).sent
      modifies this
      ensures Valid() && alerts == ActiveOf(Run(ticks)) && statusBarAlerts == |ActiveOf(Run(ticks))|
    {
      for i := 0 to |msgs|
        invariant Valid() && alerts == Replay(msgs[..i])
      {
        assert msgs[..i + 1][..i] == msgs[..i];
        Update(msgs[i]);
      }
      assert msgs[..|msgs|] == msgs;
      MirrorIsActive(ticks);
    }
  }
}
