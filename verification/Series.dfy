// A sliding window of samples for one (name, label set): internal/store/timeseries.go.
module SeriesModel {
  import opened Common
  import opened Rings
  import opened Percentiles

  type Labels = map<string, string>

  datatype MetricKind = Counter | Gauge | Histogram

  datatype MetricEvent =
    MetricEvent(name: string, value: real, labels: Labels, kind: MetricKind, timestamp: int, source: string)

  const DEFAULT_SERIES_CAPACITY := 300

  /** The value of a series: its identity, its window and its newest sample. */
  datatype SeriesV =
    SeriesV(name: string, labels: Labels, kind: MetricKind, cap: nat, values: seq<real>, last: real, lastTime: int)

  function NewSeriesV(e: MetricEvent, cap: nat): SeriesV {
    SeriesV(e.name, e.labels, e.kind, cap, [], 0.0, 0)
  }

  function PushV(s: SeriesV, e: MetricEvent): SeriesV {
    s.(values := LastN(s.values + [e.value], s.cap), last := e.value, lastTime := e.timestamp)
  }

  class Series {
    const name: string
    const labels: Labels
    const kind: MetricKind
    const values: Ring<real>
    var last: real
    var lastTime: int

    ghost predicate Valid()
      reads this, values, values.buf
    {
      values.Valid()
    }

    ghost function View(): SeriesV
      requires Valid()
      reads this, values, values.buf
    {
      SeriesV(name, labels, kind, values.cap, values.Contents(), last, lastTime)
    }

    constructor (name: string, kind: MetricKind, labels: Labels, capacity: int)
      ensures Valid() && fresh(values) && fresh(values.buf)
      ensures var cap := if capacity <= 0 then DEFAULT_SERIES_CAPACITY else capacity;
              View() == SeriesV(name, labels, kind, cap, [], 0.0, 0)
    {
      this.name, this.labels, this.kind := name, labels, kind;
      var c := if capacity <= 0 then DEFAULT_SERIES_CAPACITY else capacity;
      var ring := new Ring(c);
      values := ring;
      last, lastTime := 0.0, 0;
      new;
      assert values.cap == c && values.Contents() == [];
    }

    method Push(e: MetricEvent)
      requires Valid()
      modifies this, values, values.buf
      ensures Valid()
      ensures View() == PushV(old(View()), e)
    {
      values.Push(e.value);
      last, lastTime := e.value, e.timestamp;
    }

    method Values() returns (all: seq<real>)
      requires Valid()
      ensures all == View().values
    {
      all := values.Slice();
    }

    method P50() returns (p: real)
      requires Valid()
      ensures p == PercentileOf(View().values, 50.0)
    {
      var snapshot := Values();
      p := Percentile(snapshot, 50.0);
    }

    method P95() returns (p: real)
      requires Valid()
      ensures p == PercentileOf(View().values, 95.0)
    {
      var snapshot := Values();
      p := Percentile(snapshot, 95.0);
    }

    method P99() returns (p: real)
      requires Valid()
      ensures p == PercentileOf(View().values, 99.0)
    {
      var snapshot := Values();
      p := Percentile(snapshot, 99.0);
    }

    method Sparkline(n: int) returns (recent: seq<real>)
      requires Valid()
      ensures recent == if n <= 0 then View().values else LastN(View().values, n)
    {
      var all := values.Slice();
      if n <= 0 || n >= |all| { return all; }
      return all[|all| - n..];
    }
  }

  function PushAllV(s: SeriesV, es: seq<MetricEvent>): SeriesV {
    if es == [] then s else PushV(PushAllV(s, es[..|es| - 1]), es[|es| - 1])
  }

  function ValuesOf(es: seq<MetricEvent>): (r: seq<real>)
    ensures |r| == |es|
  {
    seq(|es|, i requires 0 <= i < |es| => es[i].value)
  }

  /** After any pushes the window is the newest cap samples and Last is the newest of all. */
  lemma {:induction false} SeriesIsWindow(s: SeriesV, es: seq<MetricEvent>)
    requires s.values == [] && 0 < s.cap && es != []
    ensures var t := PushAllV(s, es);
            && t.values == LastN(ValuesOf(es), s.cap)
            && t.last == es[|es| - 1].value == t.values[|t.values| - 1]
            && t.lastTime == es[|es| - 1].timestamp
            && (t.name, t.labels, t.kind, t.cap) == (s.name, s.labels, s.kind, s.cap)
  {
    var es', e := es[..|es| - 1], es[|es| - 1];
    if es' != [] {
      SeriesIsWindow(s, es');
      LastNPush(ValuesOf(es'), e.value, s.cap);
    }
    assert ValuesOf(es) == ValuesOf(es') + [e.value];
  }

  // ---- percentiles of one window and of two ---------------------------------------------------------------

  /** Read with no push in between, the percentiles do not cross. */
  lemma PercentilesInOrder(s: SeriesV)
    ensures PercentileOf(s.values, 50.0) <= PercentileOf(s.values, 95.0) <= PercentileOf(s.values, 99.0)
  {
    PercentileMonotone(s.values, 50.0, 95.0);
    PercentileMonotone(s.values, 95.0, 99.0);
  }

  function Flood(e: MetricEvent, n: nat): (r: seq<MetricEvent>)
    ensures |r| == n
  {
    if n == 0 then [] else Flood(e, n - 1) + [e]
  }

  /** The last n samples are all x. */
  ghost predicate EndsIn(values: seq<real>, x: real, n: nat) {
    n <= |values| && forall i :: |values| - n <= i < |values| ==> values[i] == x
  }

  lemma EndsInPush(values: seq<real>, x: real, n: nat, cap: nat)
    requires |values| <= cap && EndsIn(values, x, Min(n, cap))
    ensures EndsIn(LastN(values + [x], cap), x, Min(n + 1, cap))
  {
  }

  lemma {:induction false} FloodedWindow(s: SeriesV, e: MetricEvent, n: nat)
    requires |s.values| <= s.cap
    ensures var t := PushAllV(s, Flood(e, n));
            t.cap == s.cap && |t.values| <= s.cap && EndsIn(t.values, e.value, Min(n, s.cap))
  {
    if n > 0 {
      hide EndsIn, LastN;
      var t := PushAllV(s, Flood(e, n - 1));
      FloodedWindow(s, e, n - 1);
      EndsInPush(t.values, e.value, n - 1, s.cap);
      assert Flood(e, n)[..n - 1] == Flood(e, n - 1);
    }
  }

  /** Each call copies the window anew, so pushes between two calls can make them cross: whatever the window was, a
      windowful of smaller values in between leaves the later P95 below the earlier P50. */
  lemma PercentilesCanCross(s: SeriesV, e: MetricEvent)
    requires 0 < |s.values| <= s.cap && e.value < PercentileOf(s.values, 50.0)
    ensures PercentileOf(PushAllV(s, Flood(e, s.cap)).values, 95.0) < PercentileOf(s.values, 50.0)
  {
    FloodedWindow(s, e, s.cap);
    NearestRank(PushAllV(s, Flood(e, s.cap)).values, 95.0);
  }
}
