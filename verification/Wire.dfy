// The tagged envelope events travel in: internal/model/wire.go.
module Wire {
  import opened Common
  import opened SeriesModel
  import opened TraceModel
  import opened StoreModel

  /** What a pipeline channel carries; Foreign stands for any value of another Go type. */
  datatype Event = MetricEv(metric: MetricEvent) | SpanEv(span: Span) | LogEv(log: LogEvent) | Foreign(id: int)

  datatype WireEvent =
    WireEvent(kind: string, metric: Option<MetricEvent>, span: Option<Span>, log: Option<LogEvent>)

  function WrapEvent(ev: Event): Option<WireEvent> {
    match ev
    case MetricEv(e) => Some(WireEvent("metric", Some(e), None, None))
    case SpanEv(e) => Some(WireEvent("span", None, Some(e), None))
    case LogEv(e) => Some(WireEvent("log", None, None, Some(e)))
    case Foreign(_) => None
  }

  function Unwrap(w: WireEvent): Option<Event> {
    if w.kind == "metric" then (if w.metric.None? then None else Some(MetricEv(w.metric.value)))
    else if w.kind == "span" then (if w.span.None? then None else Some(SpanEv(w.span.value)))
    else if w.kind == "log" then (if w.log.None? then None else Some(LogEv(w.log.value)))
    else None
  }

  type Bytes = seq<bv8>

  /** JSON as seen from here: it may refuse an envelope, and reads back what it wrote. */
  datatype Codec = Codec(marshal: WireEvent -> Option<Bytes>, unmarshal: Bytes -> Option<WireEvent>)

  ghost predicate Lossless(c: Codec) {
    forall w :: c.marshal(w).Some? ==> c.unmarshal(c.marshal(w).value) == Some(w)
  }

  function EncodeEvent(c: Codec, ev: Event): Option<Bytes> {
    var w := WrapEvent(ev);
    if w.None? then None else c.marshal(w.value)
  }

  function DecodeEvent(c: Codec, data: Bytes): Option<Event> {
    var w := c.unmarshal(data);
    if w.None? then None else Unwrap(w.value)
  }

  /** Whatever is encoded decodes to the same event. */
  lemma EncodeDecode(c: Codec, ev: Event)
    requires Lossless(c) && EncodeEvent(c, ev).Some?
    ensures DecodeEvent(c, EncodeEvent(c, ev).value) == Some(ev)
  {
    assert c.marshal(WrapEvent(ev).value).Some?;
    assert Unwrap(WrapEvent(ev).value) == Some(ev);
  }

  /** An envelope unwraps exactly when the payload its kind names is present; what comes out wraps back to
      that kind and payload. */
  lemma UnwrapExact(w: WireEvent)
    ensures Unwrap(w).Some? <==>
              || (w.kind == "metric" && w.metric.Some?)
              || (w.kind == "span" && w.span.Some?)
              || (w.kind == "log" && w.log.Some?)
    ensures Unwrap(w).Some? ==>
              var r := WrapEvent(Unwrap(w).value);
              && r.Some? && r.value.kind == w.kind
              && (r.value.metric.Some? ==> r.value.metric == w.metric)
              && (r.value.span.Some? ==> r.value.span == w.span)
              && (r.value.log.Some? ==> r.value.log == w.log)
  {
    assert "metric"[0] != "span"[0] && "metric"[0] != "log"[0] && "span"[0] != "log"[0];
  }
}
