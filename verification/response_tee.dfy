/** The capture type: a response writer that forwards to the real sink and
    records what the sink accepted into a private recorder. */
module ResponseTee {
  import opened Common

  /** The wrapped writer (loggers.Capture over the client's ResponseWriter):
      its header set, the body bytes it has delivered, and the statuses
      forwarded to it. */
  datatype Sink = Sink(header: Header, sent: seq<byte>, statuses: seq<int>)

  /** The sink's answer to one body write: how many bytes it took and the
      error, if any. By the io.Writer contract n never exceeds the buffer. */
  datatype SinkReply = SinkReply(n: nat, err: Option<string>)

  /** The httptest.ResponseRecorder parts the audit log reads. */
  datatype Recorder = Recorder(header: Header, body: seq<byte>)

  datatype Capture = Capture(sink: Sink, recorder: Recorder)

  /** A body write: the capture after it, and the (n, err) handed back. */
  datatype WriteResult = WriteResult(c: Capture, n: nat, err: Option<string>)

  /** evesdropLogger.NewCapture: wrap w, with an empty recorder. */
  function NewCapture(w: Sink): (c: Capture)
    ensures c.sink == w
    ensures c.recorder.body == [] && c.recorder.header == map[]
  {
    Capture(w, Recorder(map[], []))
  }

  /** The sink takes the first n bytes of buf. */
  function SinkWrite(w: Sink, buf: seq<byte>, reply: SinkReply): Sink
    requires reply.n <= |buf|
  {
    w.(sent := w.sent + buf[..reply.n])
  }

  /** capture.Write: the sink first; only on success do exactly the bytes it
      took go to the recorder. The sink's answer is returned unchanged. */
  function Write(c: Capture, buf: seq<byte>, reply: SinkReply): (res: WriteResult)
    requires reply.n <= |buf|
    ensures res.n == reply.n && res.err == reply.err
    ensures res.c.sink.sent == c.sink.sent + buf[..reply.n]
    ensures res.c.sink.header == c.sink.header && res.c.sink.statuses == c.sink.statuses
    ensures reply.err.None? ==> res.c.recorder.body == c.recorder.body + buf[..reply.n]
    ensures reply.err.Some? ==> res.c.recorder.body == c.recorder.body
    ensures res.c.recorder.header == c.recorder.header
  {
    var sink := SinkWrite(c.sink, buf, reply);
    var recorder :=
      if reply.err.None? then c.recorder.(body := c.recorder.body + buf[..reply.n])
      else c.recorder;
    WriteResult(Capture(sink, recorder), reply.n, reply.err)
  }

  /** capture.WriteHeader: the recorder takes the sink's header set as it
      stands before the status is forwarded to the sink. */
  function WriteHeader(c: Capture, status: int): (res: Capture)
    ensures res.recorder.header == c.sink.header
    ensures res.recorder.body == c.recorder.body
    ensures res.sink.statuses == c.sink.statuses + [status]
    ensures res.sink.sent == c.sink.sent && res.sink.header == c.sink.header
  {
    var recorded := c.recorder.(header := c.sink.header);
    Capture(c.sink.(statuses := c.sink.statuses + [status]), recorded)
  }

  /** A call the reverse proxy makes on the capture. */
  datatype Call =
    | WriteCall(buf: seq<byte>, reply: SinkReply)
    | HeaderCall(status: int)

  predicate Fits(call: Call) {
    call.WriteCall? ==> call.reply.n <= |call.buf|
  }

  predicate WellFormed(calls: seq<Call>) {
    forall i :: 0 <= i < |calls| ==> Fits(calls[i])
  }

  lemma WellFormedTail(calls: seq<Call>)
    requires |calls| > 0 && WellFormed(calls)
    ensures Fits(calls[0]) && WellFormed(calls[1..])
  {
    forall i | 0 <= i < |calls[1..]| ensures Fits(calls[1..][i]) {
      assert calls[1..][i] == calls[i + 1];
    }
  }

  /** What one call adds to the recorder body: the accepted prefix of a
      write the sink answered without error, and nothing otherwise. */
  function AcceptedBy(call: Call): seq<byte>
    requires Fits(call)
  {
    match call
    case WriteCall(buf, reply) => if reply.err.None? then buf[..reply.n] else []
    case HeaderCall(_) => []
  }

  /** What one call hands the client: the prefix the sink took, error or not. */
  function DeliveredBy(call: Call): seq<byte>
    requires Fits(call)
  {
    match call
    case WriteCall(buf, reply) => buf[..reply.n]
    case HeaderCall(_) => []
  }

  function StatusesBy(call: Call): seq<int> {
    if call.HeaderCall? then [call.status] else []
  }

  /** The capture after one call. */
  function Step(c: Capture, call: Call): (next: Capture)
    requires Fits(call)
    ensures next.recorder.body == c.recorder.body + AcceptedBy(call)
    ensures next.sink.sent == c.sink.sent + DeliveredBy(call)
    ensures next.sink.statuses == c.sink.statuses + StatusesBy(call)
    ensures next.sink.header == c.sink.header
    ensures next.recorder.header == if call.HeaderCall? then c.sink.header else c.recorder.header
  {
    match call
    case WriteCall(buf, reply) => Write(c, buf, reply).c
    case HeaderCall(status) => WriteHeader(c, status)
  }

  /** The capture after the calls, in order. No call edits the sink's
      header set; only WriteHeader reads it. */
  function Run(c: Capture, calls: seq<Call>): (r: Capture)
    requires WellFormed(calls)
    ensures r.sink.header == c.sink.header
    decreases |calls|
  {
    if |calls| == 0 then c
    else Run(Step(c, calls[0]), calls[1..])
  }

  /** Reference: the in-order concatenation of the prefixes the sink accepted
      in the writes it answered without error. */
  function Accepted(calls: seq<Call>): seq<byte>
    requires WellFormed(calls)
    decreases |calls|
  {
    if |calls| == 0 then [] else AcceptedBy(calls[0]) + Accepted(calls[1..])
  }

  /** Reference: every byte the sink took, failed writes included. */
  function Delivered(calls: seq<Call>): seq<byte>
    requires WellFormed(calls)
    decreases |calls|
  {
    if |calls| == 0 then [] else DeliveredBy(calls[0]) + Delivered(calls[1..])
  }

  /** Reference: the statuses passed to WriteHeader, in order. */
  function Statuses(calls: seq<Call>): seq<int>
    decreases |calls|
  {
    if |calls| == 0 then []
    else StatusesBy(calls[0]) + Statuses(calls[1..])
  }

  predicate HasHeaderCall(calls: seq<Call>) {
    exists i :: 0 <= i < |calls| && calls[i].HeaderCall?
  }

  predicate NoFailures(calls: seq<Call>) {
    forall i :: 0 <= i < |calls| ==> calls[i].WriteCall? ==> calls[i].reply.err.None?
  }

  /** The tee invariant: across any calls, the recorder body grows by exactly
      the accepted prefixes of the successful writes, in order. */
  lemma {:induction false} RunRecorderBody(c: Capture, calls: seq<Call>)
    requires WellFormed(calls)
    ensures Run(c, calls).recorder.body == c.recorder.body + Accepted(calls)
    decreases |calls|
  {
    if |calls| > 0 {
      WellFormedTail(calls);
      var next := Step(c, calls[0]);
      RunRecorderBody(next, calls[1..]);
      assert Run(c, calls) == Run(next, calls[1..]);
      assert Accepted(calls) == AcceptedBy(calls[0]) + Accepted(calls[1..]);
      ConcatAssoc(c.recorder.body, AcceptedBy(calls[0]), Accepted(calls[1..]));
    }
  }

  /** The sink receives every byte it accepted and every status, in order. */
  lemma {:induction false} RunSink(c: Capture, calls: seq<Call>)
    requires WellFormed(calls)
    ensures Run(c, calls).sink.sent == c.sink.sent + Delivered(calls)
    ensures Run(c, calls).sink.statuses == c.sink.statuses + Statuses(calls)
    decreases |calls|
  {
    if |calls| > 0 {
      WellFormedTail(calls);
      var next := Step(c, calls[0]);
      RunSink(next, calls[1..]);
      assert Run(c, calls) == Run(next, calls[1..]);
      assert Delivered(calls) == DeliveredBy(calls[0]) + Delivered(calls[1..]);
      assert Statuses(calls) == StatusesBy(calls[0]) + Statuses(calls[1..]);
      ConcatAssoc(c.sink.sent, DeliveredBy(calls[0]), Delivered(calls[1..]));
      ConcatAssoc(c.sink.statuses, StatusesBy(calls[0]), Statuses(calls[1..]));
    }
  }

  /** The recorder header is the sink's header set once WriteHeader has been
      called, and otherwise whatever it was before. */
  lemma {:induction false} RunRecorderHeader(c: Capture, calls: seq<Call>)
    requires WellFormed(calls)
    ensures HasHeaderCall(calls) ==> Run(c, calls).recorder.header == c.sink.header
    ensures !HasHeaderCall(calls) ==> Run(c, calls).recorder.header == c.recorder.header
    decreases |calls|
  {
    if |calls| > 0 {
      WellFormedTail(calls);
      var next := Step(c, calls[0]);
      RunRecorderHeader(next, calls[1..]);
      assert next.sink.header == c.sink.header;
      if calls[0].HeaderCall? {
        assert HasHeaderCall(calls);
      } else {
        assert HasHeaderCall(calls) <==> HasHeaderCall(calls[1..]) by {
          if HasHeaderCall(calls) {
            var i :| 0 <= i < |calls| && calls[i].HeaderCall?;
            assert calls[1..][i - 1] == calls[i];
          }
          if HasHeaderCall(calls[1..]) {
            var i :| 0 <= i < |calls[1..]| && calls[1..][i].HeaderCall?;
            assert calls[i + 1] == calls[1..][i];
          }
        }
      }
    }
  }

  /** A fresh capture's recorder holds exactly the accepted prefixes, and an
      empty header set until WriteHeader is called. */
  lemma FreshCaptureRecords(w: Sink, calls: seq<Call>)
    requires WellFormed(calls)
    ensures Run(NewCapture(w), calls).recorder.body == Accepted(calls)
    ensures Run(NewCapture(w), calls).recorder.header == if HasHeaderCall(calls) then w.header else map[]
  {
    RunRecorderBody(NewCapture(w), calls);
    RunRecorderHeader(NewCapture(w), calls);
  }

  /** When no write fails, the accepted prefixes are everything delivered. */
  lemma {:induction false} AcceptedIsDelivered(calls: seq<Call>)
    requires WellFormed(calls) && NoFailures(calls)
    ensures Accepted(calls) == Delivered(calls)
    decreases |calls|
  {
    if |calls| > 0 {
      WellFormedTail(calls);
      assert NoFailures(calls[1..]) by {
        forall i | 0 <= i < |calls[1..]| ensures calls[1..][i] == calls[i + 1] { }
      }
      AcceptedIsDelivered(calls[1..]);
    }
  }

  /** A failed write keeps its bytes out of the recorder: the recorder never
      holds more than the sink delivered. */
  lemma {:induction false} AcceptedBounded(calls: seq<Call>)
    requires WellFormed(calls)
    ensures |Accepted(calls)| <= |Delivered(calls)|
    decreases |calls|
  {
    if |calls| > 0 {
      WellFormedTail(calls);
      AcceptedBounded(calls[1..]);
    }
  }

  /** The tee is lossless: when a fresh capture wraps a sink that has sent
      nothing and no write fails, the recorder body is byte for byte what
      the client was sent. */
  lemma TeeLossless(w: Sink, calls: seq<Call>)
    requires WellFormed(calls) && NoFailures(calls) && w.sent == []
    ensures Run(NewCapture(w), calls).recorder.body == Run(NewCapture(w), calls).sink.sent
  {
    FreshCaptureRecords(w, calls);
    RunSink(NewCapture(w), calls);
    AcceptedIsDelivered(calls);
  }
}
