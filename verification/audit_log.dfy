/** evesdropLogger.Log: render one request/response pair as the audit
    record, a fixed sequence of sections. */
module AuditLog {
  import opened Common
  import Decimal
  import opened BodyReplay
  import opened ResponseTee

  /** The moment the log record carries. */
  datatype Instant = Instant(unixNanos: int, zoneOffsetSeconds: int)

  /** The layout handed to time.Format. */
  const TimeLayout := "02/Jan/2006:15:04:05 -0700"

  /** Library code whose output the record includes but whose workings are
      not part of this model. */
  datatype Env = Env(
    stripPort: string -> string,             // loggers.StripPort
    apacheUser: Url -> string,               // loggers.ApacheUser of the URL's user
    requestUri: Url -> string,               // url.URL.RequestURI
    formatTime: (Instant, string) -> string, // time.Time.Format
    headerText: Header -> string,            // http.Header.Write
    status: Sink -> int,                     // loggers.Capture.Status
    size: Sink -> int)                       // loggers.Capture.Size

  /** weblogs.LogRecord: the snapshot, the capture and the time. */
  datatype LogRecord = LogRecord(r: Snapshot, w: Capture, t: Instant)

  datatype Section =
    | Summary(line: string)
    | RequestHeader(block: string)
    | RequestBody(body: seq<byte>)
    | ResponseHeader(block: string)
    | ResponseBody(body: seq<byte>)

  /** Position of each kind of section in the record. */
  function Rank(s: Section): nat {
    match s
    case Summary(_) => 0
    case RequestHeader(_) => 1
    case RequestBody(_) => 2
    case ResponseHeader(_) => 3
    case ResponseBody(_) => 4
  }

  const HeaderLabel := "Header:\n"
  const BodyLabel := "Body:\n"
  const ResponseHeaderLabel := "Response header: \n"
  const ResponseBodyLabel := "Response body:\n"

  /** The summary line up to the closing quote of the request line:
      remote address without port, user, time, method, request URI, proto. */
  function RequestPart(env: Env, rec: LogRecord): string {
    env.stripPort(rec.r.remoteAddr) + " - " + env.apacheUser(rec.r.url)
    + " [" + env.formatTime(rec.t, TimeLayout) + "] \""
    + rec.r.verb + " " + env.requestUri(rec.r.url) + " " + rec.r.proto + "\""
  }

  /** The summary line: the request part, then status and size, closed by
      a newline. */
  function SummaryLine(env: Env, rec: LogRecord): (line: string)
    ensures RequestPart(env, rec) <= line
    ensures |line| > 0 && line[|line| - 1] == '\n'
  {
    RequestPart(env, rec) + " " + Decimal.Format(env.status(rec.w.sink))
    + " " + Decimal.Format(env.size(rec.w.sink)) + "\n"
  }

  /** The sections for the given parts, in the order the record prints them. */
  function Layout(summary: string, reqHeader: string, reqBody: seq<byte>,
                  respHeader: string, respBody: seq<byte>): seq<Section>
  {
    var sm, rqh, rsh := Summary(summary), RequestHeader(reqHeader), ResponseHeader(respHeader);
    if |reqBody| > 0 then
      if |respBody| > 0 then [sm, rqh, RequestBody(reqBody), rsh, ResponseBody(respBody)]
      else [sm, rqh, RequestBody(reqBody), rsh]
    else
      if |respBody| > 0 then [sm, rqh, rsh, ResponseBody(respBody)]
      else [sm, rqh, rsh]
  }

  /** Summary first, and no kind of section before a lower-ranked one. */
  lemma LayoutOrder(summary: string, reqHeader: string, reqBody: seq<byte>,
                    respHeader: string, respBody: seq<byte>)
    ensures var ss := Layout(summary, reqHeader, reqBody, respHeader, respBody);
      && 3 <= |ss| && ss[0] == Summary(summary)
      && forall i, j :: 0 <= i < j < |ss| ==> Rank(ss[i]) < Rank(ss[j])
  {
  }

  /** Which sections are present, and what each holds. */
  lemma LayoutMembers(summary: string, reqHeader: string, reqBody: seq<byte>,
                      respHeader: string, respBody: seq<byte>)
    ensures var ss := Layout(summary, reqHeader, reqBody, respHeader, respBody);
      && RequestHeader(reqHeader) in ss
      && ResponseHeader(respHeader) in ss
      && (RequestBody(reqBody) in ss <==> |reqBody| > 0)
      && (ResponseBody(respBody) in ss <==> |respBody| > 0)
      && (forall s :: s in ss && s.RequestHeader? ==> s.block == reqHeader)
      && (forall s :: s in ss && s.ResponseHeader? ==> s.block == respHeader)
      && (forall s :: s in ss && s.RequestBody? ==> s.body == reqBody)
      && (forall s :: s in ss && s.ResponseBody? ==> s.body == respBody)
  {
  }

  /** The record's sections, in order: summary, request header, request
      body, response header, response body, each at most once; the header
      sections always, each body section exactly when its body is non-empty,
      and every section holding the record's own data. */
  function Sections(env: Env, rec: LogRecord): (ss: seq<Section>)
    ensures forall i, j :: 0 <= i < j < |ss| ==> Rank(ss[i]) < Rank(ss[j])
    ensures 3 <= |ss| && ss[0] == Summary(SummaryLine(env, rec))
    ensures RequestHeader(env.headerText(rec.r.header)) in ss
    ensures ResponseHeader(env.headerText(rec.w.recorder.header)) in ss
    ensures RequestBody(rec.r.body) in ss <==> |rec.r.body| > 0
    ensures ResponseBody(rec.w.recorder.body) in ss <==> |rec.w.recorder.body| > 0
    ensures forall s :: s in ss && s.RequestHeader? ==> s.block == env.headerText(rec.r.header)
    ensures forall s :: s in ss && s.ResponseHeader? ==> s.block == env.headerText(rec.w.recorder.header)
    ensures forall s :: s in ss && s.RequestBody? ==> s.body == rec.r.body
    ensures forall s :: s in ss && s.ResponseBody? ==> s.body == rec.w.recorder.body
  {
    var summary := SummaryLine(env, rec);
    var reqHeader := env.headerText(rec.r.header);
    var respHeader := env.headerText(rec.w.recorder.header);
    LayoutOrder(summary, reqHeader, rec.r.body, respHeader, rec.w.recorder.body);
    LayoutMembers(summary, reqHeader, rec.r.body, respHeader, rec.w.recorder.body);
    Layout(summary, reqHeader, rec.r.body, respHeader, rec.w.recorder.body)
  }

  /** The text one section contributes. */
  function Render(s: Section): string {
    match s
    case Summary(line) => line
    case RequestHeader(block) => HeaderLabel + block
    case RequestBody(body) => BodyLabel + AsText(body) + "\n"
    case ResponseHeader(block) => ResponseHeaderLabel + block
    case ResponseBody(body) => ResponseBodyLabel + AsText(body) + "\n"
  }

  function RenderAll(ss: seq<Section>): string
    decreases |ss|
  {
    if |ss| == 0 then "" else Render(ss[0]) + RenderAll(ss[1..])
  }

  lemma {:induction false} RenderAllAppend(a: seq<Section>, b: seq<Section>)
    ensures RenderAll(a + b) == RenderAll(a) + RenderAll(b)
    decreases |a|
  {
    if |a| > 0 {
      assert (a + b)[0] == a[0];
      assert (a + b)[1..] == a[1..] + b;
      RenderAllAppend(a[1..], b);
    } else {
      assert a + b == b;
    }
  }

  /** An optional body block: the label, the body as text and a newline,
      or nothing for an empty body. */
  function BodyBlock(heading: string, body: seq<byte>): string {
    if |body| > 0 then heading + AsText(body) + "\n" else ""
  }

  /** The record text for the given parts, piece after piece. */
  function Text(summary: string, reqHeader: string, reqBody: seq<byte>,
                respHeader: string, respBody: seq<byte>): string
  {
    summary + (HeaderLabel + reqHeader) + BodyBlock(BodyLabel, reqBody)
    + (ResponseHeaderLabel + respHeader) + BodyBlock(ResponseBodyLabel, respBody)
  }

  /** The audit record: the pieces written in order to the log writer,
      opening with the summary line. */
  function Log(env: Env, rec: LogRecord): (out: string)
    ensures SummaryLine(env, rec) <= out
  {
    Text(SummaryLine(env, rec), env.headerText(rec.r.header), rec.r.body,
         env.headerText(rec.w.recorder.header), rec.w.recorder.body)
  }

  /** The text of the sections for the given parts. */
  lemma LayoutText(summary: string, reqHeader: string, reqBody: seq<byte>,
                   respHeader: string, respBody: seq<byte>)
    ensures RenderAll(Layout(summary, reqHeader, reqBody, respHeader, respBody)) ==
      Text(summary, reqHeader, reqBody, respHeader, respBody)
  {
    var a := [Summary(summary), RequestHeader(reqHeader)];
    var b := if |reqBody| > 0 then [RequestBody(reqBody)] else [];
    var c := [ResponseHeader(respHeader)];
    var d := if |respBody| > 0 then [ResponseBody(respBody)] else [];
    assert Layout(summary, reqHeader, reqBody, respHeader, respBody) == a + b + c + d;
    RenderAllAppend(a + b + c, d);
    RenderAllAppend(a + b, c);
    RenderAllAppend(a, b);
    assert a[1..][1..] == [];
    assert RenderAll(a) == summary + (HeaderLabel + reqHeader);
    assert RenderAll(b) == BodyBlock(BodyLabel, reqBody);
    assert RenderAll(c) == ResponseHeaderLabel + respHeader;
    assert RenderAll(d) == BodyBlock(ResponseBodyLabel, respBody);
  }

  /** In a text split as x + y, the part after x is y. */
  lemma Window(out: string, x: string, y: string, k: nat)
    requires out == x + y && k <= |y|
    ensures out[..|x|] == x
    ensures out[|x|..] == y
    ensures out[|x|..|x| + k] == y[..k]
  {
  }

  /** The start of a record: the summary line, then the "Header:" label. */
  lemma HeadText(out: string, summary: string, reqHeader: string, rest: string)
    requires out == summary + (HeaderLabel + reqHeader) + rest
    ensures |summary| + |HeaderLabel| <= |out|
    ensures out[..|summary|] == summary
    ensures out[|summary|..|summary| + |HeaderLabel|] == HeaderLabel
  {
    var tail := HeaderLabel + (reqHeader + rest);
    assert out == summary + tail;
    Window(out, summary, tail, |HeaderLabel|);
    Window(tail, HeaderLabel, reqHeader + rest, 0);
  }

  /** After the request header block: "Body:" stands there exactly when the
      request body is non-empty, since otherwise the response header label
      follows. */
  lemma RequestBodyText(out: string, front: string, reqBody: seq<byte>, rest: string)
    requires out == front + BodyBlock(BodyLabel, reqBody) + rest
    requires ResponseHeaderLabel <= rest
    ensures |front| + |BodyLabel| <= |out|
    ensures |front| + |BodyBlock(BodyLabel, reqBody)| <= |out|
    ensures out[|front|..|front| + |BodyLabel|] == BodyLabel <==> |reqBody| > 0
    ensures |reqBody| > 0 ==>
      out[|front|..|front| + |BodyBlock(BodyLabel, reqBody)|] == BodyLabel + AsText(reqBody) + "\n"
  {
    var b := BodyBlock(BodyLabel, reqBody);
    var y := b + rest;
    assert out == front + y;
    Window(out, front, y, |BodyLabel|);
    Window(out, front, y, |b|);
    Window(y, b, rest, 0);
    if |reqBody| == 0 {
      assert y == rest;
      assert y[0] == 'R' && BodyLabel[0] == 'B';
    } else {
      assert b == BodyLabel + (AsText(reqBody) + "\n");
      Window(b, BodyLabel, AsText(reqBody) + "\n", 0);
    }
  }

  /** The end of a record: the response header label and block, then a
      "Response body:" block exactly when the response body is non-empty. */
  lemma ResponseText(out: string, front: string, respHeader: string, respBody: seq<byte>)
    requires out == front + (ResponseHeaderLabel + respHeader) + BodyBlock(ResponseBodyLabel, respBody)
    ensures |front| + |ResponseHeaderLabel| + |respHeader| <= |out|
    ensures out[|front|..|front| + |ResponseHeaderLabel|] == ResponseHeaderLabel
    ensures var q := |front| + |ResponseHeaderLabel| + |respHeader|;
      && (q < |out| <==> |respBody| > 0)
      && (q < |out| ==> out[q..] == ResponseBodyLabel + AsText(respBody) + "\n")
  {
    var rh := ResponseHeaderLabel + respHeader;
    var rb := BodyBlock(ResponseBodyLabel, respBody);
    assert out == front + (rh + rb);
    Window(out, front, rh + rb, |ResponseHeaderLabel|);
    Window(rh + rb, ResponseHeaderLabel, respHeader + rb, 0);
    assert out == (front + rh) + rb;
    Window(out, front + rh, rb, 0);
  }

  /** Offset of the optional request body block. */
  function BodyOffset(env: Env, rec: LogRecord): nat {
    |SummaryLine(env, rec)| + |HeaderLabel| + |env.headerText(rec.r.header)|
  }

  /** Offset of the response header label. */
  function ResponseHeaderOffset(env: Env, rec: LogRecord): nat {
    BodyOffset(env, rec) + |BodyBlock(BodyLabel, rec.r.body)|
  }

  /** Offset of the optional response body block. */
  function ResponseBodyOffset(env: Env, rec: LogRecord): nat {
    ResponseHeaderOffset(env, rec) + |ResponseHeaderLabel| + |env.headerText(rec.w.recorder.header)|
  }

  /** Generic form of the record's opening. */
  lemma TextHead(summary: string, reqHeader: string, reqBody: seq<byte>,
                 respHeader: string, respBody: seq<byte>)
    ensures var out := Text(summary, reqHeader, reqBody, respHeader, respBody);
      && |summary| + |HeaderLabel| <= |out|
      && out[..|summary|] == summary
      && out[|summary|..|summary| + |HeaderLabel|] == HeaderLabel
  {
    var out := Text(summary, reqHeader, reqBody, respHeader, respBody);
    var front := summary + (HeaderLabel + reqHeader);
    var b := BodyBlock(BodyLabel, reqBody);
    var rh := ResponseHeaderLabel + respHeader;
    var rb := BodyBlock(ResponseBodyLabel, respBody);
    assert out == ((front + b) + rh) + rb;
    ConcatAssoc(front, b, rh);
    ConcatAssoc(front, b + rh, rb);
    HeadText(out, summary, reqHeader, (b + rh) + rb);
  }

  /** Generic form of the optional request body block. */
  lemma TextRequestBody(summary: string, reqHeader: string, reqBody: seq<byte>,
                        respHeader: string, respBody: seq<byte>)
    ensures var out := Text(summary, reqHeader, reqBody, respHeader, respBody);
      var p := |summary| + |HeaderLabel| + |reqHeader|;
      var m := p + |BodyBlock(BodyLabel, reqBody)|;
      && p + |BodyLabel| <= |out|
      && m <= |out|
      && (out[p..p + |BodyLabel|] == BodyLabel <==> |reqBody| > 0)
      && (|reqBody| > 0 ==> out[p..m] == BodyLabel + AsText(reqBody) + "\n")
  {
    var out := Text(summary, reqHeader, reqBody, respHeader, respBody);
    var front := summary + (HeaderLabel + reqHeader);
    var b := BodyBlock(BodyLabel, reqBody);
    var rh := ResponseHeaderLabel + respHeader;
    var rb := BodyBlock(ResponseBodyLabel, respBody);
    assert out == (front + b + rh) + rb;
    ConcatAssoc(front + b, rh, rb);
    Window(rh, ResponseHeaderLabel, respHeader, 0);
    Window(rh + rb, rh, rb, 0);
    RequestBodyText(out, front, reqBody, rh + rb);
  }

  /** Generic form of the record's closing. */
  lemma TextResponse(summary: string, reqHeader: string, reqBody: seq<byte>,
                     respHeader: string, respBody: seq<byte>)
    ensures var out := Text(summary, reqHeader, reqBody, respHeader, respBody);
      var m := |summary| + |HeaderLabel| + |reqHeader| + |BodyBlock(BodyLabel, reqBody)|;
      var q := m + |ResponseHeaderLabel| + |respHeader|;
      && q <= |out|
      && out[m..m + |ResponseHeaderLabel|] == ResponseHeaderLabel
      && (q < |out| <==> |respBody| > 0)
      && (q < |out| ==> out[q..] == ResponseBodyLabel + AsText(respBody) + "\n")
  {
    var out := Text(summary, reqHeader, reqBody, respHeader, respBody);
    var front := summary + (HeaderLabel + reqHeader) + BodyBlock(BodyLabel, reqBody);
    ResponseText(out, front, respHeader, respBody);
  }

  /** The record is its sections rendered in order. */
  lemma LogIsRenderedSections(env: Env, rec: LogRecord)
    ensures Log(env, rec) == RenderAll(Sections(env, rec))
  {
    LayoutText(SummaryLine(env, rec), env.headerText(rec.r.header), rec.r.body,
               env.headerText(rec.w.recorder.header), rec.w.recorder.body);
  }

  /** The record opens with the summary line, followed by "Header:". */
  lemma LogStartsWithSummary(env: Env, rec: LogRecord)
    ensures var sum := SummaryLine(env, rec);
      && |sum| + |HeaderLabel| <= |Log(env, rec)|
      && Log(env, rec)[..|sum|] == sum
      && Log(env, rec)[|sum|..|sum| + |HeaderLabel|] == HeaderLabel
  {
    TextHead(SummaryLine(env, rec), env.headerText(rec.r.header), rec.r.body,
             env.headerText(rec.w.recorder.header), rec.w.recorder.body);
  }

  /** After the request header block the record holds "Body:" exactly when
      the request body is non-empty, and then the body and a newline. */
  lemma LogRequestBody(env: Env, rec: LogRecord)
    ensures var out := Log(env, rec);
      var p := BodyOffset(env, rec);
      && p + |BodyLabel| <= |out|
      && ResponseHeaderOffset(env, rec) <= |out|
      && (out[p..p + |BodyLabel|] == BodyLabel <==> |rec.r.body| > 0)
      && (|rec.r.body| > 0 ==>
            out[p..ResponseHeaderOffset(env, rec)] == BodyLabel + AsText(rec.r.body) + "\n")
  {
    var summary, reqHeader := SummaryLine(env, rec), env.headerText(rec.r.header);
    var respHeader := env.headerText(rec.w.recorder.header);
    TextRequestBody(summary, reqHeader, rec.r.body, respHeader, rec.w.recorder.body);
  }

  /** The record then holds "Response header: " and the response header
      block, and runs past it exactly when the response body is non-empty,
      with "Response body:", the body and a newline. */
  lemma LogResponse(env: Env, rec: LogRecord)
    ensures var out := Log(env, rec);
      var m := ResponseHeaderOffset(env, rec);
      var q := ResponseBodyOffset(env, rec);
      && q <= |out|
      && out[m..m + |ResponseHeaderLabel|] == ResponseHeaderLabel
      && (q < |out| <==> |rec.w.recorder.body| > 0)
      && (q < |out| ==> out[q..] == ResponseBodyLabel + AsText(rec.w.recorder.body) + "\n")
  {
    TextResponse(SummaryLine(env, rec), env.headerText(rec.r.header), rec.r.body,
                 env.headerText(rec.w.recorder.header), rec.w.recorder.body);
  }

  /** The text before and after the last occurrence of sep, if any. */
  function SplitLast(s: string, sep: char): Option<(string, string)>
    decreases |s|
  {
    if |s| == 0 then None
    else if s[|s| - 1] == sep then Some((s[..|s| - 1], []))
    else match SplitLast(s[..|s| - 1], sep)
      case None => None
      case Some((front, back)) => Some((front, back + [s[|s| - 1]]))
  }

  lemma {:induction false} SplitLastAppend(front: string, sep: char, back: string)
    requires forall i :: 0 <= i < |back| ==> back[i] != sep
    ensures SplitLast(front + [sep] + back, sep) == Some((front, back))
    decreases |back|
  {
    var s := front + [sep] + back;
    if |back| == 0 {
      assert s[..|s| - 1] == front;
    } else {
      var shorter := back[..|back| - 1];
      assert s[..|s| - 1] == front + [sep] + shorter;
      SplitLastAppend(front, sep, shorter);
      assert shorter + [s[|s| - 1]] == back;
    }
  }

  /** Reads the status and size back from the end of a summary line: the
      last two space-separated fields before the final newline. */
  function TrailingNumbers(line: string): Option<(int, int)> {
    if |line| == 0 || line[|line| - 1] != '\n' then None
    else match SplitLast(line[..|line| - 1], ' ')
      case None => None
      case Some((front, last)) =>
        match SplitLast(front, ' ')
        case None => None
        case Some((_, second)) =>
          match (Decimal.Parse(second), Decimal.Parse(last))
          case (Some(status), Some(size)) => Some((status, size))
          case _ => None
  }

  /** Any text followed by two rendered integers and a newline reads back
      as those integers. */
  lemma TrailingNumbersOfFormat(front: string, status: int, size: int)
    ensures TrailingNumbers(front + " " + Decimal.Format(status) + " " + Decimal.Format(size) + "\n")
         == Some((status, size))
  {
    var st, sz := Decimal.Format(status), Decimal.Format(size);
    var mid := front + [' '] + st;
    var line := front + " " + st + " " + sz + "\n";
    assert line == mid + [' '] + sz + "\n";
    assert line[..|line| - 1] == mid + [' '] + sz;
    SplitLastAppend(mid, ' ', sz);
    SplitLastAppend(front, ' ', st);
    Decimal.ParseFormat(status);
    Decimal.ParseFormat(size);
  }

  /** The summary line ends with the capture's status and size, which read
      back unchanged whatever the request part holds. */
  lemma SummaryEndsWithStatusAndSize(env: Env, rec: LogRecord)
    ensures TrailingNumbers(SummaryLine(env, rec)) == Some((env.status(rec.w.sink), env.size(rec.w.sink)))
  {
    TrailingNumbersOfFormat(RequestPart(env, rec), env.status(rec.w.sink), env.size(rec.w.sink));
  }
}
