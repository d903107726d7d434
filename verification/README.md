# Audit capture of a logging reverse proxy, in Dafny

The proxy forwards every request to one upstream host and writes an audit
record for each exchange. This project models the audit-capture layer that
wraps the reverse proxy in `proxy.go`. That layer has three parts:

- **Response tee** (`capture.Write`, `capture.WriteHeader`,
  `evesdropLogger.NewCapture`). Every body write goes to the real sink
  first. Only when the sink reports no error are the bytes it accepted
  (`buf[:numWritten]`) appended to a private recorder. `WriteHeader` points
  the recorder's header map at the sink's header map before it forwards the
  status. The map is shared, not copied; see Left out.
- **Body replay** (`evesdropLogger.NewSnapshot`). It drains the request
  body into a byte slice and drops any read error. It then replaces the
  body with a reader over exactly those bytes.
- **Audit formatter** (`evesdropLogger.Log`). It renders a summary line,
  then `Header:` and the request header block, then an optional `Body:`
  block, then `Response header: ` and the recorder's header block, then an
  optional `Response body:` block.

Modules:

- `Common`: bytes, `Option`, the header map, and Go's `string(b)` conversion.
- `Decimal`: Go's `%d` verb, with a parser that inverts it.
- `BodyReader`: readers and `ioutil.ReadAll`. A reader is either the inbound
  connection, given as its sequence of Read answers, or a `bytes.Buffer`.
- `BodyReplay`: `NewSnapshot`.
- `ResponseTee`: the capture state and its transitions. `Run` folds a
  sequence of calls over the capture.
- `AuditLog`: `Log`, as the text written piece by piece and as a list of sections.

Foreign code is passed in, not modelled. The sink's answer to each write is
a `SinkReply(n, err)` parameter with `n` no larger than the buffer, as the
io.Writer contract requires. The sink delivers the first `n` bytes either
way. `loggers.StripPort`, `loggers.ApacheUser`, `URL.RequestURI`,
`time.Time.Format`, `http.Header.Write` and the inner capture's `Status` and
`Size` are the fields of an `Env` of total functions. Log text is a Dafny
string in which each character stands for one byte. The text the `Env`
functions return is taken as already-encoded bytes: the model does not
constrain its characters to values below 256.

## Model

| member | source | states |
|---|---|---|
| ResponseTee.Write | proxy.go:34-40 | The sink's (n, err) is returned unchanged. The sink gets the first n bytes. On success the recorder body grows by exactly `buf[:n]`. On error it is unchanged, even after a partial write. The recorder header is untouched. |
| ResponseTee.WriteHeader | proxy.go:42-45 | The recorder header becomes the sink's header set as it stood before the forward. The status is appended to what the sink received. The recorder body and the sink's bytes are untouched. |
| ResponseTee.NewCapture | proxy.go:60-63 | The capture forwards to the given writer unchanged, and its recorder starts with an empty body and an empty header map, as `httptest.NewRecorder` does. FreshCaptureRecords carries this through any sequence of calls. |
| ResponseTee.Step | proxy.go:34-45 | One call on the capture, Write or WriteHeader. The recorder body grows by the prefix the sink accepted, and only when the sink reported no error. The sink gets the accepted prefix, or the status, appended. The sink's header set is unchanged. The recorder header becomes that header set on WriteHeader and is otherwise unchanged. |
| ResponseTee.Run | proxy.go:34-45 | The capture after a sequence of calls, in order. No call changes the sink's header set. RunRecorderBody, RunSink and RunRecorderHeader describe the rest of its result. |
| ResponseTee.RunRecorderBody | proxy.go:34-40 | Across any sequence of calls, the recorder body grows by the in-order concatenation of the accepted prefixes of the successful writes, and by nothing else. |
| ResponseTee.RunSink | proxy.go:34-45 | Across any sequence of calls, the sink receives every accepted prefix, failed writes included, and every status, in call order. |
| ResponseTee.RunRecorderHeader | proxy.go:42-45 | After any calls, the recorder header is the sink's header set if WriteHeader was called. Otherwise it is what it was before. |
| ResponseTee.FreshCaptureRecords | proxy.go:60-63 | A fresh capture's recorder body is exactly the accepted prefixes of the successful writes. Its header is empty until WriteHeader is called. |
| ResponseTee.AcceptedIsDelivered | proxy.go:36-37 | When no write fails, the recorded bytes are all the bytes the sink delivered. |
| ResponseTee.AcceptedBounded | proxy.go:36-38 | The recorded bytes never outnumber the delivered bytes. |
| ResponseTee.TeeLossless | proxy.go:34-40 | A fresh capture over a sink that has sent nothing, with no failed write, records exactly what the client was sent. |
| BodyReader.Read | proxy.go:53-55 | One Read yields a piece of the reader's content, and the rest follows in the next reader. An error ends the content and is the reader's failure. A buffer gives at most the requested number of bytes. It answers EOF only when empty, and never fails. |
| BodyReader.ReadAll | proxy.go:53 | Draining a reader returns all of its content up to the first error, including bytes read before a failure. It returns the failure, and EOF counts as success. |
| BodyReader.ConsumePrefix | proxy.go:55 | Any consumer of a reader sees a prefix of its content. Once it meets an error it has seen all of the content, and the error is the reader's. |
| BodyReader.BufferDrains | proxy.go:55 | Reads that each ask for at least one byte, one more read than the buffer has bytes, reach EOF. |
| BodyReplay.NewSnapshot | proxy.go:50-58 | The snapshot body is the drained content, even when the drain failed. The snapshot header and request-line fields are the request's. The forwarded request differs only in its body, a buffer over the snapshot body that never fails. |
| BodyReplay.ReplayIsFaithful | proxy.go:53-55 | The replacement body yields a prefix of the captured bytes and never a failure. On EOF it has yielded all of them. A consumer that asks for at least one byte per read, with one read more than there are bytes, gets all of them and then EOF. |
| AuditLog.Log | proxy.go:66-91 | The record written for one request. Its text opens with the summary line. LogIsRenderedSections shows it is the sections rendered in order. LogStartsWithSummary, LogRequestBody and LogResponse pin down where each label and body stands. |
| AuditLog.SummaryLine | proxy.go:69-77 | The summary line opens with the request part (address, user, time, request line) and ends with a newline. SummaryEndsWithStatusAndSize reads the status and size back from its end. |
| AuditLog.Sections | proxy.go:66-91 | The record's sections appear in strictly increasing rank: summary, request header, request body, response header, response body. Each appears at most once. The summary and both header sections are always present. Each body section is present exactly when its body is non-empty. Every section carries the record's own data. |
| AuditLog.LogIsRenderedSections | proxy.go:69-90 | The record's text is its sections rendered one after another, so the order and presence of sections hold of the text too. |
| AuditLog.LogStartsWithSummary | proxy.go:69-78 | The record's text opens with the summary line, followed by `Header:` and a newline. |
| AuditLog.LogRequestBody | proxy.go:78-83 | After the request header block, `Body:` and a newline stand exactly when the request body is non-empty. They are then followed by the body and a newline. |
| AuditLog.LogResponse | proxy.go:84-90 | `Response header: ` and a newline follow. The text runs past the response header block exactly when the recorder body is non-empty. It then ends with `Response body:`, the body and a newline. |
| AuditLog.SummaryEndsWithStatusAndSize | proxy.go:69-77 | The last two space-separated fields of the summary line read back as the capture's status and size, whatever the earlier fields hold. |
| Decimal.Format | proxy.go:69 | The `%d` rendering of an integer is non-empty and made of digits with an optional leading `-`, which appears exactly when the integer is negative and is then followed by at least one digit. There are no leading zeros: the first digit is `0` only when the rendering is `0` itself. ParseFormat shows it loses nothing. |
| Common.AsText | proxy.go:82-89 | `string(b)` keeps the length and every byte value of the body. |
| Decimal.ParseFormat | proxy.go:69-77 | The `%d` rendering of every integer, negative ones included, parses back to that integer. |

## Left out

- `main` (proxy.go:93-105) is left out. It covers flag and URL parsing, handler registration, the `httputil` reverse proxy and `ListenAndServe`, which are process startup and network I/O.
- `loggers.NewSnapshot`, `loggers.Capture` and the weblogs handler are not part of this model. The snapshot is assumed to copy the remote address, method, URL and protocol from the request. The inner capture's status and size bookkeeping, including any default 200 status, is the `Env.status` and `Env.size` oracle.
- `loggers.StripPort`, `loggers.ApacheUser`, `URL.RequestURI`, `time.Time.Format` and `http.Header.Write` are `Env` functions. Their byte layout and header key ordering are not modelled. The time layout string is kept as `TimeLayout`.
- The `httptest.ResponseRecorder` is modelled only as a header map and a body that starts empty and grows by appends. Its `Code` and `wroteHeader` fields are not modelled. Recent Go versions of `ResponseRecorder.Write` also set a sniffed `Content-Type` in the recorder's header map on the first write. After WriteHeader that map is the sink's own header map (proxy.go:43). The model does not add that entry.
- Go map aliasing is not modelled. proxy.go:43 and proxy.go:56 assign header map references, so later edits to the map would show through both names. The model takes the header's value at call time and has no operation that edits a header after that. Handler edits through the inherited `Header()` method are therefore left out.
- `r.Body.Close()` (proxy.go:54) has no state in the model. The original reader is simply no longer reachable from the forwarded request.
- The inbound request body is modelled as a finite sequence of Read answers, so `BodyReader.ReadAll` always ends. A body that never ends is outside the model. On such a body `ioutil.ReadAll` (proxy.go:53) never returns and keeps growing its buffer, and the request is never forwarded.
- `ioutil.ReadAll` grows its buffer as it reads. The model offers a constant `ReadSize` of 512 to every Read. Only the fact that each Read has room for at least one byte matters to the results.
- The type assertions at proxy.go:67-68 would panic on other snapshot or capture types. The model's types rule those out.
- Per-request goroutines and `gorilla/context` clearing are runtime plumbing and are not modelled.
- A read error while draining the request body is discarded (proxy.go:53), and the snapshot holds the bytes read before the error. The forwarded request then carries only those bytes, and the record logs them as if they were the whole body. The contract of `BodyReplay.NewSnapshot` states this.
- AuditLog.SummaryEndsWithStatusAndSize: reads back only the status and size. The order of the six earlier fields is fixed by the definition of `RequestPart`, not by a separate lemma, because their text comes from foreign functions and may itself contain spaces.
