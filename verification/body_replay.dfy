/** evesdropLogger.NewSnapshot: drain the request body for the audit log and
    hand the forwarding step a fresh reader over exactly the drained bytes. */
module BodyReplay {
  import opened Common
  import opened BodyReader

  /** The request URL; rendering it (RequestURI, its user part) is foreign. */
  datatype Url = Url(text: string)

  /** The parts of an inbound http.Request the audit layer touches. */
  datatype Request = Request(
    remoteAddr: string,
    verb: string,
    url: Url,
    proto: string,
    header: Header,
    body: Reader)

  /** The snapshot type: the request line fields loggers.NewSnapshot records (verb is the HTTP method),
      plus the drained body and the request header. */
  datatype Snapshot = Snapshot(
    remoteAddr: string,
    verb: string,
    url: Url,
    proto: string,
    body: seq<byte>,
    header: Header)

  /** Drains r's body (a read failure is dropped: the bytes read before it
      are kept and the snapshot is still returned), and returns the request
      with its body replaced by a buffer over those bytes. */
  method NewSnapshot(r: Request) returns (s: Snapshot, forwarded: Request)
    ensures s.body == Content(r.body)
    ensures s.header == r.header
    ensures s.remoteAddr == r.remoteAddr && s.verb == r.verb
    ensures s.url == r.url && s.proto == r.proto
    ensures forwarded == r.(body := Buffer(s.body))
    ensures Content(forwarded.body) == s.body && Failure(forwarded.body) == None
  {
    var body, _ := ReadAll(r.body);
    forwarded := r.(body := Buffer(body));
    s := Snapshot(r.remoteAddr, r.verb, r.url, r.proto, body, r.header);
  }

  /** The replacement body yields the captured bytes and nothing else: any
      consumer sees a prefix of them and never a failure, and a consumer that
      offers room for at least one byte per read, one read more than there
      are bytes, sees all of them followed by EOF. */
  lemma {:induction false} ReplayIsFaithful(body: seq<byte>, sizes: seq<nat>)
    ensures Consume(Buffer(body), sizes).data <= body
    ensures Consume(Buffer(body), sizes).err.Some? ==> Consume(Buffer(body), sizes).err.value == EOF
    ensures Consume(Buffer(body), sizes).err == Some(EOF) ==> Consume(Buffer(body), sizes).data == body
    ensures (forall i :: 0 <= i < |sizes| ==> 0 < sizes[i]) && |body| < |sizes| ==>
      Consume(Buffer(body), sizes).err == Some(EOF) && Consume(Buffer(body), sizes).data == body
  {
    ConsumePrefix(Buffer(body), sizes);
    if (forall i :: 0 <= i < |sizes| ==> 0 < sizes[i]) && |body| < |sizes| {
      BufferDrains(body, sizes);
    }
  }
}
