/** Go's io.Reader as the request body presents it: the inbound connection,
    whose answers are given, and the in-memory bytes.Buffer that replaces it.
    ReadAll is ioutil.ReadAll. */
module BodyReader {
  import opened Common

  datatype ReadErr = EOF | Failed(reason: string)

  /** One answer of a Read on the inbound connection: the bytes delivered and
      the error that came with them, if any. */
  datatype Chunk = Chunk(data: seq<byte>, err: Option<ReadErr>)

  datatype Reader =
    | Network(chunks: seq<Chunk>)  // the inbound body; answers EOF once the chunks are used up
    | Buffer(rest: seq<byte>)      // bytes.Buffer (behind ioutil.NopCloser)

  datatype ReadOutcome = ReadOutcome(data: seq<byte>, err: Option<ReadErr>, next: Reader)

  /** The capacity ReadAll offers to each Read; its growth is not modelled,
      only that every Read is offered room for at least one byte. */
  const ReadSize: nat := 512

  function Remaining(r: Reader): nat {
    match r
    case Network(chunks) => |chunks|
    case Buffer(rest) => |rest|
  }

  function Reason(e: ReadErr): Option<string> {
    match e
    case EOF => None
    case Failed(m) => Some(m)
  }

  /** Every byte a reader yields when read until its first error. */
  function Content(r: Reader): seq<byte> {
    match r
    case Network(chunks) => ChunksContent(chunks)
    case Buffer(rest) => rest
  }

  function ChunksContent(chunks: seq<Chunk>): seq<byte>
    decreases |chunks|
  {
    if |chunks| == 0 then []
    else if chunks[0].err.Some? then chunks[0].data
    else chunks[0].data + ChunksContent(chunks[1..])
  }

  /** The failure (other than EOF) that ends reading, if any. */
  function Failure(r: Reader): Option<string> {
    match r
    case Network(chunks) => ChunksFailure(chunks)
    case Buffer(_) => None
  }

  function ChunksFailure(chunks: seq<Chunk>): Option<string>
    decreases |chunks|
  {
    if |chunks| == 0 then None
    else match chunks[0].err
      case None => ChunksFailure(chunks[1..])
      case Some(e) => Reason(e)
  }

  /** One Read offering room for p bytes. */
  function Read(r: Reader, p: nat): (o: ReadOutcome)
    ensures o.err.None? ==> o.data + Content(o.next) == Content(r) && Failure(o.next) == Failure(r)
    ensures o.err.Some? ==> o.data == Content(r) && Reason(o.err.value) == Failure(r)
    ensures o.err.None? && 0 < p ==> Remaining(o.next) < Remaining(r)
    ensures r.Buffer? ==> o.next.Buffer? && |o.data| <= p
    ensures r.Buffer? ==> (o.err.Some? <==> r.rest == [] && 0 < p)
  {
    match r
    case Network(chunks) =>
      if |chunks| == 0 then ReadOutcome([], Some(EOF), r)
      else ReadOutcome(chunks[0].data, chunks[0].err, Network(chunks[1..]))
    case Buffer(rest) =>
      if |rest| == 0 then
        if p == 0 then ReadOutcome([], None, r) else ReadOutcome([], Some(EOF), r)
      else
        var n := if p < |rest| then p else |rest|;
        ReadOutcome(rest[..n], None, Buffer(rest[n..]))
  }

  /** ioutil.ReadAll: read until the first error; EOF counts as success.
      The bytes read before a failure are returned along with it. */
  method ReadAll(r: Reader) returns (data: seq<byte>, err: Option<string>)
    ensures data == Content(r)
    ensures err == Failure(r)
  {
    var cur := r;
    data := [];
    while true
      invariant data + Content(cur) == Content(r)
      invariant Failure(cur) == Failure(r)
      decreases Remaining(cur)
    {
      var o := Read(cur, ReadSize);
      ghost var before := data;
      data := data + o.data;
      if o.err.Some? {
        assert o.data == Content(cur);
        err := Reason(o.err.value);
        return;
      }
      assert before + (o.data + Content(o.next)) == data + Content(o.next);
      cur := o.next;
    }
  }

  /** A downstream consumer: one Read per entry of sizes, stopping at the
      first error. */
  function Consume(r: Reader, sizes: seq<nat>): ReadOutcome
    decreases |sizes|
  {
    if |sizes| == 0 then ReadOutcome([], None, r)
    else
      var o := Read(r, sizes[0]);
      if o.err.Some? then o
      else
        var tail := Consume(o.next, sizes[1..]);
        ReadOutcome(o.data + tail.data, tail.err, tail.next)
  }

  /** Whatever a consumer reads is a prefix of the reader's content; once it
      meets an error it has read all of it, and the error is the reader's. */
  lemma {:induction false} ConsumePrefix(r: Reader, sizes: seq<nat>)
    ensures Consume(r, sizes).data <= Content(r)
    ensures Consume(r, sizes).err.None? ==> Consume(r, sizes).data + Content(Consume(r, sizes).next) == Content(r)
    ensures Consume(r, sizes).err.Some? ==>
      Consume(r, sizes).data == Content(r) && Reason(Consume(r, sizes).err.value) == Failure(r)
    decreases |sizes|
  {
    var c := Consume(r, sizes);
    if |sizes| == 0 {
      assert c.data + Content(c.next) == Content(r);
    } else {
      var o := Read(r, sizes[0]);
      if o.err.None? {
        var tail := Consume(o.next, sizes[1..]);
        ConsumePrefix(o.next, sizes[1..]);
        assert c == ReadOutcome(o.data + tail.data, tail.err, tail.next);
        assert Content(r) == o.data + Content(o.next);
        var left := Content(o.next)[|tail.data|..];
        assert Content(o.next) == tail.data + left;
        ConcatAssoc(o.data, tail.data, left);
        assert Content(r) == c.data + left;
        if tail.err.None? {
          assert left == Content(tail.next);
        } else {
          assert left == [];
          assert Failure(o.next) == Failure(r);
        }
      }
    }
  }

  /** Reads that each offer room for at least one byte drain a buffer:
      one more read than it has bytes is enough to reach EOF. */
  lemma {:induction false} BufferDrains(rest: seq<byte>, sizes: seq<nat>)
    requires forall i :: 0 <= i < |sizes| ==> 0 < sizes[i]
    requires |rest| < |sizes|
    ensures Consume(Buffer(rest), sizes).err == Some(EOF)
    decreases |sizes|
  {
    var o := Read(Buffer(rest), sizes[0]);
    if o.err.None? {
      BufferDrains(o.next.rest, sizes[1..]);
    }
  }
}
