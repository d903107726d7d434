/** Value types shared by every part of the audit-capture model. */
module Common {

  /** One octet of a request or response body. */
  newtype byte = b: int | 0 <= b < 256

  /** A value that may be absent: a read error, a parsed number. */
  datatype Option<+T> = None | Some(value: T)

  /** Go's http.Header: a key mapped to the list of its values. */
  type Header = map<string, seq<string>>

  /** Go's string(b) conversion. Log text is a string whose characters each
      stand for one byte, so the conversion keeps every byte value. */
  function AsText(bytes: seq<byte>): (text: string)
    ensures |text| == |bytes|
    ensures forall i :: 0 <= i < |bytes| ==> text[i] as int == bytes[i] as int
  {
    seq(|bytes|, i requires 0 <= i < |bytes| => bytes[i] as int as char)
  }

  /** Concatenation regroups freely. */
  lemma ConcatAssoc<T>(a: seq<T>, b: seq<T>, c: seq<T>)
    ensures (a + b) + c == a + (b + c)
  {
  }
}
