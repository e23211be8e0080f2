/** Byte-level values shared by the whole model: Python's `bytes` as
    sequences of integers 0..255, and the ASCII decoding that turns the
    firmware's version reply into text. */
module Bytes {

  /** One element of a Python `bytes` object. */
  type byte = b: int | 0 <= b < 256

  datatype Option<+T> = None | Some(value: T)

  /** `bytes.decode('ASCII')`: succeeds exactly when every byte is below
      0x80, and then maps each byte to the character with the same code. */
  function AsciiDecode(b: seq<byte>): (r: Option<string>)
    ensures r.Some? <==> forall i :: 0 <= i < |b| ==> b[i] < 0x80
    ensures r.Some? ==> |r.value| == |b| && forall i :: 0 <= i < |b| ==> r.value[i] as int == b[i]
  {
    if b == [] then Some("")
    else if b[0] >= 0x80 then None
    else match AsciiDecode(b[1..])
      case None => None
      case Some(t) => Some([b[0] as char] + t)
  }

  /** The inverse of a successful decode: each character back to its code. */
  function AsciiEncode(t: string): (b: seq<byte>)
    requires forall i :: 0 <= i < |t| ==> t[i] as int < 0x80
    ensures |b| == |t|
  {
    if t == [] then [] else [t[0] as int] + AsciiEncode(t[1..])
  }

  /** Decoding loses nothing: encoding the decoded text gives the bytes back. */
  lemma {:induction false} AsciiRoundTrip(b: seq<byte>)
    requires AsciiDecode(b).Some?
    ensures AsciiEncode(AsciiDecode(b).value) == b
  {
    if b != [] {
      AsciiRoundTrip(b[1..]);
    }
  }
}
