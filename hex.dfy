/** The `hexdump` helper and the `"%02X"` formatting it shares with the
    protocol's mismatch message, together with a parser that inverts them. */
module Hex {
  import opened Bytes

  /** The character `"%X"` prints for a value 0..15: `0`-`9`, then upper-case `A`-`F`. */
  function HexDigit(n: nat): (c: char)
    requires n < 16
    ensures DigitValue(c) == Some(n)
  {
    if n < 10 then ('0' as int + n) as char else ('A' as int + n - 10) as char
  }

  /** The value of an upper-case hexadecimal digit, or None for any other character. */
  function DigitValue(c: char): (r: Option<nat>)
    ensures r.Some? ==> r.value < 16
  {
    if '0' <= c <= '9' then Some(c as int - '0' as int)
    else if 'A' <= c <= 'F' then Some(c as int - 'A' as int + 10)
    else None
  }

  /** `"%02X" % b`: two upper-case hex digits, high nibble first; the pair
      reads back as `b`. */
  function HexByte(b: byte): (s: string)
    ensures |s| == 2 && ParseHexByte(s) == Some(b)
  {
    [HexDigit(b / 16), HexDigit(b % 16)]
  }

  /** Reads two hex digits back into a byte. */
  function ParseHexByte(s: string): (r: Option<byte>)
    requires |s| == 2
  {
    match (DigitValue(s[0]), DigitValue(s[1]))
    case (Some(hi), Some(lo)) => Some(hi * 16 + lo)
    case _ => None
  }

  /** What `hexdump(data)` returns: the `"%02X"` rendering of every byte,
      concatenated in order. Every character is a hex digit. */
  function HexString(data: seq<byte>): (s: string)
    ensures |s| == 2 * |data|
    ensures forall i :: 0 <= i < |s| ==> DigitValue(s[i]).Some?
  {
    if data == [] then "" else HexString(data[..|data| - 1]) + HexByte(data[|data| - 1])
  }

  /** Reads a hexdump back, two digits per byte. */
  function ParseHex(s: string): (r: Option<seq<byte>>)
    decreases |s|
  {
    if s == [] then Some([])
    else if |s| < 2 then None
    else match (ParseHex(s[..|s| - 2]), ParseHexByte(s[|s| - 2..]))
      case (Some(init), Some(b)) => Some(init + [b])
      case _ => None
  }

  /** A hexdump determines its bytes: parsing it gives them back. */
  lemma {:induction false} HexStringRoundTrip(data: seq<byte>)
    ensures ParseHex(HexString(data)) == Some(data)
  {
    if data != [] {
      var init := data[..|data| - 1];
      var s := HexString(data);
      HexStringRoundTrip(init);
      assert s[..|s| - 2] == HexString(init);
      assert s[|s| - 2..] == HexByte(data[|data| - 1]);
      assert init + [data[|data| - 1]] == data;
    }
  }

  /** `hexdump`: appends the rendering of each byte in turn. */
  method Hexdump(data: seq<byte>) returns (s: string)
    ensures s == HexString(data)
  {
    s := "";
    for i := 0 to |data|
      invariant s == HexString(data[..i])
    {
      assert data[..i + 1][..i] == data[..i];
      s := s + HexByte(data[i]);
    }
    assert data[..|data|] == data;
  }
}
