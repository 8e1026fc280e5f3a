/** Hex encoding of bytes (src/bindump.c): `nibble2hex` and `byte2hex`. */
module Hex {
  import opened Types

  /** The digit table of `nibble2hex`. */
  const HexDigits: seq<char8> := "0123456789ABCDEF"

  /** An uppercase hexadecimal digit. */
  predicate IsHexDigit(c: char)
  {
    '0' <= c <= '9' || 'A' <= c <= 'F'
  }

  /** The value of an uppercase hex digit; the decoding partner of `NibbleToHex`. */
  function HexValue(c: char): (v: nat)
    requires IsHexDigit(c)
    ensures v < 16
  {
    if '0' <= c <= '9' then c as int - '0' as int else c as int - 'A' as int + 10
  }

  lemma HexDigitsTable(k: nat)
    requires k < 16
    ensures IsHexDigit(HexDigits[k]) && HexValue(HexDigits[k]) == k
  {
    assert HexDigits == ['0', '1', '2', '3', '4', '5', '6', '7', '8', '9', 'A', 'B', 'C', 'D', 'E', 'F'];
    assert k == 0 || k == 1 || k == 2 || k == 3 || k == 4 || k == 5 || k == 6 || k == 7
        || k == 8 || k == 9 || k == 10 || k == 11 || k == 12 || k == 13 || k == 14 || k == 15;
  }

  /** nibble2hex: the digit of the low four bits of `uiValue` (`uiValue & 0x0F`). */
  function NibbleToHex(uiValue: uint8): (c: char8)
    ensures IsHexDigit(c)
    ensures HexValue(c) == uiValue % 16
  {
    HexDigitsTable(uiValue % 16);
    HexDigits[uiValue % 16]
  }

  /** The two digits `byte2hex` produces: high nibble first, then low nibble. */
  function ByteToHex(uiByte: uint8): (s: seq<char8>)
    ensures |s| == 2
    ensures IsHexDigit(s[0]) && IsHexDigit(s[1])
    ensures HexValue(s[0]) == uiByte / 16 && HexValue(s[1]) == uiByte % 16
  {
    var hi := uiByte / 16;
    assert hi < 16 && hi % 16 == hi;
    [NibbleToHex(hi % 16), NibbleToHex(uiByte % 16)]
  }

  /** Reads two uppercase hex digits back as a byte; None for anything else. */
  function DecodeHexPair(s: seq<char>): (r: Option<uint8>)
    ensures r.Some? <==> |s| == 2 && IsHexDigit(s[0]) && IsHexDigit(s[1])
  {
    if |s| == 2 && IsHexDigit(s[0]) && IsHexDigit(s[1]) then Some(16 * HexValue(s[0]) + HexValue(s[1]))
    else None
  }

  /** Two digits that decode to the same value are the same digit. */
  lemma HexValueInjective(c: char, d: char)
    requires IsHexDigit(c) && IsHexDigit(d) && HexValue(c) == HexValue(d)
    ensures c == d
  {
  }

  /** Round trip: decoding the encoding of a byte gives the byte back. */
  lemma ByteToHexRoundTrip(b: uint8)
    ensures DecodeHexPair(ByteToHex(b)) == Some(b)
  {
  }

  /** The converse: every decodable pair of digits is the encoding of what it decodes to,
      so the encoding is a bijection between bytes and uppercase digit pairs. */
  lemma DecodeHexPairSound(s: seq<char>, b: uint8)
    requires DecodeHexPair(s) == Some(b)
    ensures s == ByteToHex(b)
  {
    var t := ByteToHex(b);
    HexValueInjective(s[0], t[0]);
    HexValueInjective(s[1], t[1]);
  }

  /** byte2hex never maps two bytes to the same digits. */
  lemma ByteToHexInjective(a: uint8, b: uint8)
    requires ByteToHex(a) == ByteToHex(b)
    ensures a == b
  {
    ByteToHexRoundTrip(a);
    ByteToHexRoundTrip(b);
  }

  /** A pointer into a character buffer: null, or an offset into the buffer. */
  datatype CharPtr = Null | At(offset: nat)

  /** byte2hex: writes the two digits of `uiByte` at `acHex` in `mem`.
      A null pointer is refused with EINVAL and nothing is written. */
  function Byte2Hex(uiByte: uint8, acHex: CharPtr, mem: seq<char8>): (r: (Errno, seq<char8>))
    requires acHex.At? ==> acHex.offset + 2 <= |mem|
    ensures acHex.Null? <==> r.0 == EINVAL
    ensures r.0 == EINVAL || r.0 == EOK
    ensures acHex.Null? ==> r.1 == mem
    ensures acHex.At? ==>
      |r.1| == |mem|
      && DecodeHexPair(r.1[acHex.offset..acHex.offset + 2]) == Some(uiByte)
      && forall k :: 0 <= k < |mem| && k != acHex.offset && k != acHex.offset + 1 ==> r.1[k] == mem[k]
  {
    match acHex
    case Null => (EINVAL, mem)
    case At(p) =>
      var out := Splice(mem, p, ByteToHex(uiByte));
      assert out[p..p + 2] == ByteToHex(uiByte);
      ByteToHexRoundTrip(uiByte);
      (EOK, out)
  }
}
