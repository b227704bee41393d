/**
 * The digest rendering of both handlers: every byte of the digest as
 * `b.toString(16).padStart(2, '0')`, the pieces joined with no separator;
 * and the decoder that reads such a text back.
 */
module Hex {
  import opened Wrappers

  /** An element of a `Uint8Array`. */
  type Byte = b: int | 0 <= b < 256

  /** The characters `Number.prototype.toString(16)` writes: 0-9 and lower-case a-f. */
  predicate IsHexChar(c: char) {
    '0' <= c <= '9' || 'a' <= c <= 'f'
  }

  predicate IsHexText(s: string) {
    forall i :: 0 <= i < |s| ==> IsHexChar(s[i])
  }

  /** The digit for a value below 16. */
  function HexDigit(d: int): (c: char)
    requires 0 <= d < 16
    ensures IsHexChar(c)
  {
    if d < 10 then ('0' as int + d) as char else ('a' as int + d - 10) as char
  }

  /** The value of a digit. */
  function DigitValue(c: char): (d: int)
    requires IsHexChar(c)
    ensures 0 <= d < 16
    ensures HexDigit(d) == c
  {
    if c <= '9' then c as int - '0' as int else c as int - 'a' as int + 10
  }

  lemma DigitValueOfHexDigit(d: int)
    requires 0 <= d < 16
    ensures DigitValue(HexDigit(d)) == d
  {
  }

  /** `n.toString(16)` for a non-negative integer: its base-16 digits, most significant first, unpadded. */
  function ToRadix16(n: nat): (s: string)
    ensures IsHexText(s)
    ensures |s| == 1 <==> n < 16
    ensures n < 256 ==> |s| <= 2
  {
    if n < 16 then [HexDigit(n)] else ToRadix16(n / 16) + [HexDigit(n % 16)]
  }

  /** `s.padStart(width, fill)` for a one-character fill. */
  function PadStart(s: string, width: nat, fill: char): (r: string)
    ensures |r| == if |s| >= width then |s| else width
    ensures r[|r| - |s|..] == s
    ensures forall i :: 0 <= i < |r| - |s| ==> r[i] == fill
  {
    if |s| >= width then s else seq(width - |s|, _ => fill) + s
  }

  /** One byte as `b.toString(16).padStart(2, '0')`: always two digits, high nibble first. */
  function ByteToHex(b: Byte): (r: string)
    ensures r == [HexDigit(b / 16), HexDigit(b % 16)]
  {
    var digits := ToRadix16(b);
    if b < 16 then
      assert digits == [HexDigit(b)] && b / 16 == 0 && b % 16 == b;
      PadStart(digits, 2, '0')
    else
      assert ToRadix16(b / 16) == [HexDigit(b / 16)];
      PadStart(digits, 2, '0')
  }

  lemma HexTextConcat(a: string, b: string)
    requires IsHexText(a) && IsHexText(b)
    ensures IsHexText(a + b)
  {
    forall i | 0 <= i < |a + b| ensures IsHexChar((a + b)[i]) {
      if i >= |a| { assert (a + b)[i] == b[i - |a|]; }
    }
  }

  /** `bytes.map(ByteToHex).join('')`. */
  function HexEncode(bytes: seq<Byte>): (s: string)
    ensures |s| == 2 * |bytes|
    ensures IsHexText(s)
  {
    if bytes == [] then []
    else
      var head := ByteToHex(bytes[0]);
      var tail := HexEncode(bytes[1..]);
      HexTextConcat(head, tail);
      head + tail
  }

  /** Reads consecutive pairs of digits back into bytes; None for an odd length or a character HexEncode never writes. */
  function HexDecode(s: string): (r: Option<seq<Byte>>)
    ensures r.Some? ==> |s| == 2 * |r.value|
  {
    if s == [] then Some([])
    else if |s| == 1 || !IsHexChar(s[0]) || !IsHexChar(s[1]) then None
    else
      match HexDecode(s[2..])
      case None => None
      case Some(rest) => Some([PairValue(s[0], s[1])] + rest)
  }

  /** The byte a high and a low digit stand for. */
  function PairValue(hi: char, lo: char): (b: Byte)
    requires IsHexChar(hi) && IsHexChar(lo)
    ensures b / 16 == DigitValue(hi) && b % 16 == DigitValue(lo)
  {
    DigitValue(hi) * 16 + DigitValue(lo)
  }

  lemma Nibbles(b: Byte)
    ensures (b / 16) * 16 + b % 16 == b
  {
  }

  /** Fixed width per byte makes the rendering reversible: decoding the pairs recovers the digest bytes. */
  lemma {:induction false} DecodeEncode(bytes: seq<Byte>)
    ensures HexDecode(HexEncode(bytes)) == Some(bytes)
  {
    if bytes != [] {
      var b := bytes[0];
      var rest := bytes[1..];
      assert bytes == [b] + rest;
      EncodeStep(b, rest);
      var s := HexEncode(bytes);
      var tail := HexEncode(rest);
      assert s[0] == HexDigit(b / 16) && s[1] == HexDigit(b % 16) && s[2..] == tail;
      DecodeEncode(rest);
      PairOfByte(b);
      DecodeStep(s);
    }
  }

  /** The two digits of a byte read back as that byte. */
  lemma PairOfByte(b: Byte)
    ensures PairValue(HexDigit(b / 16), HexDigit(b % 16)) == b
  {
    DigitValueOfHexDigit(b / 16);
    DigitValueOfHexDigit(b % 16);
    Nibbles(b);
  }

  /** Every text the decoder accepts is exactly the rendering of what it decodes to. */
  lemma {:induction false} EncodeDecode(s: string)
    requires HexDecode(s).Some?
    ensures HexEncode(HexDecode(s).value) == s
  {
    if s != [] {
      assert |s| >= 2 && IsHexChar(s[0]) && IsHexChar(s[1]) && HexDecode(s[2..]).Some?;
      var rest := HexDecode(s[2..]).value;
      var b := PairValue(s[0], s[1]);
      DecodeStep(s);
      EncodeDecode(s[2..]);
      EncodeStep(b, rest);
      assert HexDigit(b / 16) == s[0] && HexDigit(b % 16) == s[1];
      FirstTwo(s);
    }
  }

  lemma FirstTwo(s: string)
    requires |s| >= 2
    ensures s == [s[0], s[1]] + s[2..]
  {
  }

  /** Decoding a text that starts with two digits. */
  lemma DecodeStep(s: string)
    requires |s| >= 2 && IsHexChar(s[0]) && IsHexChar(s[1]) && HexDecode(s[2..]).Some?
    ensures HexDecode(s) == Some([PairValue(s[0], s[1])] + HexDecode(s[2..]).value)
  {
  }

  /** Rendering a byte sequence by its first byte. */
  lemma EncodeStep(b: Byte, rest: seq<Byte>)
    ensures HexEncode([b] + rest) == [HexDigit(b / 16), HexDigit(b % 16)] + HexEncode(rest)
  {
    assert ([b] + rest)[0] == b && ([b] + rest)[1..] == rest;
  }

  /** The decoder accepts exactly the even-length texts of lower-case hex digits. */
  lemma {:induction false} DecodeAccepts(s: string)
    ensures HexDecode(s).Some? <==> |s| % 2 == 0 && IsHexText(s)
  {
    if s != [] && |s| != 1 {
      DecodeAccepts(s[2..]);
      assert IsHexText(s) <==> IsHexChar(s[0]) && IsHexChar(s[1]) && IsHexText(s[2..]) by {
        if IsHexChar(s[0]) && IsHexChar(s[1]) && IsHexText(s[2..]) {
          forall i | 0 <= i < |s| ensures IsHexChar(s[i]) {
            if i >= 2 { assert s[i] == s[2..][i - 2]; }
          }
        }
      }
    }
  }

  /** Different byte sequences render differently. */
  lemma EncodeInjective(a: seq<Byte>, b: seq<Byte>)
    ensures HexEncode(a) == HexEncode(b) <==> a == b
  {
    if HexEncode(a) == HexEncode(b) {
      DecodeEncode(a);
      DecodeEncode(b);
    }
  }
}
