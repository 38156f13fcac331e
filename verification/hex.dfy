/** `as_hex`: each byte rendered as `format!("{byte:02X}")`, i.e. its
    uppercase hexadecimal digits left-padded with '0' to width two. */
module Hex {
  import opened Wrappers
  import opened BigEndian

  /** The chars the `X` format writes: '0'-'9' and 'A'-'F'. */
  predicate IsUpperDigit(c: char) {
    '0' <= c <= '9' || 'A' <= c <= 'F'
  }

  /** The uppercase hexadecimal digit for a value below sixteen. */
  function Digit(d: nat): (c: char)
    requires d < 16
    ensures IsUpperDigit(c)
  {
    if d < 10 then ('0' as int + d) as char else ('A' as int + (d - 10)) as char
  }

  /** The value of an uppercase hexadecimal digit, or None for any other char. */
  function DigitValue(c: char): (r: Option<nat>)
    ensures r.Some? <==> IsUpperDigit(c)
    ensures r.Some? ==> r.value < 16 && Digit(r.value) == c
  {
    if '0' <= c <= '9' then Some(c as int - '0' as int)
    else if 'A' <= c <= 'F' then Some(c as int - 'A' as int + 10)
    else None
  }

  /** The `X` format without a width: the shortest uppercase hexadecimal
      spelling of `n` ("0" for zero). */
  function HexDigits(n: nat): (s: string)
    ensures 1 <= |s|
    ensures forall i :: 0 <= i < |s| ==> IsUpperDigit(s[i])
    ensures n > 0 ==> s[0] != '0'
    ensures n == 0 ==> s == "0"
    ensures ParseHex(s) == Some(n)
    decreases n
  {
    if n < 16 then [Digit(n)]
    else
      var high := HexDigits(n / 16);
      var s := high + [Digit(n % 16)];
      assert s[..|s| - 1] == high;
      DigitRoundTrip(n % 16);
      assert ParseHex(s) == Some(n / 16 * 16 + n % 16);
      s
  }

  /** The value of a string of uppercase hexadecimal digits, most significant
      first; None when some char is not such a digit. */
  function ParseHex(s: string): Option<nat>
    decreases |s|
  {
    if |s| == 0 then Some(0)
    else match (ParseHex(s[..|s| - 1]), DigitValue(s[|s| - 1]))
      case (Some(high), Some(low)) => Some(high * 16 + low)
      case _ => None
  }

  /** The `0` flag with a width: left-pads `s` with `fill` up to `width` chars. */
  function PadLeft(s: string, width: nat, fill: char): (r: string)
    ensures |r| == if |s| < width then width else |s|
    ensures r[|r| - |s|..] == s
    ensures forall i :: 0 <= i < |r| - |s| ==> r[i] == fill
  {
    if |s| < width then seq(width - |s|, _ => fill) + s else s
  }

  /** `format!("{byte:02X}")` for one byte: the digit of the high nibble, then
      the digit of the low nibble. `FormatByteIsPaddedHex` shows this is the
      `X` format padded with '0' to width two. */
  function FormatByte(b: byte): (s: string)
    ensures |s| == 2 && IsUpperDigit(s[0]) && IsUpperDigit(s[1])
  {
    [Digit(b / 16), Digit(b % 16)]
  }

  /** For every byte, the uppercase hexadecimal spelling zero-padded to width
      two is the high-nibble digit followed by the low-nibble digit: the
      padding adds one '0' below 0x10 and nothing from 0x10 on, and the
      spelling never exceeds two digits. */
  lemma FormatByteIsPaddedHex(b: byte)
    ensures PadLeft(HexDigits(b), 2, '0') == FormatByte(b)
  {
    var digits := HexDigits(b);
    if b < 16 {
      assert digits == [Digit(b)];
      assert Digit(b / 16) == '0';
    } else {
      assert digits == HexDigits(b / 16) + [Digit(b % 16)];
      assert HexDigits(b / 16) == [Digit(b / 16)];
    }
  }

  /** `as_hex`: the bytes of `v` formatted one by one, in order. */
  function AsHex(v: seq<byte>): (r: seq<string>)
    ensures |r| == |v|
    ensures forall i :: 0 <= i < |v| ==> r[i] == FormatByte(v[i])
    decreases |v|
  {
    if |v| == 0 then [] else [FormatByte(v[0])] + AsHex(v[1..])
  }

  /** Reads back one formatted byte: two uppercase hexadecimal digits. */
  function ParseByte(s: string): (r: Option<byte>)
    ensures r.Some? <==> |s| == 2 && IsUpperDigit(s[0]) && IsUpperDigit(s[1])
  {
    if |s| != 2 then None
    else match (DigitValue(s[0]), DigitValue(s[1]))
      case (Some(high), Some(low)) => Some(high * 16 + low)
      case _ => None
  }

  /** Reads back the output of `AsHex`; None if any element is not a formatted byte. */
  function FromHex(ss: seq<string>): (r: Option<seq<byte>>)
    ensures r.Some? ==> |r.value| == |ss|
  {
    if forall i :: 0 <= i < |ss| ==> ParseByte(ss[i]).Some? then
      Some(seq(|ss|, i requires 0 <= i < |ss| => ParseByte(ss[i]).value))
    else
      None
  }

  /** Every digit reads back as the value it was written for. */
  lemma DigitRoundTrip(d: nat)
    requires d < 16
    ensures DigitValue(Digit(d)) == Some(d)
  {
  }

  /** A formatted byte reads back as that byte. */
  lemma ParseFormatByte(b: byte)
    ensures ParseByte(FormatByte(b)) == Some(b)
  {
  }

  /** Any string that reads back as a byte is exactly that byte's formatting:
      the format is a bijection between bytes and two-digit uppercase strings. */
  lemma FormatParseByte(s: string, b: byte)
    requires ParseByte(s) == Some(b)
    ensures FormatByte(b) == s
  {
  }

  /** `as_hex` loses nothing: its output reads back as the input bytes. */
  lemma FromAsHex(v: seq<byte>)
    ensures FromHex(AsHex(v)) == Some(v)
  {
    var r := AsHex(v);
    forall i | 0 <= i < |r|
      ensures ParseByte(r[i]) == Some(v[i])
    {
      ParseFormatByte(v[i]);
    }
    assert FromHex(r).value == v;
  }

  /** Whatever reads back as bytes is the `as_hex` output of those bytes. */
  lemma AsHexFromHex(ss: seq<string>, v: seq<byte>)
    requires FromHex(ss) == Some(v)
    ensures AsHex(v) == ss
  {
    forall i | 0 <= i < |ss|
      ensures FormatByte(v[i]) == ss[i]
    {
      FormatParseByte(ss[i], v[i]);
    }
  }

  /** The unit test of `as_hex`: [0x00, 0x01, 0x02] gives ["00", "01", "02"]. */
  lemma AsHexSmallBytes()
    ensures AsHex([0x00, 0x01, 0x02]) == ["00", "01", "02"]
  {
  }
}
