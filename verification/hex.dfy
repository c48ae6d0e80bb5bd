/** Node's `Buffer` hex codec: `buf.toString('hex')` writes two lower-case
    digits per byte; `Buffer.from(s, 'hex')` reads digit pairs of either case
    and stops, without failing, at the first pair that is not two hex digits
    (an odd last digit is dropped the same way). */
module Hex {
  import opened Common

  predicate IsLowerHexDigit(c: char)
  {
    '0' <= c <= '9' || 'a' <= c <= 'f'
  }

  function Digit(n: int): (c: char)
    requires 0 <= n < 16
    ensures IsLowerHexDigit(c)
  {
    if n < 10 then ('0' as int + n) as char else ('a' as int + n - 10) as char
  }

  /** The value of one hex digit of either case, None for any other character. */
  function DigitValue(c: char): (v: Option<int>)
    ensures v.Some? ==> 0 <= v.value < 16
    ensures forall n :: 0 <= n < 16 && c == Digit(n) ==> v == Some(n)
  {
    if '0' <= c <= '9' then Some(c as int - '0' as int)
    else if 'a' <= c <= 'f' then Some(c as int - 'a' as int + 10)
    else if 'A' <= c <= 'F' then Some(c as int - 'A' as int + 10)
    else None
  }

  predicate AllLowerHex(s: string)
  {
    forall i | 0 <= i < |s| :: IsLowerHexDigit(s[i])
  }

  /** `buf.toString('hex')` */
  function Encode(bytes: seq<Byte>): (s: string)
    ensures |s| == 2 * |bytes|
    ensures AllLowerHex(s)
    ensures ':' !in s
  {
    if bytes == [] then ""
    else [Digit(bytes[0] / 16), Digit(bytes[0] % 16)] + Encode(bytes[1..])
  }

  /** `Buffer.from(s, 'hex')`: never fails; decodes the longest prefix of
      well-formed digit pairs. */
  function Decode(s: string): (bytes: seq<Byte>)
    ensures 2 * |bytes| <= |s|
  {
    if |s| < 2 then []
    else match (DigitValue(s[0]), DigitValue(s[1]))
      case (Some(hi), Some(lo)) => [hi * 16 + lo] + Decode(s[2..])
      case _ => []
  }

  /** Decoding what was encoded gives back the bytes. */
  lemma {:induction false} DecodeEncode(bytes: seq<Byte>)
    ensures Decode(Encode(bytes)) == bytes
  {
    if bytes != [] {
      var b := bytes[0];
      var s := Encode(bytes);
      assert s[..2] == [Digit(b / 16), Digit(b % 16)];
      assert s[2..] == Encode(bytes[1..]);
      assert DigitValue(s[0]) == Some(b / 16);
      assert DigitValue(s[1]) == Some(b % 16);
      DecodeEncode(bytes[1..]);
      assert [b] + bytes[1..] == bytes;
    }
  }

  /** Different byte strings have different hex forms. */
  lemma EncodeInjective(a: seq<Byte>, b: seq<Byte>)
    requires Encode(a) == Encode(b)
    ensures a == b
  {
    DecodeEncode(a);
    DecodeEncode(b);
  }
}
