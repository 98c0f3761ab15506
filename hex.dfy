/** Node's `Buffer.toString('hex')`: two lower-case hexadecimal digits per
    byte, high nibble first. Both the stored upload name and the secret code
    are built this way from random bytes. */
module Hex {

  newtype byte = x: int | 0 <= x < 256

  predicate IsHexDigit(c: char)
  {
    '0' <= c <= '9' || 'a' <= c <= 'f'
  }

  predicate IsLowerHex(s: string)
  {
    forall i :: 0 <= i < |s| ==> IsHexDigit(s[i])
  }

  function DigitChar(d: int): (c: char)
    requires 0 <= d < 16
    ensures IsHexDigit(c)
  {
    if d < 10 then ('0' as int + d) as char else ('a' as int + d - 10) as char
  }

  function DigitValue(c: char): (d: int)
    ensures 0 <= d < 16
    ensures IsHexDigit(c) ==> DigitChar(d) == c
  {
    if '0' <= c <= '9' then c as int - '0' as int
    else if 'a' <= c <= 'f' then c as int - 'a' as int + 10
    else 0
  }

  function EncodeByte(b: byte): string
  {
    [DigitChar(b as int / 16), DigitChar(b as int % 16)]
  }

  /** `Buffer.from(bs).toString('hex')`. */
  function Encode(bs: seq<byte>): (s: string)
    ensures |s| == 2 * |bs|
    ensures IsLowerHex(s)
  {
    if bs == [] then "" else EncodeByte(bs[0]) + Encode(bs[1..])
  }

  /** The inverse of `Encode` on strings of hexadecimal digit pairs. */
  function Decode(s: string): seq<byte>
    requires |s| % 2 == 0
  {
    if s == [] then [] else [(DigitValue(s[0]) * 16 + DigitValue(s[1])) as byte] + Decode(s[2..])
  }

  /** Decoding the hex rendering gives back the bytes. */
  lemma {:induction false} DecodeEncode(bs: seq<byte>)
    ensures Decode(Encode(bs)) == bs
  {
    if bs != [] {
      var e := Encode(bs);
      var b := bs[0] as int;
      assert e[0] == DigitChar(b / 16) && e[1] == DigitChar(b % 16);
      assert e[2..] == Encode(bs[1..]);
      DecodeEncode(bs[1..]);
    }
  }

  /** Different byte strings render as different hex strings. */
  lemma EncodeInjective(a: seq<byte>, b: seq<byte>)
    requires Encode(a) == Encode(b)
    ensures a == b
  {
    DecodeEncode(a);
    DecodeEncode(b);
  }
}
