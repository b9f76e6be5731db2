/** The lowercase hexadecimal rendering Go's `fmt.Sprintf("%x", …)`
    produces for a byte array: two digits per byte, high nibble first. */
module Hex {
  import opened Wrappers
  import opened Bytes

  const Digits: string := "0123456789abcdef"

  predicate IsHexDigit(c: char) {
    '0' <= c <= '9' || 'a' <= c <= 'f'
  }

  predicate IsLowerHex(s: string) {
    forall i :: 0 <= i < |s| ==> IsHexDigit(s[i])
  }

  /** The digit for a nibble. */
  function DigitOf(n: int): (c: char)
    requires 0 <= n < 16
    ensures IsHexDigit(c)
  {
    Digits[n]
  }

  /** The nibble a digit stands for; the inverse of `DigitOf`. */
  function ValueOf(c: char): (n: int)
    requires IsHexDigit(c)
    ensures 0 <= n < 16
    ensures DigitOf(n) == c
  {
    if c <= '9' then c as int - '0' as int else c as int - 'a' as int + 10
  }

  lemma ValueOfDigit(n: int)
    requires 0 <= n < 16
    ensures ValueOf(DigitOf(n)) == n
  {
  }

  function Encode(bs: seq<byte>): (s: string)
    ensures |s| == 2 * |bs|
    ensures IsLowerHex(s)
  {
    if |bs| == 0 then ""
    else [DigitOf(bs[0] / 16), DigitOf(bs[0] % 16)] + Encode(bs[1..])
  }

  /** Reads back a lowercase hex string; `None` for odd length or a
      character that is not a lowercase hex digit. */
  function Decode(s: string): Option<seq<byte>>
  {
    if |s| == 0 then Some([])
    else if |s| < 2 || !IsHexDigit(s[0]) || !IsHexDigit(s[1]) then None
    else
      match Decode(s[2..])
      case None => None
      case Some(rest) => Some([(ValueOf(s[0]) * 16 + ValueOf(s[1])) as byte] + rest)
  }

  lemma {:induction false} DecodeEncode(bs: seq<byte>)
    ensures Decode(Encode(bs)) == Some(bs)
  {
    if |bs| > 0 {
      var s := Encode(bs);
      ValueOfDigit(bs[0] / 16);
      ValueOfDigit(bs[0] % 16);
      assert s[2..] == Encode(bs[1..]);
      DecodeEncode(bs[1..]);
      assert [bs[0]] + bs[1..] == bs;
    }
  }

  /** Distinct byte strings render differently, so comparing rendered
      digests compares the digests themselves. */
  lemma EncodeInjective(a: seq<byte>, b: seq<byte>)
    ensures Encode(a) == Encode(b) <==> a == b
  {
    if Encode(a) == Encode(b) {
      DecodeEncode(a);
      DecodeEncode(b);
    }
  }
}
