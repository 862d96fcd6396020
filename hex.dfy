/**
 * Bytes and their lowercase hexadecimal rendering, as `hashlib`'s
 * `hexdigest()` produces it: two characters per byte, high nibble first,
 * digits `0`-`9` and `a`-`f`.
 */
module Hex {
  import opened Results

  type byte = b: int | 0 <= b < 256
  type Bytes = seq<byte>

  predicate IsLowerHexChar(c: char) {
    '0' <= c <= '9' || 'a' <= c <= 'f'
  }

  predicate IsLowerHex(s: string) {
    forall i :: 0 <= i < |s| ==> IsLowerHexChar(s[i])
  }

  function HexDigit(d: nat): (c: char)
    requires d < 16
    ensures IsLowerHexChar(c)
  {
    if d < 10 then (d + '0' as int) as char else (d - 10 + 'a' as int) as char
  }

  /** The nibble a lowercase hex digit stands for; the inverse of HexDigit. */
  function HexValue(c: char): (d: nat)
    requires IsLowerHexChar(c)
    ensures d < 16 && HexDigit(d) == c
  {
    if c <= '9' then c as int - '0' as int else c as int - 'a' as int + 10
  }

  /** A nibble written as a hex digit reads back as the same nibble. */
  lemma HexValueOfDigit(d: nat)
    requires d < 16
    ensures HexValue(HexDigit(d)) == d
  {
  }

  function HexByte(b: byte): (s: string)
    ensures |s| == 2 && IsLowerHex(s)
  {
    [HexDigit(b / 16), HexDigit(b % 16)]
  }

  /** `bytes.hex()`: the concatenation of the two-digit renderings of each byte. */
  function ToHex(bs: Bytes): (s: string)
    ensures |s| == 2 * |bs| && IsLowerHex(s)
  {
    if bs == [] then "" else HexByte(bs[0]) + ToHex(bs[1..])
  }

  /** Reads a hex string back into bytes; odd length or a stray character is rejected. */
  function FromHex(s: string): (r: Option<Bytes>)
    ensures r.Some? ==> 2 * |r.value| == |s|
    decreases |s|
  {
    if s == [] then Some([])
    else if |s| == 1 || !IsLowerHexChar(s[0]) || !IsLowerHexChar(s[1]) then None
    else
      match FromHex(s[2..])
      case None => None
      case Some(rest) => Some([(HexValue(s[0]) * 16 + HexValue(s[1])) as byte] + rest)
  }

  /** Byte `i` of the input is rendered at characters `2i` and `2i + 1`. */
  lemma {:induction false} ToHexAt(bs: Bytes, i: nat)
    requires i < |bs|
    ensures ToHex(bs)[2 * i .. 2 * i + 2] == HexByte(bs[i])
  {
    if i > 0 {
      ToHexAt(bs[1..], i - 1);
      assert ToHex(bs) == HexByte(bs[0]) + ToHex(bs[1..]);
    }
  }

  /** Decoding the hex rendering recovers the bytes exactly. */
  lemma {:induction false} FromHexToHex(bs: Bytes)
    ensures FromHex(ToHex(bs)) == Some(bs)
  {
    if bs != [] {
      var s := ToHex(bs);
      var b := bs[0];
      assert s[2..] == ToHex(bs[1..]);
      FromHexToHex(bs[1..]);
      HexValueOfDigit(b / 16);
      HexValueOfDigit(b % 16);
      assert s[0] == HexDigit(b / 16) && s[1] == HexDigit(b % 16);
      assert [(HexValue(s[0]) * 16 + HexValue(s[1])) as byte] + bs[1..] == bs;
    }
  }

  /** Distinct byte strings have distinct hex renderings. */
  lemma ToHexInjective(a: Bytes, b: Bytes)
    ensures ToHex(a) == ToHex(b) ==> a == b
  {
    FromHexToHex(a);
    FromHexToHex(b);
  }
}
