/** Lower-case hexadecimal rendering, as `Buffer.prototype.toString('hex')` produces it.
    The wallet code compares MACs, addresses and checksums as hex text, so the rendering
    is modelled concretely; `FromHex` is its inverse and shows that comparing renderings
    is the same as comparing the bytes. */
module Hex {
  import opened Common

  function HexDigit(d: int): (c: char)
    requires 0 <= d < 16
    ensures '0' <= c <= '9' || 'a' <= c <= 'f'
  {
    if d < 10 then ('0' as int + d) as char else ('a' as int + d - 10) as char
  }

  /** The value of a lower-case hex digit, if `c` is one. */
  function DigitValue(c: char): (v: Option<int>)
    ensures v.Some? ==> 0 <= v.value < 16 && HexDigit(v.value) == c
    ensures forall d :: 0 <= d < 16 && HexDigit(d) == c ==> v == Some(d)
  {
    if '0' <= c <= '9' then Some(c as int - '0' as int)
    else if 'a' <= c <= 'f' then Some(c as int - 'a' as int + 10)
    else None
  }

  function ToHex(b: Bytes): (s: string)
    ensures |s| == 2 * |b|
  {
    if b == [] then ""
    else [HexDigit(b[0] as int / 16), HexDigit(b[0] as int % 16)] + ToHex(b[1..])
  }

  /** Strict parse of lower-case hex text: even length, hex digits only. */
  function FromHex(s: string): (r: Option<Bytes>)
    decreases |s|
  {
    if s == [] then Some([])
    else if |s| == 1 then None
    else match (DigitValue(s[0]), DigitValue(s[1]), FromHex(s[2..]))
      case (Some(hi), Some(lo), Some(rest)) => Some([(hi * 16 + lo) as Byte] + rest)
      case _ => None
  }

  /** The two digits of a byte parse back to their values, which recombine to the byte. */
  lemma ByteDigits(x: Byte)
    ensures 0 <= x as int / 16 < 16 && 0 <= x as int % 16 < 16
    ensures DigitValue(HexDigit(x as int / 16)) == Some(x as int / 16)
    ensures DigitValue(HexDigit(x as int % 16)) == Some(x as int % 16)
    ensures ((x as int / 16) * 16 + x as int % 16) as Byte == x
  {
  }

  lemma {:induction false} FromHexToHex(b: Bytes)
    ensures FromHex(ToHex(b)) == Some(b)
  {
    if b != [] {
      var s := ToHex(b);
      var hi, lo := b[0] as int / 16, b[0] as int % 16;
      ByteDigits(b[0]);
      var pair, t := [HexDigit(hi), HexDigit(lo)], ToHex(b[1..]);
      assert s == pair + t;
      ConcatHalves(pair, t);
      FromHexToHex(b[1..]);
      assert FromHex(s) == Some([(hi * 16 + lo) as Byte] + b[1..]);
      ConsHead(b);
    }
  }

  /** Two byte strings have the same rendering only when they are equal. */
  lemma ToHexInjective(a: Bytes, b: Bytes)
    ensures ToHex(a) == ToHex(b) <==> a == b
  {
    FromHexToHex(a);
    FromHexToHex(b);
  }

  /** Every character of a rendering is a digit or a lower-case letter 'a' to 'f'. */
  lemma {:induction false} ToHexLowerCase(b: Bytes)
    ensures forall i :: 0 <= i < |ToHex(b)| ==> '0' <= ToHex(b)[i] <= '9' || 'a' <= ToHex(b)[i] <= 'f'
  {
    if b != [] {
      ToHexLowerCase(b[1..]);
      var s := ToHex(b);
      assert s == [HexDigit(b[0] as int / 16), HexDigit(b[0] as int % 16)] + ToHex(b[1..]);
      forall i | 2 <= i < |s|
        ensures '0' <= s[i] <= '9' || 'a' <= s[i] <= 'f'
      {
        assert s[i] == ToHex(b[1..])[i - 2];
      }
    }
  }

  /** `'0x' + buf.toString('hex')`, the form of every `get…String` accessor of a wallet. */
  function PrefixedHex(b: Bytes): (s: string)
    ensures |s| == 2 + 2 * |b| && s[..2] == "0x"
    ensures FromHex(s[2..]) == Some(b)
  {
    FromHexToHex(b);
    assert ("0x" + ToHex(b))[2..] == ToHex(b);
    "0x" + ToHex(b)
  }
}
