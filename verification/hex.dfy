/** Base16 as the recovery key uses it (section 8 of RFC 4648): `hexdigest()`
    writes lowercase digits, `bytes.fromhex` reads them back. */
module Hex {
  import opened Wrappers
  import opened Bytes
  import opened Text

  predicate IsLowerHex(c: char) {
    ('0' <= c <= '9') || ('a' <= c <= 'f')
  }

  function HexChar(v: nat): (c: char)
    requires v < 16
    ensures IsLowerHex(c)
  {
    if v < 10 then ('0' as int + v) as char else ('a' as int + (v - 10)) as char
  }

  /** `hashlib`'s `hexdigest()`: two lowercase digits per byte, high nibble first. */
  function HexDigest(b: seq<Byte>): (s: string)
    ensures |s| == 2 * |b|
    ensures forall i :: 0 <= i < |s| ==> IsLowerHex(s[i])
  {
    if b == [] then ""
    else [HexChar(b[0] as int / 16), HexChar(b[0] as int % 16)] + HexDigest(b[1..])
  }

  /** The value of one hexadecimal digit, either case. */
  function DigitValue(c: char): (r: Option<nat>)
    ensures r.Some? ==> r.value < 16
  {
    if '0' <= c <= '9' then Some(c as int - '0' as int)
    else if 'a' <= c <= 'f' then Some(c as int - 'a' as int + 10)
    else if 'A' <= c <= 'F' then Some(c as int - 'A' as int + 10)
    else None
  }

  /** `bytes.fromhex(s)`: ASCII whitespace is skipped between byte pairs, each
      byte needs two adjacent digits, and anything else (`None`) raises. */
  function FromHex(s: string): (r: Option<seq<Byte>>)
    ensures r.Some? ==> 2 * |r.value| <= |s|
    decreases |s|
  {
    if s == [] then Some([])
    else if IsAsciiSpace(s[0]) then FromHex(s[1..])
    else if |s| < 2 then None
    else
      var hi := DigitValue(s[0]);
      var lo := DigitValue(s[1]);
      var rest := FromHex(s[2..]);
      if hi.None? || lo.None? || rest.None? then None
      else Some([FromNibbles(hi.value, lo.value)] + rest.value)
  }

  /** The byte with the given high and low nibbles. */
  function FromNibbles(hi: nat, lo: nat): Byte
    requires hi < 16 && lo < 16
  {
    ByteOf(hi * 16 + lo)
  }

  lemma DigitValueOfHexChar(v: nat)
    requires v < 16
    ensures DigitValue(HexChar(v)) == Some(v)
    ensures !IsAsciiSpace(HexChar(v))
  {
  }

  lemma NibblesRebuildByte(x: Byte)
    ensures FromNibbles(x as int / 16, x as int % 16) == x
  {
    var n := x as int;
    assert (n / 16) * 16 + n % 16 == n;
    ByteValueInjective(FromNibbles(n / 16, n % 16), x);
  }

  /** Reading back a hex digest gives exactly the bytes it was made from. */
  lemma {:induction false} FromHexOfDigest(b: seq<Byte>)
    ensures FromHex(HexDigest(b)) == Some(b)
  {
    if b != [] {
      var hi := b[0] as int / 16;
      var lo := b[0] as int % 16;
      var s := HexDigest(b);
      assert s == [HexChar(hi), HexChar(lo)] + HexDigest(b[1..]);
      assert s[0] == HexChar(hi) && s[1] == HexChar(lo) && s[2..] == HexDigest(b[1..]);
      DigitValueOfHexChar(hi);
      DigitValueOfHexChar(lo);
      FromHexOfDigest(b[1..]);
      NibblesRebuildByte(b[0]);
      assert FromHex(s) == Some([FromNibbles(hi, lo)] + b[1..]);
      assert b == [b[0]] + b[1..];
    }
  }

  /** A hex digest is ASCII text, so it can be written to a text-mode file. */
  lemma HexDigestIsAscii(b: seq<Byte>)
    ensures forall i :: 0 <= i < |HexDigest(b)| ==> IsAscii(HexDigest(b)[i])
  {
  }
}
