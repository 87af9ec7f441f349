/** Bytes and the two text/byte conversions the handlers rely on: writing an
    ASCII string to a text-mode file and reading one back. */
module Bytes {

  type Byte = bv8

  /** A character that an ASCII text file stores as one byte. */
  predicate IsAscii(c: char) {
    c < 128 as char
  }

  /** The bytes a text-mode write of an ASCII string puts on disk. */
  function AsciiBytes(s: string): (r: seq<Byte>)
    requires forall i :: 0 <= i < |s| ==> IsAscii(s[i])
    ensures |r| == |s|
  {
    seq(|s|, i requires 0 <= i < |s| && IsAscii(s[i]) => ByteOf(s[i] as int))
  }

  /** The byte holding the number `n`. */
  function ByteOf(n: nat): (b: Byte)
    requires n < 256
    ensures b as int == n
  {
    if n == 0 then 0 else ByteOf(n - 1) + 1
  }

  /** Two bytes with the same value are the same byte. */
  lemma ByteValueInjective(a: Byte, b: Byte)
    requires a as int == b as int
    ensures a == b
  {
  }

  /** Bytes read back one character per byte. */
  function ByteText(b: seq<Byte>): (r: string)
    ensures |r| == |b|
  {
    seq(|b|, i requires 0 <= i < |b| => b[i] as int as char)
  }

  /** Reading back what was written as ASCII text gives the same characters. */
  lemma ByteTextOfAscii(s: string)
    requires forall i :: 0 <= i < |s| ==> IsAscii(s[i])
    ensures ByteText(AsciiBytes(s)) == s
  {
    var t := ByteText(AsciiBytes(s));
    forall i | 0 <= i < |s| ensures t[i] == s[i] {
      assert AsciiBytes(s)[i] == ByteOf(s[i] as int);
    }
  }

  /** `f.read(n)`: at most the first `n` bytes. */
  function Take(b: seq<Byte>, n: nat): (r: seq<Byte>)
    ensures |r| == if |b| < n then |b| else n
    ensures r == b[..|r|]
  {
    if |b| < n then b else b[..n]
  }
}
