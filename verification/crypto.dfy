/** The cryptographic primitives, kept abstract: SHA-1 and SHA-256
    (sections 6.1 and 6.2 of FIPS 180-4) only by their output lengths, the
    password's UTF-8 encoding, and the AES-EAX encryption component, which is
    CTR mode (section 6.5 of NIST SP 800-38A): the ciphertext is the plaintext
    XOR a keystream determined by the key and the nonce. */
module Crypto {
  import opened Bytes

  type Digest20 = s: seq<Byte> | |s| == 20 witness seq(20, _ => 0)
  type Digest32 = s: seq<Byte> | |s| == 32 witness seq(32, _ => 0)
  type Iv = s: seq<Byte> | |s| == 16 witness seq(16, _ => 0)

  /** The foreign functions the handlers call. `keystream(key, iv, i)` is the
      i-th keystream byte of the cipher object `AES.new(key, MODE_EAX, iv)`; one
      byte per position makes every prefix of the keystream consistent with
      every longer one, which is what lets the cipher be fed chunk by chunk. */
  datatype Primitives = Primitives(
    sha1: seq<Byte> -> Digest20,
    sha256: seq<Byte> -> Digest32,
    utf8: string -> seq<Byte>,
    keystream: (seq<Byte>, seq<Byte>, nat) -> Byte)

  /** `hashlib.sha256(password.encode()).digest()`. */
  function DeriveKey(p: Primitives, password: string): Digest32 {
    p.sha256(p.utf8(password))
  }

  /** `hashlib.sha1(iv).digest()`, the IV check value stored in the trailer. */
  function IvHash(p: Primitives, iv: seq<Byte>): Digest20 {
    p.sha1(iv)
  }

  /** Key lengths AES accepts; `AES.new` raises for any other. */
  predicate ValidAesKey(key: seq<Byte>) {
    |key| == 16 || |key| == 24 || |key| == 32
  }

  /** The cipher applied to `data` starting `offset` bytes into the stream. */
  function Ctr(p: Primitives, key: seq<Byte>, iv: seq<Byte>, offset: nat, data: seq<Byte>): (r: seq<Byte>)
    ensures |r| == |data|
  {
    seq(|data|, i requires 0 <= i < |data| => data[i] ^ p.keystream(key, iv, offset + i))
  }

  /** A password-derived key is always one AES accepts. */
  lemma DerivedKeyIsValid(p: Primitives, password: string)
    ensures ValidAesKey(DeriveKey(p, password))
  {
  }

  /** Decryption is the same XOR, so it undoes encryption at the same offset. */
  lemma CtrInvolutive(p: Primitives, key: seq<Byte>, iv: seq<Byte>, offset: nat, data: seq<Byte>)
    ensures Ctr(p, key, iv, offset, Ctr(p, key, iv, offset, data)) == data
  {
    var once := Ctr(p, key, iv, offset, data);
    var twice := Ctr(p, key, iv, offset, once);
    forall i | 0 <= i < |data| ensures twice[i] == data[i] {
      var k := p.keystream(key, iv, offset + i);
      assert twice[i] == (data[i] ^ k) ^ k;
    }
  }

  /** Feeding the cipher two pieces in turn gives the same bytes as feeding it
      their concatenation at once. */
  lemma CtrSplit(p: Primitives, key: seq<Byte>, iv: seq<Byte>, offset: nat, a: seq<Byte>, b: seq<Byte>)
    ensures Ctr(p, key, iv, offset, a + b) == Ctr(p, key, iv, offset, a) + Ctr(p, key, iv, offset + |a|, b)
  {
    var whole := Ctr(p, key, iv, offset, a + b);
    var pieces := Ctr(p, key, iv, offset, a) + Ctr(p, key, iv, offset + |a|, b);
    forall i | 0 <= i < |a| + |b| ensures whole[i] == pieces[i] {
      if i >= |a| {
        assert (a + b)[i] == b[i - |a|];
      }
    }
  }

  /** Changing one ciphertext byte changes exactly the same plaintext byte, by
      the same XOR difference: nothing in the cipher detects it. */
  lemma CtrMalleable(p: Primitives, key: seq<Byte>, iv: seq<Byte>, offset: nat, data: seq<Byte>, i: nat, x: Byte)
    requires i < |data|
    ensures Ctr(p, key, iv, offset, data[i := x])
            == Ctr(p, key, iv, offset, data)[i := Ctr(p, key, iv, offset, data)[i] ^ data[i] ^ x]
  {
    var k := p.keystream(key, iv, offset + i);
    assert (x ^ k) == (data[i] ^ k) ^ data[i] ^ x;
  }
}
