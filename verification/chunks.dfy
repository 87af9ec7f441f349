/** The two chunk loops of the handlers. Encryption reads the plaintext
    `block_size` bytes at a time until a read comes back empty; decryption
    re-slices the ciphertext held in memory at offsets `0, block_size, ...`.
    Both feed one cipher object, so each piece continues the keystream where
    the previous one stopped. */
module Chunks {
  import opened Bytes
  import opened Crypto

  /** `file.read(size)` at position `pos`: up to `size` bytes, fewer at the end. */
  function ReadAt(data: seq<Byte>, pos: nat, size: nat): (r: seq<Byte>)
    requires pos <= |data|
    ensures |r| == if pos + size <= |data| then size else |data| - pos
    ensures r == data[pos..pos + |r|]
  {
    if pos + size <= |data| then data[pos..pos + size] else data[pos..]
  }

  /** One more piece of the stream, cut at `pos`, extends the processed prefix. */
  lemma CtrExtend(p: Primitives, key: seq<Byte>, iv: seq<Byte>, data: seq<Byte>, pos: nat, chunk: seq<Byte>)
    requires pos + |chunk| <= |data| && chunk == data[pos..pos + |chunk|]
    ensures Ctr(p, key, iv, 0, data[..pos]) + Ctr(p, key, iv, pos, chunk) == Ctr(p, key, iv, 0, data[..pos + |chunk|])
  {
    CtrSplit(p, key, iv, 0, data[..pos], chunk);
    assert data[..pos] + chunk == data[..pos + |chunk|];
  }

  /** The encryption loop: the ciphertext written and `completed_tasks`. */
  method EncryptChunks(p: Primitives, key: seq<Byte>, iv: seq<Byte>, plain: seq<Byte>, blockSize: nat)
    returns (ciphertext: seq<Byte>, completed: nat)
    requires blockSize > 0
    ensures ciphertext == Ctr(p, key, iv, 0, plain)
    ensures completed == |plain|
  {
    ciphertext := [];
    completed := 0;
    var pos := 0;
    while true
      invariant pos <= |plain|
      invariant completed == pos
      invariant ciphertext == Ctr(p, key, iv, 0, plain[..pos])
      decreases |plain| - pos
    {
      var chunk := ReadAt(plain, pos, blockSize);
      if chunk == [] {
        break;
      }
      CtrExtend(p, key, iv, plain, pos, chunk);
      ciphertext := ciphertext + Ctr(p, key, iv, completed, chunk);
      completed := completed + |chunk|;
      pos := pos + |chunk|;
    }
    assert plain[..pos] == plain;
  }

  /** The decryption loop: the plaintext written and `completed_tasks`. */
  method DecryptChunks(p: Primitives, key: seq<Byte>, iv: seq<Byte>, data: seq<Byte>, blockSize: nat)
    returns (plaintext: seq<Byte>, completed: nat)
    requires blockSize > 0
    ensures plaintext == Ctr(p, key, iv, 0, data)
    ensures completed == |data|
  {
    plaintext := [];
    completed := 0;
    var offset := 0;
    while offset < |data|
      invariant completed == if offset < |data| then offset else |data|
      invariant plaintext == Ctr(p, key, iv, 0, data[..completed])
      decreases |data| - offset
    {
      var chunk := if offset + blockSize <= |data| then data[offset..offset + blockSize] else data[offset..];
      var decrypted := Ctr(p, key, iv, completed, chunk);
      CtrExtend(p, key, iv, data, completed, chunk);
      plaintext := plaintext + decrypted;
      offset := offset + blockSize;
      completed := completed + |decrypted|;
    }
    assert data[..completed] == data;
  }

  /** Encrypting with one block size and decrypting with another gives back
      the plaintext, and both counters end at the plaintext's length. */
  method ChunkedRoundTrip(p: Primitives, key: seq<Byte>, iv: seq<Byte>, plain: seq<Byte>,
                          encryptBlock: nat, decryptBlock: nat)
    returns (recovered: seq<Byte>, encrypted: nat, decrypted: nat)
    requires encryptBlock > 0 && decryptBlock > 0
    ensures recovered == plain
    ensures encrypted == |plain| && decrypted == |plain|
  {
    var ciphertext;
    ciphertext, encrypted := EncryptChunks(p, key, iv, plain, encryptBlock);
    recovered, decrypted := DecryptChunks(p, key, iv, ciphertext, decryptBlock);
    CtrInvolutive(p, key, iv, 0, plain);
  }
}
