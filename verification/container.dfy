/** The container envelope: `[IV (16 bytes, when inline)] [ciphertext]
    [SHA-1(IV) (20 bytes)]`. The write side lays it out; the read side applies
    the size gates, finds the IV (inline or in the key file), compares its
    hash with the trailer and hands back the ciphertext in between. No
    authentication tag is written or checked. */
module Container {
  import opened Wrappers
  import opened Bytes
  import opened Crypto

  const IvLength: nat := 16
  const TrailerLength: nat := 20

  /** Where the decrypting side takes the IV from: the first 16 bytes of the
      container, or a separate key file (`None` when that path cannot be read
      as a file). */
  datatype IvSource = InlineIv | IvFile(content: Option<seq<Byte>>)

  /** What the read side extracts from a container it accepts. */
  datatype Envelope = Envelope(iv: Iv, body: seq<Byte>)

  datatype EnvelopeError =
    | ContainerMissing            // `getsize` of a missing container raises
    | ContainerTooShort           // inline IV and fewer than 36 bytes
    | IvKeyTooShort               // key file under 16 bytes
    | IvKeyUnreadable             // key file path cannot be opened
    | ContainerUnreadable         // external IV: container missing, or `seek(-20, SEEK_END)` fails
    | IvHashMismatch              // SHA-1 of the IV differs from the trailer
    | ExternalContainerTooShort   // external IV and fewer than 20 bytes

  /** The bytes the encryption handler writes to the container: the IV when it
      stays inline, each ciphertext chunk in order, then the IV's SHA-1. */
  function Seal(p: Primitives, key: seq<Byte>, iv: Iv, plain: seq<Byte>, inlineIv: bool): (c: seq<Byte>)
    ensures |c| == |plain| + (if inlineIv then 36 else 20)
  {
    (if inlineIv then iv else []) + Ctr(p, key, iv, 0, plain) + IvHash(p, iv)
  }

  /** The trailer: the last 20 bytes. */
  function Trailer(c: seq<Byte>): seq<Byte>
    requires |c| >= TrailerLength
  {
    c[|c| - TrailerLength..]
  }

  /** The decryption handler's checks on the container and IV, in their order. */
  function ReadEnvelope(p: Primitives, container: Option<seq<Byte>>, source: IvSource): (r: Result<Envelope, EnvelopeError>)
    ensures source.InlineIv? ==>
              (r.Success? <==> container.Some? && |container.value| >= 36
                               && IvHash(p, container.value[..16]) == Trailer(container.value))
    ensures source.IvFile? ==>
              (r.Success? <==> source.content.Some? && |source.content.value| >= 16
                               && container.Some? && |container.value| >= 20
                               && IvHash(p, source.content.value[..16]) == Trailer(container.value))
    ensures r.Success? && source.InlineIv? ==>
              container.value == r.value.iv + r.value.body + IvHash(p, r.value.iv)
    ensures r.Success? && source.IvFile? ==>
              r.value.iv == source.content.value[..16]
              && container.value == r.value.body + IvHash(p, r.value.iv)
  {
    match source
    case InlineIv =>
      if container.None? then Failure(ContainerMissing)
      else
        var c := container.value;
        if |c| < 36 then Failure(ContainerTooShort)
        else if IvHash(p, c[..16]) != Trailer(c) then Failure(IvHashMismatch)
        else
          assert c == c[..16] + c[16..|c| - 20] + Trailer(c);
          Success(Envelope(c[..16], c[16..|c| - 20]))
    case IvFile(content) =>
      if content.None? then Failure(IvKeyUnreadable)
      else if |content.value| < 16 then Failure(IvKeyTooShort)
      else if container.None? || |container.value| < 20 then Failure(ContainerUnreadable)
      else
        var iv := content.value[..16];
        var c := container.value;
        if IvHash(p, iv) != Trailer(c) then Failure(IvHashMismatch)
        else if |c| < 20 then Failure(ExternalContainerTooShort)
        else
          assert c == c[..|c| - 20] + Trailer(c);
          Success(Envelope(iv, c[..|c| - 20]))
  }

  /** An inline container is read back as the IV and ciphertext it was sealed
      with, and decrypting that ciphertext gives the plaintext. */
  lemma OpenSealedInline(p: Primitives, key: seq<Byte>, iv: Iv, plain: seq<Byte>)
    ensures var r := ReadEnvelope(p, Some(Seal(p, key, iv, plain, true)), InlineIv);
            r == Success(Envelope(iv, Ctr(p, key, iv, 0, plain)))
            && Ctr(p, key, iv, 0, r.value.body) == plain
  {
    var c := Seal(p, key, iv, plain, true);
    assert c[..16] == iv;
    assert Trailer(c) == IvHash(p, iv);
    assert c[16..|c| - 20] == Ctr(p, key, iv, 0, plain);
    CtrInvolutive(p, key, iv, 0, plain);
  }

  /** A container sealed without its IV is read back with the IV taken from
      any key file that starts with that IV. */
  lemma OpenSealedExternal(p: Primitives, key: seq<Byte>, iv: Iv, plain: seq<Byte>, ivFile: seq<Byte>)
    requires |ivFile| >= 16 && ivFile[..16] == iv
    ensures var r := ReadEnvelope(p, Some(Seal(p, key, iv, plain, false)), IvFile(Some(ivFile)));
            r == Success(Envelope(iv, Ctr(p, key, iv, 0, plain)))
            && Ctr(p, key, iv, 0, r.value.body) == plain
  {
    var c := Seal(p, key, iv, plain, false);
    assert Trailer(c) == IvHash(p, iv);
    assert c[..|c| - 20] == Ctr(p, key, iv, 0, plain);
    CtrInvolutive(p, key, iv, 0, plain);
  }

  /** The accept/reject verdict depends only on the container's length, its
      first 16 bytes and its last 20: two containers that agree there get the
      same verdict whatever their ciphertext bytes are. The key plays no part,
      so a wrong password is never rejected here. */
  lemma VerdictIgnoresCiphertext(p: Primitives, c1: seq<Byte>, c2: seq<Byte>, source: IvSource)
    requires |c1| == |c2|
    requires |c1| >= 16 ==> c1[..16] == c2[..16]
    requires |c1| >= 20 ==> Trailer(c1) == Trailer(c2)
    ensures ReadEnvelope(p, Some(c1), source).Success? == ReadEnvelope(p, Some(c2), source).Success?
  {
  }

  /** Changing one ciphertext byte of an accepted inline container leaves it
      accepted, and the decrypted output differs in exactly that position. */
  lemma TamperedCiphertextAccepted(p: Primitives, key: seq<Byte>, c: seq<Byte>, i: nat, x: Byte)
    requires ReadEnvelope(p, Some(c), InlineIv).Success?
    requires 16 <= i < |c| - 20
    ensures var r := ReadEnvelope(p, Some(c[i := x]), InlineIv);
            var e := ReadEnvelope(p, Some(c), InlineIv).value;
            r.Success? && r.value.iv == e.iv
            && Ctr(p, key, e.iv, 0, r.value.body)
               == Ctr(p, key, e.iv, 0, e.body)[i - 16 := Ctr(p, key, e.iv, 0, e.body)[i - 16] ^ c[i] ^ x]
  {
    var c2 := c[i := x];
    var e := ReadEnvelope(p, Some(c), InlineIv).value;
    assert c2[..16] == c[..16];
    assert Trailer(c2) == Trailer(c);
    var r := ReadEnvelope(p, Some(c2), InlineIv).value;
    assert r.body == e.body[i - 16 := x];
    CtrMalleable(p, key, e.iv, 0, e.body, i - 16, x);
  }

  /** The external-IV size check that follows the hash comparison never fires:
      a container under 20 bytes has already failed when its trailer was sought. */
  lemma ExternalSizeCheckUnreachable(p: Primitives, container: Option<seq<Byte>>, source: IvSource)
    ensures ReadEnvelope(p, container, source) != Failure(ExternalContainerTooShort)
  {
  }
}
