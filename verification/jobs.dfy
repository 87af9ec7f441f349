/** The two button handlers as whole jobs: each takes the filesystem before
    the click and returns the filesystem after it together with the result
    the user is shown. Randomness (the IV, the extraction name retries), the
    `os.walk` listing and the files that cannot be read are parameters. */
module Jobs {
  import opened Wrappers
  import opened Text
  import opened Bytes
  import opened Paths
  import opened FileSystems
  import opened Hex
  import opened Crypto
  import opened Container
  import opened Naming
  import opened Packer
  import opened Validation

  /** What the handlers depend on besides their inputs. */
  datatype Env = Env(prims: Primitives, tar: TarCodec, script: Path)

  /** The two encryption toggles that change what is written. */
  datatype EncryptOptions = EncryptOptions(separateIvKey: bool, recoveryKey: bool)

  datatype JobError =
    | Invalid(input: InputError)       // rejected before anything was written
    | SourceMissing                    // the file to encrypt is gone (the archive of an empty walk)
    | PackingFailed                    // adding a directory to the archive raised
    | RecoveryKeyUnreadable            // the recovery key path is not a readable file
    | CorruptRecoveryKey               // `bytes.fromhex` rejects the recovery key text
    | BadEnvelope(reason: EnvelopeError)
    | NoFreeExtractionName             // the supplied random draws ran out
    | BadKeyLength                     // `AES.new` rejects the key

  /** The files an encryption produced. */
  datatype Sealed = Sealed(container: Path, ivKey: Option<Path>, recoveryKey: Option<Path>)

  datatype EncryptOutcome = EncryptOutcome(fs: FileSystem, result: Result<Sealed, JobError>)

  /** The result of a decryption is the extraction directory. */
  datatype DecryptOutcome = DecryptOutcome(fs: FileSystem, result: Result<Path, JobError>)

  /** The write side after the container name is known: the container is
      created empty, then (if the source is still there) the IV goes inline or
      to its own key file, the ciphertext and the IV's SHA-1 follow, and the
      recovery key file is written last, as the key's hex digest. */
  function SealFile(env: Env, opts: EncryptOptions, fs: FileSystem, src: Path, out: Path,
                    key: Digest32, iv: Iv): (o: EncryptOutcome)
    ensures o.result.Success? <==> src in Write(fs, out, []).files
    ensures o.result.Failure? ==> o.result.error == SourceMissing && o.fs == Write(fs, out, [])
    ensures o.result.Success? ==>
              && o.result.value.container == out
              && (o.result.value.ivKey.Some? <==> opts.separateIvKey)
              && (o.result.value.recoveryKey.Some? <==> opts.recoveryKey)
  {
    var created := Write(fs, out, []);
    if src !in created.files then EncryptOutcome(created, Failure(SourceMissing))
    else
      var plain := created.files[src];
      var ivKey := if opts.separateIvKey then Some(IvKeyFileName(created, src)) else None;
      var withIv := if ivKey.Some? then Write(created, ivKey.value, iv) else created;
      var sealed := Write(withIv, out, Seal(env.prims, key, iv, plain, !opts.separateIvKey));
      var rkey := if opts.recoveryKey then Some(UniqueKeyFileName(sealed, src, ".rkey")) else None;
      HexDigestIsAscii(key);
      var done := if rkey.Some? then Write(sealed, rkey.value, AsciiBytes(HexDigest(key))) else sealed;
      EncryptOutcome(done, Success(Sealed(out, ivKey, rkey)))
  }

  /** The directory branch: pack into a fresh `.temp` archive inside the
      directory, pick the container name after packing, seal the archive and
      remove it once sealed. When packing raises, the handler reports the
      error and stops, leaving whatever packing left behind. */
  function EncryptDirectory(env: Env, opts: EncryptOptions, fs: FileSystem, path: Path, key: Digest32,
                            iv: Iv, walk: seq<WalkItem>, unreadable: set<Path>): (o: EncryptOutcome)
    requires IsDir(fs, path)
    ensures o.result.Failure? ==> o.result.error == PackingFailed || o.result.error == SourceMissing
  {
    var tmp := UniqueFileName(fs, path, ".temp").value;
    match CompressDirectory(env.tar, fs, path, tmp, env.script, walk, unreadable)
    case Failure(after) => EncryptOutcome(after, Failure(PackingFailed))
    case Success(packed) =>
      var out := UniqueFileName(packed.fs, path, ".pack").value;
      var o := SealFile(env, opts, packed.fs, tmp, out, key, iv);
      if o.result.Success? then EncryptOutcome(Remove(o.fs, tmp), o.result) else o
  }

  /** `encrypt_button_click`, with the failure warning of the directory
      packer shown as intended. A directory is packed into a `.temp` archive
      inside itself, which is encrypted and then removed. */
  function EncryptJob(env: Env, opts: EncryptOptions, fs: FileSystem, path: Path, password: string,
                      confirm: string, iv: Iv, walk: seq<WalkItem>, unreadable: set<Path>): (o: EncryptOutcome)
    ensures ValidateEncrypt(fs, path, password, confirm).Some? ==>
              o == EncryptOutcome(fs, Failure(Invalid(ValidateEncrypt(fs, path, password, confirm).value)))
    ensures o.result.Success? ==> ValidateEncrypt(fs, path, password, confirm).None?
  {
    var key := DeriveKey(env.prims, password);
    match ValidateEncrypt(fs, path, password, confirm)
    case Some(e) => EncryptOutcome(fs, Failure(Invalid(e)))
    case None =>
      if IsDir(fs, path) then
        EncryptDirectory(env, opts, fs, path, key, iv, walk, unreadable)
      else
        var out := UniqueFileName(fs, path, ".pack").value;
        SealFile(env, opts, fs, path, out, key, iv)
  }

  /** The key a decryption uses: SHA-256 of the password when no recovery key
      path is given, otherwise the first 64 characters of that file read as
      hex. */
  function ResolveKey(p: Primitives, fs: FileSystem, password: string, rk: Path): (r: Result<seq<Byte>, JobError>)
    ensures rk == [] ==> r == Success(DeriveKey(p, password))
    ensures rk != [] && rk !in fs.files ==> r == Failure(RecoveryKeyUnreadable)
    ensures rk != [] && r.Success? ==> rk in fs.files && FromHex(ByteText(Take(fs.files[rk], 64))) == Some(r.value)
    ensures r.Failure? ==> r.error == RecoveryKeyUnreadable || r.error == CorruptRecoveryKey
  {
    if rk == [] then Success(DeriveKey(p, password))
    else if rk !in fs.files then Failure(RecoveryKeyUnreadable)
    else
      match FromHex(ByteText(Take(fs.files[rk], 64)))
      case None => Failure(CorruptRecoveryKey)
      case Some(k) => Success(k)
  }

  /** The container a decryption reads: for a directory, `<name>.pack` inside it. */
  function ContainerPath(fs: FileSystem, path: Path): (r: Path)
    ensures !IsDir(fs, path) ==> r == path
    ensures IsDir(fs, path) ==> EndsWith(r, Basename(path) + ".pack")
  {
    if IsDir(fs, path) then Join(path, Basename(path) + ".pack") else path
  }

  /** A directory's container is named after the directory and lies directly
      inside it. */
  lemma ContainerInsideDirectory(fs: FileSystem, path: Path)
    requires IsDir(fs, path)
    ensures Basename(ContainerPath(fs, path)) == Basename(path) + ".pack"
    ensures path != [] && path[|path| - 1] != '/' ==> Dirname(ContainerPath(fs, path)) == path
  {
    var name := Basename(path) + ".pack";
    assert '/' !in name by {
      forall i | 0 <= i < |name| ensures name[i] != '/' {
        if i < |Basename(path)| {
          assert name[i] == Basename(path)[i];
        }
      }
    }
    JoinRelative(path, name);
    BasenameAfterSep(JoinPrefix(path), name);
    if path != [] && path[|path| - 1] != '/' {
      DirnameOfChild(path, name);
    }
  }

  /** The ciphertext as read the second time, after the output file has been
      created: everything after the IV when it is inline, minus the last 20
      bytes, with Python's slicing of short reads. */
  function BodyAfterOpen(c: seq<Byte>, inlineIv: bool): (r: seq<Byte>)
    ensures inlineIv && |c| >= 36 ==> r == c[16..|c| - 20]
    ensures !inlineIv && |c| >= 20 ==> r == c[..|c| - 20]
    ensures c == [] ==> r == []
  {
    var d := if inlineIv then (if |c| < 16 then [] else c[16..]) else c;
    if |d| < 20 then [] else d[..|d| - 20]
  }

  /** The name of the decrypted file inside the extraction directory: the
      container's basename without `.pack`, or the basename as it is (also
      when the basename is dots followed by `.pack`, which `splitext` does
      not split). */
  function DecryptedFileName(f: Path): (r: string)
    ensures '/' !in r
    ensures EndsWith(f, ".pack") && HasStem(Basename(f)) ==> r + ".pack" == Basename(f)
    ensures !(EndsWith(f, ".pack") && HasStem(Basename(f))) ==> r == Basename(f)
  {
    if EndsWith(f, ".pack") then
      SplitExtOfBasename(f);
      PackExtension(Basename(f));
      SplitExt(Basename(f)).0
    else Basename(f)
  }

  /** Something other than a dot comes before the final `.pack`. */
  predicate HasStem(b: string) {
    exists i :: 0 <= i < |b| - 5 && b[i] != '.'
  }

  /** `splitext` of a name ending in `.pack` splits that suffix off exactly
      when something other than dots precedes it. */
  lemma PackExtension(b: string)
    requires '/' !in b
    requires EndsWith(b, ".pack")
    ensures HasStem(b) ==> SplitExt(b) == (b[..|b| - 5], ".pack")
    ensures !HasStem(b) ==> SplitExt(b) == (b, [])
  {
    assert LastIndexOf(b, '/') == -1;
    assert b[|b| - 5..] == ".pack";
    assert b[|b| - 5] == '.';
    assert LastIndexOf(b, '.') == |b| - 5;
  }

  /** The decrypted file name as written: a container that does not end in
      `.pack` gives its whole path, and joining an absolute path replaces the
      extraction directory. */
  function DecryptedFileNameAsWritten(f: Path): (r: string)
    ensures EndsWith(f, ".pack") ==> r == DecryptedFileName(f)
    ensures !EndsWith(f, ".pack") ==> r == f
  {
    if EndsWith(f, ".pack") then SplitExt(Basename(f)).0 else f
  }

  /** As written, an absolute container path without `.pack` is itself the
      output path, whatever the extraction directory: the container is
      truncated by `open(..., "wb")` before its ciphertext is read. */
  lemma OutputIsContainerAsWritten(f: Path, ext: Path)
    requires |f| > 0 && f[0] == '/'
    requires !EndsWith(f, ".pack")
    ensures Join(ext, DecryptedFileNameAsWritten(f)) == f
  {
  }

  /** With the basename, the output path is never the container: it lies one
      level below a directory named after the container, next to it. */
  lemma {:induction false} OutputIsNotContainer(f: Path, s: string, name: string)
    requires s != [] && '/' !in s && '/' !in name
    ensures Join(Join(Dirname(f), s), name) != f
  {
    var d := Dirname(f);
    JoinRelative(d, s);
    var ext := JoinPrefix(d) + s;
    assert ext[|ext| - 1] == s[|s| - 1];
    assert s[|s| - 1] in s;
    DirnameOfChild(ext, name);
    // the output's directory part is `ext`, which is longer than `d`
    assert |ext| > |d|;
  }

  /** The writing half of decryption: create the extraction directory and the
      empty output file, read the container's ciphertext again, decrypt it
      into the output and unpack it if it is a packed archive. */
  function WriteDecrypted(env: Env, fs: FileSystem, f: Path, key: seq<Byte>, inlineIv: bool, iv: Iv,
                          ext: Path, name: string): (o: DecryptOutcome)
    ensures ext in o.fs.dirs
    ensures o.result.Success? <==> ValidAesKey(key)
    ensures o.result.Success? ==> o.result.value == ext
    ensures o.result.Failure? ==> o.result.error == BadKeyLength
  {
    var made := MakeDir(fs, ext);
    var out := Join(ext, name);
    var created := Write(made, out, []);
    if !ValidAesKey(key) then DecryptOutcome(created, Failure(BadKeyLength))
    else
      var body := BodyAfterOpen(if f in created.files then created.files[f] else [], inlineIv);
      var plain := Ctr(env.prims, key, iv, 0, body);
      // the second write to `out` replaces the empty file the first one made
      var written := Write(made, out, plain);
      DecryptOutcome(Unpack(written, env.tar, ext, out, plain), Success(ext))
  }

  /** Decryption once the key is known. Nothing is written until the
      container and IV pass their checks and a free extraction directory is
      found; then the directory and an empty output file are created, the
      ciphertext is read again and decrypted into the output, and a packed
      archive is unpacked. */
  function DecryptWithKey(env: Env, fs: FileSystem, path: Path, key: seq<Byte>, ivk: Path,
                          draws: seq<Draw>, name: Path -> string): (o: DecryptOutcome)
    ensures ReadEnvelope(env.prims, Read(fs, ContainerPath(fs, path)), if ivk == [] then InlineIv else IvFile(Read(fs, ivk))).Failure?
            ==> o.fs == fs && o.result.Failure?
    ensures o.result == Failure(NoFreeExtractionName) ==> o.fs == fs
    ensures o.result.Success? ==>
              && !Exists(fs, o.result.value)
              && o.result.value in o.fs.dirs
              && ExtractionDir(fs, Dirname(ContainerPath(fs, path)), ExtractionBase(ContainerPath(fs, path)), draws)
                 == Some(o.result.value)
  {
    var f := ContainerPath(fs, path);
    var inlineIv := ivk == [];
    var source := if inlineIv then InlineIv else IvFile(Read(fs, ivk));
    match ReadEnvelope(env.prims, Read(fs, f), source)
    case Failure(e) => DecryptOutcome(fs, Failure(BadEnvelope(e)))
    case Success(envelope) =>
      match ExtractionDir(fs, Dirname(f), ExtractionBase(f), draws)
      case None => DecryptOutcome(fs, Failure(NoFreeExtractionName))
      case Some(ext) => WriteDecrypted(env, fs, f, key, inlineIv, envelope.iv, ext, name(f))
  }

  /** `decrypt_button_click`, naming the output after the container's basename. */
  function DecryptJob(env: Env, fs: FileSystem, path: Path, password: string, recoveryFile: string,
                      ivKeyFile: string, draws: seq<Draw>): (o: DecryptOutcome)
    ensures ValidateDecrypt(fs, path, password, recoveryFile, ivKeyFile).Some? ==>
              o == DecryptOutcome(fs, Failure(Invalid(ValidateDecrypt(fs, path, password, recoveryFile, ivKeyFile).value)))
    ensures o.result.Success? ==> ValidateDecrypt(fs, path, password, recoveryFile, ivKeyFile).None?
  {
    match ValidateDecrypt(fs, path, password, recoveryFile, ivKeyFile)
    case Some(e) => DecryptOutcome(fs, Failure(Invalid(e)))
    case None =>
      match ResolveKey(env.prims, fs, password, Strip(recoveryFile))
      case Failure(e) => DecryptOutcome(fs, Failure(e))
      case Success(key) => DecryptWithKey(env, fs, path, key, Strip(ivKeyFile), draws, DecryptedFileName)
  }

  /** `decrypt_button_click` as written, naming the output with the whole
      container path when it does not end in `.pack`. */
  function DecryptJobAsWritten(env: Env, fs: FileSystem, path: Path, password: string, recoveryFile: string,
                               ivKeyFile: string, draws: seq<Draw>): (o: DecryptOutcome)
    ensures ValidateDecrypt(fs, path, password, recoveryFile, ivKeyFile).Some? ==> o.fs == fs
  {
    match ValidateDecrypt(fs, path, password, recoveryFile, ivKeyFile)
    case Some(e) => DecryptOutcome(fs, Failure(Invalid(e)))
    case None =>
      match ResolveKey(env.prims, fs, password, Strip(recoveryFile))
      case Failure(e) => DecryptOutcome(fs, Failure(e))
      case Success(key) => DecryptWithKey(env, fs, path, key, Strip(ivKeyFile), draws, DecryptedFileNameAsWritten)
  }

  /** With the basename, the decrypted output never lands on the container:
      the extraction directory is a fresh child of the container's directory
      and the output is a direct child of it. */
  lemma DecryptedPathIsNotContainer(fs: FileSystem, f: Path, draws: seq<Draw>)
    requires ExtractionDir(fs, Dirname(f), ExtractionBase(f), draws).Some?
    ensures Join(ExtractionDir(fs, Dirname(f), ExtractionBase(f), draws).value, DecryptedFileName(f)) != f
  {
    ExtractionBaseNoSep(f);
    ExtractionDirIsChild(fs, Dirname(f), ExtractionBase(f), draws);
    var s :| s != [] && '/' !in s && ExtractionDir(fs, Dirname(f), ExtractionBase(f), draws).value == Join(Dirname(f), s);
    OutputIsNotContainer(f, s, DecryptedFileName(f));
  }

  /** A sealed source leaves the container, and any key files, as fresh files
      holding what was written, and every file that existed before keeps its
      contents. */
  lemma SealFileContents(env: Env, opts: EncryptOptions, fs: FileSystem, src: Path, out: Path, key: Digest32, iv: Iv)
    requires src in fs.files && !Exists(fs, out)
    ensures var o := SealFile(env, opts, fs, src, out, key, iv);
            && o.result.Success?
            && o.fs.dirs == fs.dirs
            && out in o.fs.files
            && o.fs.files[out] == Seal(env.prims, key, iv, fs.files[src], !opts.separateIvKey)
            && (forall q :: q in fs.files ==> q in o.fs.files && o.fs.files[q] == fs.files[q])
            && (opts.separateIvKey ==>
                  var k := o.result.value.ivKey.value;
                  !Exists(fs, k) && k != out && k in o.fs.files && o.fs.files[k] == iv)
            && (opts.recoveryKey ==>
                  var k := o.result.value.recoveryKey.value;
                  !Exists(fs, k) && k != out && k in o.fs.files && ByteText(o.fs.files[k]) == HexDigest(key))
  {
    HexDigestIsAscii(key);
    ByteTextOfAscii(HexDigest(key));
  }

  /** Encrypting a file creates a fresh container holding the sealed contents
      of the file, and keeps every file that was there. */
  lemma EncryptFile(env: Env, opts: EncryptOptions, fs: FileSystem, path: Path, password: string,
                    iv: Iv, walk: seq<WalkItem>, unreadable: set<Path>)
    requires path != [] && IsFile(fs, path) && !IsDir(fs, path)
    requires !IsBlank(password)
    ensures var o := EncryptJob(env, opts, fs, path, password, password, iv, walk, unreadable);
            && o.result.Success?
            && o.result.value.container == UniqueFileName(fs, path, ".pack").value
            && o.result.value.container in o.fs.files
            && o.fs.files[o.result.value.container]
               == Seal(env.prims, DeriveKey(env.prims, password), iv, fs.files[path], !opts.separateIvKey)
  {
    var out := UniqueFileName(fs, path, ".pack").value;
    SealFileContents(env, opts, fs, path, out, DeriveKey(env.prims, password), iv);
  }

  /** Two paths ending in suffixes with different last characters differ. */
  lemma SuffixesApart(p: Path, q: Path, a: string, b: string)
    requires EndsWith(p, a) && EndsWith(q, b)
    requires a != [] && b != [] && a[|a| - 1] != b[|b| - 1]
    ensures p != q
  {
    assert p[|p| - 1] == p[|p| - |a|..][|a| - 1];
    assert q[|q| - 1] == q[|q| - |b|..][|b| - 1];
  }

  /** Encrypting a directory packs it into a `.temp` archive, seals that
      archive into a fresh `.pack` container and removes the archive; the
      directories are left as they were. */
  lemma EncryptDirectoryContents(env: Env, opts: EncryptOptions, fs: FileSystem, path: Path, key: Digest32,
                                 iv: Iv, walk: seq<WalkItem>, unreadable: set<Path>)
    requires IsDir(fs, path)
    requires !WalkRaises(path, unreadable, walk)
    requires WalkFile(SentinelName) in walk
    requires SentinelPath(path) != env.script && SentinelPath(path) !in unreadable
    ensures var tmp := UniqueFileName(fs, path, ".temp").value;
            var c := CompressDirectory(env.tar, fs, path, tmp, env.script, walk, unreadable);
            var o := EncryptDirectory(env, opts, fs, path, key, iv, walk, unreadable);
            && c.Success?
            && var packed := c.value;
            && SentinelPath(path) in packed.packed
            && tmp !in o.fs.files
            && o.fs.dirs == fs.dirs
            && o.result.Success?
            && var c := o.result.value.container;
               && EndsWith(c, ".pack")
               && c in o.fs.files && c !in o.fs.dirs
               && o.fs.files[c] == Seal(env.prims, key, iv, env.tar.write(packed.entries), !opts.separateIvKey)
               && (opts.separateIvKey ==>
                     var k := o.result.value.ivKey.value;
                     k != c && k in o.fs.files && o.fs.files[k] == iv)
  {
    var tmp := UniqueFileName(fs, path, ".temp").value;
    var c := CompressDirectory(env.tar, fs, path, tmp, env.script, walk, unreadable);
    assert c.Success? && SentinelPath(path) in c.value.packed && tmp in c.value.fs.files by {
      UniqueFileNameSuffix(fs, path, ".temp");
      SuffixesApart(tmp, SentinelPath(path), ".temp", SentinelName);
      SentinelIsPacked(env.tar, fs, path, tmp, env.script, walk, unreadable);
    }
    var packed := c.value;
    assert packed.fs.dirs == fs.dirs;
    var out := UniqueFileName(packed.fs, path, ".pack").value;
    assert EndsWith(out, ".pack") && !Exists(packed.fs, out) by {
      UniqueFileNameSuffix(packed.fs, path, ".pack");
    }
    var sealed := SealFile(env, opts, packed.fs, tmp, out, key, iv);
    SealAndDiscard(env, opts, packed.fs, tmp, out, key, iv);
    assert EncryptDirectory(env, opts, fs, path, key, iv, walk, unreadable)
           == EncryptOutcome(Remove(sealed.fs, tmp), sealed.result);
  }

  /** Encrypting a directory fails in packing exactly when a walked
      subdirectory holds, below it, a file that cannot be read: the handler
      then reports the error and stops, and the sentinel and the `.temp`
      archive stay in the directory; no other file and no directory changes. */
  lemma PackingFailureLeavesFiles(env: Env, opts: EncryptOptions, fs: FileSystem, path: Path, password: string,
                                  iv: Iv, walk: seq<WalkItem>, unreadable: set<Path>)
    requires path != [] && IsDir(fs, path)
    requires !IsBlank(password)
    ensures var o := EncryptJob(env, opts, fs, path, password, password, iv, walk, unreadable);
            var tmp := UniqueFileName(fs, path, ".temp").value;
            && (o.result == Failure(PackingFailed) <==> WalkRaises(path, unreadable, walk))
            && (WalkRaises(path, unreadable, walk) ==>
                  && SentinelPath(path) in o.fs.files
                  && tmp in o.fs.files
                  && o.fs.dirs == fs.dirs
                  && forall q :: q != tmp && q != SentinelPath(path) ==>
                       (q in o.fs.files <==> q in fs.files) && (q in fs.files ==> o.fs.files[q] == fs.files[q]))
  {
    var key := DeriveKey(env.prims, password);
    assert EncryptJob(env, opts, fs, path, password, password, iv, walk, unreadable)
           == EncryptDirectory(env, opts, fs, path, key, iv, walk, unreadable);
    PackingFailureOfDirectory(env, opts, fs, path, key, iv, walk, unreadable);
  }

  /** The directory branch fails in packing exactly when the packer raises,
      and then leaves what the packer left. */
  lemma PackingFailureOfDirectory(env: Env, opts: EncryptOptions, fs: FileSystem, path: Path, key: Digest32,
                                  iv: Iv, walk: seq<WalkItem>, unreadable: set<Path>)
    requires IsDir(fs, path)
    ensures var o := EncryptDirectory(env, opts, fs, path, key, iv, walk, unreadable);
            var tmp := UniqueFileName(fs, path, ".temp").value;
            var c := CompressDirectory(env.tar, fs, path, tmp, env.script, walk, unreadable);
            && (o.result == Failure(PackingFailed) <==> WalkRaises(path, unreadable, walk))
            && (WalkRaises(path, unreadable, walk) ==> c.Failure? && o.fs == c.error)
  {
    var tmp := UniqueFileName(fs, path, ".temp").value;
    PackingAborts(env.tar, fs, path, tmp, env.script, walk, unreadable);
  }

  /** Sealing a file into a fresh container and then removing the file keeps
      the container and the IV key file. */
  lemma SealAndDiscard(env: Env, opts: EncryptOptions, fs: FileSystem, src: Path, out: Path, key: Digest32, iv: Iv)
    requires src in fs.files && !Exists(fs, out)
    ensures var o := SealFile(env, opts, fs, src, out, key, iv);
            var r := Remove(o.fs, src);
            && src !in r.files
            && r.dirs == fs.dirs
            && o.result.Success?
            && out in r.files && out !in r.dirs
            && r.files[out] == Seal(env.prims, key, iv, fs.files[src], !opts.separateIvKey)
            && (opts.separateIvKey ==>
                  var k := o.result.value.ivKey.value;
                  k != out && k in r.files && r.files[k] == iv)
  {
    SealFileContents(env, opts, fs, src, out, key, iv);
  }

  /** The filesystem a decryption leaves before unpacking: the extraction
      directory made and the output file holding `plain`. */
  function WithOutput(fs: FileSystem, ext: Path, name: string, plain: seq<Byte>): FileSystem {
    Write(MakeDir(fs, ext), Join(ext, name), plain)
  }

  /** What a decryption writes once the container has been accepted: the
      output, one level below the fresh extraction directory, holds the
      decrypted ciphertext, and is then unpacked. */
  lemma DecryptedOutput(env: Env, fs: FileSystem, f: Path, key: seq<Byte>, inlineIv: bool, iv: Iv,
                        draws: seq<Draw>, plain: seq<Byte>)
    requires ValidAesKey(key)
    requires f in fs.files && fs.files[f] == Seal(env.prims, key, iv, plain, inlineIv)
    requires ExtractionDir(fs, Dirname(f), ExtractionBase(f), draws).Some?
    ensures var ext := ExtractionDir(fs, Dirname(f), ExtractionBase(f), draws).value;
            var o := WriteDecrypted(env, fs, f, key, inlineIv, iv, ext, DecryptedFileName(f));
            && o.result == Success(ext)
            && o.fs == Unpack(WithOutput(fs, ext, DecryptedFileName(f), plain), env.tar, ext,
                              Join(ext, DecryptedFileName(f)), plain)
  {
    var ext := ExtractionDir(fs, Dirname(f), ExtractionBase(f), draws).value;
    DecryptedPathIsNotContainer(fs, f, draws);
    SealedBody(env.prims, key, iv, plain, inlineIv);
    DecryptedWrite(env, fs, f, key, inlineIv, iv, ext, DecryptedFileName(f), plain);
  }

  /** Once the output path differs from the container and the container's
      ciphertext decrypts to `plain`, the output holds `plain`. */
  lemma DecryptedWrite(env: Env, fs: FileSystem, f: Path, key: seq<Byte>, inlineIv: bool, iv: Iv,
                       ext: Path, name: string, plain: seq<Byte>)
    requires ValidAesKey(key)
    requires f in fs.files && Join(ext, name) != f
    requires BodyAfterOpen(fs.files[f], inlineIv) == Ctr(env.prims, key, iv, 0, plain)
    ensures var o := WriteDecrypted(env, fs, f, key, inlineIv, iv, ext, name);
            && o.result == Success(ext)
            && o.fs == Unpack(WithOutput(fs, ext, name, plain), env.tar, ext, Join(ext, name), plain)
  {
    var out := Join(ext, name);
    var created := Write(MakeDir(fs, ext), out, []);
    var plain' := Ctr(env.prims, key, iv, 0, BodyAfterOpen(if f in created.files then created.files[f] else [], inlineIv));
    assert plain' == plain by {
      RereadDecrypts(env, fs, f, key, inlineIv, iv, out, created, plain);
    }
  }

  /** The output's creation leaves the container alone, so the second read
      still finds the ciphertext of `plain`. */
  lemma RereadDecrypts(env: Env, fs: FileSystem, f: Path, key: seq<Byte>, inlineIv: bool, iv: Iv,
                       out: Path, created: FileSystem, plain: seq<Byte>)
    requires f in fs.files && out != f
    requires f in created.files && created.files[f] == fs.files[f]
    requires BodyAfterOpen(fs.files[f], inlineIv) == Ctr(env.prims, key, iv, 0, plain)
    ensures Ctr(env.prims, key, iv, 0, BodyAfterOpen(if f in created.files then created.files[f] else [], inlineIv)) == plain
  {
    CtrInvolutive(env.prims, key, iv, 0, plain);
  }

  /** The second read of a sealed container yields exactly its ciphertext. */
  lemma SealedBody(p: Primitives, key: seq<Byte>, iv: Iv, plain: seq<Byte>, inlineIv: bool)
    ensures BodyAfterOpen(Seal(p, key, iv, plain, inlineIv), inlineIv) == Ctr(p, key, iv, 0, plain)
  {
    var c := Seal(p, key, iv, plain, inlineIv);
    if inlineIv {
      assert c[16..|c| - 20] == Ctr(p, key, iv, 0, plain);
    } else {
      assert c[..|c| - 20] == Ctr(p, key, iv, 0, plain);
    }
  }

  /** A decryption with a non-blank password, no recovery key and an IV key
      path that is empty or exists passes every input check. */
  lemma PasswordInputsValid(fs: FileSystem, c: Path, password: string, ivText: string)
    requires c != [] && (IsFile(fs, c) || IsDir(fs, c))
    requires !IsBlank(password)
    requires Strip(ivText) != [] ==> Exists(fs, Strip(ivText))
    ensures ValidateDecrypt(fs, c, password, "", ivText).None?
  {
    StripEmptyIffBlank("");
  }

  /** Decrypting a container that holds a sealed payload, with the password
      it was sealed under and, for an external IV, the path of a key file
      holding the IV, writes the payload into a fresh extraction directory and
      unpacks it, unless the random draws run out. */
  lemma DecryptSealed(env: Env, fs: FileSystem, c: Path, password: string, ivText: string,
                      draws: seq<Draw>, iv: Iv, plain: seq<Byte>, inlineIv: bool)
    requires c != [] && c in fs.files && !IsDir(fs, c)
    requires fs.files[c] == Seal(env.prims, DeriveKey(env.prims, password), iv, plain, inlineIv)
    requires !IsBlank(password)
    requires inlineIv ==> ivText == []
    requires !inlineIv ==> ivText != [] && Strip(ivText) == ivText && ivText in fs.files && fs.files[ivText] == iv
    ensures var d := DecryptJob(env, fs, c, password, "", ivText, draws);
            && (d.result.Success? || d.result == Failure(NoFreeExtractionName))
            && (d.result.Success? ==>
                  var ext := d.result.value;
                  && !Exists(fs, ext)
                  && d.fs == Unpack(WithOutput(fs, ext, DecryptedFileName(c), plain), env.tar, ext,
                                    Join(ext, DecryptedFileName(c)), plain))
  {
    var key := DeriveKey(env.prims, password);
    assert ValidateDecrypt(fs, c, password, "", ivText).None? by {
      PasswordInputsValid(fs, c, password, ivText);
    }
    assert ResolveKey(env.prims, fs, password, Strip("")) == Success(key);
    DerivedKeyIsValid(env.prims, password);
    if inlineIv {
      OpenSealedInline(env.prims, key, iv, plain);
    } else {
      OpenSealedExternal(env.prims, key, iv, plain, iv);
    }
    if ExtractionDir(fs, Dirname(c), ExtractionBase(c), draws).Some? {
      DecryptedOutput(env, fs, c, key, inlineIv, iv, draws, plain);
    }
  }

  /** Encrypting a file and decrypting its container with the same password
      (and with the IV key file, when one was written) puts the file's
      contents into the extraction directory, unless the supplied random draws
      run out; a payload that happens to be a packed archive is left out. */
  lemma FileRoundTrip(env: Env, opts: EncryptOptions, fs: FileSystem, path: Path, password: string,
                      iv: Iv, walk: seq<WalkItem>, unreadable: set<Path>, draws: seq<Draw>)
    requires path != [] && IsFile(fs, path) && !IsDir(fs, path)
    requires !IsBlank(password)
    requires !UnpackApplies(env.tar, fs.files[path])
    requires var e := EncryptJob(env, opts, fs, path, password, password, iv, walk, unreadable);
             e.result.Success? && e.result.value.ivKey.Some? ==> Strip(e.result.value.ivKey.value) == e.result.value.ivKey.value
    ensures var e := EncryptJob(env, opts, fs, path, password, password, iv, walk, unreadable);
            var c := e.result.value.container;
            var ivText := if e.result.value.ivKey.Some? then e.result.value.ivKey.value else "";
            var d := DecryptJob(env, e.fs, c, password, "", ivText, draws);
            && (d.result.Success? || d.result == Failure(NoFreeExtractionName))
            && (d.result.Success? ==>
                  Join(d.result.value, DecryptedFileName(c)) in d.fs.files
                  && d.fs.files[Join(d.result.value, DecryptedFileName(c))] == fs.files[path])
  {
    var key := DeriveKey(env.prims, password);
    var out := UniqueFileName(fs, path, ".pack").value;
    SealFileContents(env, opts, fs, path, out, key, iv);
    EncryptFile(env, opts, fs, path, password, iv, walk, unreadable);
    var e := EncryptJob(env, opts, fs, path, password, password, iv, walk, unreadable);
    UniqueFileNameSuffix(fs, path, ".pack");
    var ivText := if e.result.value.ivKey.Some? then e.result.value.ivKey.value else "";
    DecryptSealed(env, e.fs, out, password, ivText, draws, iv, fs.files[path], !opts.separateIvKey);
  }
  /** Encrypting a directory and decrypting its container with the same
      password (and with the IV key file, when one was written) restores every
      compressed file at the same relative path below the extraction
      directory, and leaves no sentinel there, unless the supplied random
      draws run out. A member named like the decrypted archive itself is
      removed after unpacking, so it is left out. */
  lemma DirectoryRoundTrip(env: Env, opts: EncryptOptions, fs: FileSystem, path: Path, password: string,
                           iv: Iv, walk: seq<WalkItem>, unreadable: set<Path>, draws: seq<Draw>, rel: string)
    requires path != [] && IsDir(fs, path)
    requires !IsBlank(password)
    requires Faithful(env.tar)
    requires forall i :: 0 <= i < |walk| ==> RelativeName(walk[i].rel)
    requires !WalkRaises(path, unreadable, walk)
    requires WalkFile(SentinelName) in walk
    requires SentinelPath(path) != env.script && SentinelPath(path) !in unreadable
    requires WalkFile(rel) in walk && rel != SentinelName
    requires Join(path, rel) in fs.files && Join(path, rel) != env.script && Join(path, rel) !in unreadable
    requires var e := EncryptJob(env, opts, fs, path, password, password, iv, walk, unreadable);
             e.result.Success? ==>
               && rel != DecryptedFileName(e.result.value.container)
               && (e.result.value.ivKey.Some? ==> Strip(e.result.value.ivKey.value) == e.result.value.ivKey.value)
    ensures var e := EncryptJob(env, opts, fs, path, password, password, iv, walk, unreadable);
            && e.result.Success?
            && var c := e.result.value.container;
               var ivText := if e.result.value.ivKey.Some? then e.result.value.ivKey.value else "";
               var d := DecryptJob(env, e.fs, c, password, "", ivText, draws);
               && (d.result.Success? || d.result == Failure(NoFreeExtractionName))
               && (d.result.Success? ==>
                     && Join(d.result.value, SentinelName) !in d.fs.files
                     && Join(d.result.value, rel) in d.fs.files
                     && d.fs.files[Join(d.result.value, rel)] == fs.files[Join(path, rel)])
  {
    var key := DeriveKey(env.prims, password);
    var tmp := UniqueFileName(fs, path, ".temp").value;
    EncryptDirectoryContents(env, opts, fs, path, key, iv, walk, unreadable);
    var packed := CompressDirectory(env.tar, fs, path, tmp, env.script, walk, unreadable).value;
    var e := EncryptJob(env, opts, fs, path, password, password, iv, walk, unreadable);
    assert e == EncryptDirectory(env, opts, fs, path, key, iv, walk, unreadable);
    var c := e.result.value.container;
    var ivText := if e.result.value.ivKey.Some? then e.result.value.ivKey.value else "";
    var plain := env.tar.write(packed.entries);
    // the file is among the compressed ones
    assert Join(path, rel) in packed.packed by {
      var i :| 0 <= i < |walk| && walk[i] == WalkFile(rel);
      CompressedFiles(env.tar, fs, path, tmp, env.script, walk, unreadable, Join(path, rel));
    }
    assert RelativeName(rel) by {
      var i :| 0 <= i < |walk| && walk[i] == WalkFile(rel);
    }
    UnpackSealedArchive(env, e.fs, c, password, ivText, draws, iv, !opts.separateIvKey,
                        fs, path, tmp, walk, unreadable, rel);
  }

  /** Decrypting a container that seals a packed directory's archive unpacks
      each compressed file at its relative path. */
  lemma UnpackSealedArchive(env: Env, efs: FileSystem, c: Path, password: string, ivText: string,
                            draws: seq<Draw>, iv: Iv, inlineIv: bool,
                            fs: FileSystem, path: Path, tmp: Path, walk: seq<WalkItem>, unreadable: set<Path>,
                            rel: string)
    requires c != [] && c in efs.files && !IsDir(efs, c)
    requires CompressDirectory(env.tar, fs, path, tmp, env.script, walk, unreadable).Success?
    requires efs.files[c] == Seal(env.prims, DeriveKey(env.prims, password), iv,
                                  env.tar.write(CompressDirectory(env.tar, fs, path, tmp, env.script, walk, unreadable).value.entries),
                                  inlineIv)
    requires !IsBlank(password)
    requires inlineIv ==> ivText == []
    requires !inlineIv ==> ivText != [] && Strip(ivText) == ivText && ivText in efs.files && efs.files[ivText] == iv
    requires Faithful(env.tar)
    requires forall i :: 0 <= i < |walk| ==> RelativeName(walk[i].rel)
    requires SentinelPath(path) in CompressDirectory(env.tar, fs, path, tmp, env.script, walk, unreadable).value.packed
    requires Join(path, rel) in CompressDirectory(env.tar, fs, path, tmp, env.script, walk, unreadable).value.packed
    requires RelativeName(rel) && rel != SentinelName && rel != DecryptedFileName(c)
    requires Join(path, rel) in fs.files
    ensures var d := DecryptJob(env, efs, c, password, "", ivText, draws);
            && (d.result.Success? || d.result == Failure(NoFreeExtractionName))
            && (d.result.Success? ==>
                  && Join(d.result.value, SentinelName) !in d.fs.files
                  && Join(d.result.value, rel) in d.fs.files
                  && d.fs.files[Join(d.result.value, rel)] == fs.files[Join(path, rel)])
  {
    var plain := env.tar.write(CompressDirectory(env.tar, fs, path, tmp, env.script, walk, unreadable).value.entries);
    DecryptSealed(env, efs, c, password, ivText, draws, iv, plain, inlineIv);
    var d := DecryptJob(env, efs, c, password, "", ivText, draws);
    if d.result.Success? {
      var ext := d.result.value;
      var name := DecryptedFileName(c);
      assert Join(ext, rel) != Join(ext, name) by {
        if Join(ext, rel) == Join(ext, name) {
          JoinInjective(ext, rel, name);
        }
      }
      PackThenUnpack(env.tar, fs, path, tmp, env.script, walk, unreadable,
                     WithOutput(efs, ext, name, plain), ext, Join(ext, name), rel);
    }
  }


  /** A recovery key file holding the hex digest of the password's key
      decrypts exactly as the password does, whatever is in the password
      field. */
  lemma RecoveryKeyMatchesPassword(env: Env, fs: FileSystem, path: Path, password: string, typed: string,
                                   recoveryFile: string, ivKeyFile: string, draws: seq<Draw>)
    requires !IsBlank(password)
    requires Strip(recoveryFile) != [] && Strip(recoveryFile) in fs.files
    requires ByteText(fs.files[Strip(recoveryFile)]) == HexDigest(DeriveKey(env.prims, password))
    ensures DecryptJob(env, fs, path, typed, recoveryFile, ivKeyFile, draws)
            == DecryptJob(env, fs, path, password, "", ivKeyFile, draws)
  {
    var rk := Strip(recoveryFile);
    var key := DeriveKey(env.prims, password);
    StripEmptyIffBlank(recoveryFile);
    StripEmptyIffBlank("");
    assert |fs.files[rk]| == 64;
    assert !RecoveryKeyShort(fs, rk);
    assert ValidateDecrypt(fs, path, typed, recoveryFile, ivKeyFile) == ValidateDecrypt(fs, path, password, "", ivKeyFile);
    assert Take(fs.files[rk], 64) == fs.files[rk];
    FromHexOfDigest(key);
    assert ResolveKey(env.prims, fs, typed, rk) == Success(key);
  }

  /** Which password is typed decides nothing but the bytes written: any two
      non-blank passwords get the same result and the same verdict on the
      container, since the container carries no check of the key. */
  lemma DecryptVerdictIgnoresPassword(env: Env, fs: FileSystem, path: Path, pw1: string, pw2: string,
                                      ivKeyFile: string, draws: seq<Draw>)
    requires !IsBlank(pw1) && !IsBlank(pw2)
    ensures DecryptJob(env, fs, path, pw1, "", ivKeyFile, draws).result
            == DecryptJob(env, fs, path, pw2, "", ivKeyFile, draws).result
  {
    StripEmptyIffBlank("");
    assert ValidateDecrypt(fs, path, pw1, "", ivKeyFile) == ValidateDecrypt(fs, path, pw2, "", ivKeyFile);
    var k1 := DeriveKey(env.prims, pw1);
    var k2 := DeriveKey(env.prims, pw2);
    assert ResolveKey(env.prims, fs, pw1, Strip("")) == Success(k1);
    assert ResolveKey(env.prims, fs, pw2, Strip("")) == Success(k2);
    DerivedKeyIsValid(env.prims, pw1);
    DerivedKeyIsValid(env.prims, pw2);
    KeyDecidesOnlyLength(env, fs, path, k1, k2, Strip(ivKeyFile), draws, DecryptedFileName);
  }

  /** Once a key is in hand, only its length matters to the outcome. */
  lemma KeyDecidesOnlyLength(env: Env, fs: FileSystem, path: Path, k1: seq<Byte>, k2: seq<Byte>, ivk: Path,
                             draws: seq<Draw>, name: Path -> string)
    requires ValidAesKey(k1) == ValidAesKey(k2)
    ensures DecryptWithKey(env, fs, path, k1, ivk, draws, name).result
            == DecryptWithKey(env, fs, path, k2, ivk, draws, name).result
  {
    var f := ContainerPath(fs, path);
    var source := if ivk == [] then InlineIv else IvFile(Read(fs, ivk));
    match ReadEnvelope(env.prims, Read(fs, f), source)
    case Failure(_) =>
    case Success(envelope) =>
      match ExtractionDir(fs, Dirname(f), ExtractionBase(f), draws)
      case None =>
      case Some(ext) =>
        var o1 := WriteDecrypted(env, fs, f, k1, ivk == [], envelope.iv, ext, name(f));
        var o2 := WriteDecrypted(env, fs, f, k2, ivk == [], envelope.iv, ext, name(f));
        assert o1.result == o2.result;
  }

  /** As written, decrypting an absolute container path that does not end in
      `.pack` reports success while the container is left empty: the output
      file is the container, truncated before the ciphertext is read back. */
  lemma DecryptEmptiesContainerAsWritten(env: Env, fs: FileSystem, c: Path, password: string,
                                         draws: seq<Draw>, iv: Iv, plain: seq<Byte>)
    requires |c| > 0 && c[0] == '/' && !EndsWith(c, ".pack")
    requires c in fs.files && !IsDir(fs, c)
    requires fs.files[c] == Seal(env.prims, DeriveKey(env.prims, password), iv, plain, true)
    requires !IsBlank(password)
    requires !UnpackApplies(env.tar, [])
    ensures var d := DecryptJobAsWritten(env, fs, c, password, "", "", draws);
            && (d.result.Success? || d.result == Failure(NoFreeExtractionName))
            && (d.result.Success? ==> c in d.fs.files && d.fs.files[c] == [])
  {
    var key := DeriveKey(env.prims, password);
    StripEmptyIffBlank("");
    assert ValidateDecrypt(fs, c, password, "", "").None?;
    assert ResolveKey(env.prims, fs, password, Strip("")) == Success(key);
    DerivedKeyIsValid(env.prims, password);
    OpenSealedInline(env.prims, key, iv, plain);
    var r := ExtractionDir(fs, Dirname(c), ExtractionBase(c), draws);
    if r.Some? {
      var ext := r.value;
      OutputIsContainerAsWritten(c, ext);
      var created := Write(MakeDir(fs, ext), c, []);
      assert BodyAfterOpen(created.files[c], true) == [];
      assert Ctr(env.prims, key, iv, 0, []) == [];
      var written := Write(created, c, []);
      assert Unpack(written, env.tar, ext, c, []) == written;
    }
  }
}
