/** Directory packing as entry selection. Before walking, a sentinel file
    `~encrypto_pack` is written into the directory, so the walk sees it and
    packs it; the script's own path and the archive being written are
    skipped; files that fail to be added are collected instead. The sentinel
    is removed afterwards, and the archive too when nothing was packed. On the
    way back, an archive is unpacked only when one of its non-directory
    entries is the sentinel. The tar format itself is an abstract codec. */
module Packer {
  import opened Wrappers
  import opened Bytes
  import opened Paths
  import opened FileSystems

  const SentinelName: string := "~encrypto_pack"

  /** The text written into the sentinel file. */
  const SentinelText: string := "encrypto_packed_this_tar_file"

  function SentinelBytes(): seq<Byte> {
    AsciiBytes(SentinelText)
  }

  function SentinelPath(folder: Path): Path {
    Join(folder, SentinelName)
  }

  /** One `os.walk` result, as a path relative to the walked directory. */
  datatype WalkItem = WalkDir(rel: string) | WalkFile(rel: string)

  /** An archive member: a directory, or a file with its contents. */
  datatype Entry = DirEntry(name: string) | FileEntry(name: string, data: seq<Byte>)

  /** The tar format: `write` lays out entries, `read` is `None` for bytes that
      are not a readable tar archive. */
  datatype TarCodec = TarCodec(write: seq<Entry> -> seq<Byte>, read: seq<Byte> -> Option<seq<Entry>>)

  /** Reading a written archive gives back its entries. */
  ghost predicate Faithful(tar: TarCodec) {
    forall es :: tar.read(tar.write(es)) == Some(es)
  }

  /** A walked path that is not skipped and is added to the archive. */
  predicate Packs(fs: FileSystem, archive: Path, script: Path, unreadable: set<Path>, p: Path) {
    p != script && p != archive && p in fs.files && p !in unreadable
  }

  /** A walked path that is not skipped but whose addition raises. */
  predicate Fails(fs: FileSystem, archive: Path, script: Path, unreadable: set<Path>, p: Path) {
    p != script && p != archive && !(p in fs.files && p !in unreadable)
  }

  /** `p` lies below the directory `d`: it starts with `d` and a separator. */
  predicate Below(p: Path, d: Path) {
    |JoinPrefix(d)| < |p| && p[..|JoinPrefix(d)|] == JoinPrefix(d)
  }

  /** `tarfile.add` of a directory lists it and adds everything below it,
      outside the loop's `try`: it raises when the directory itself cannot be
      listed or a path below it cannot be read. */
  predicate DirAddRaises(folder: Path, unreadable: set<Path>, rel: string) {
    exists u :: u in unreadable && (u == Join(folder, rel) || Below(u, Join(folder, rel)))
  }

  /** Some walked directory holds a file below it that cannot be read. */
  predicate WalkRaises(folder: Path, unreadable: set<Path>, walk: seq<WalkItem>) {
    exists i :: 0 <= i < |walk| && walk[i].WalkDir? && DirAddRaises(folder, unreadable, walk[i].rel)
  }

  /** What the walk loop produced; `aborted` when a directory's addition
      raised, in which case the lists hold what came before it. */
  datatype WalkOutcome = WalkOutcome(entries: seq<Entry>, packed: seq<Path>, failed: seq<Path>, aborted: bool)

  /** The walk loop of `compress_directory`: directories are added as entries,
      and the loop stops when that raises; each file is skipped, added (and
      listed as compressed) or listed as failed. */
  function WalkAll(fs: FileSystem, folder: Path, archive: Path, script: Path, unreadable: set<Path>,
                   walk: seq<WalkItem>): (r: WalkOutcome)
    ensures |r.packed| + |r.failed| <= |walk|
    decreases |walk|
  {
    if walk == [] then WalkOutcome([], [], [], false)
    else
      match walk[0]
      case WalkDir(rel) =>
        if DirAddRaises(folder, unreadable, rel) then WalkOutcome([], [], [], true)
        else
          var rest := WalkAll(fs, folder, archive, script, unreadable, walk[1..]);
          WalkOutcome([DirEntry(rel)] + rest.entries, rest.packed, rest.failed, rest.aborted)
      case WalkFile(rel) =>
        var rest := WalkAll(fs, folder, archive, script, unreadable, walk[1..]);
        var path := Join(folder, rel);
        if path == script || path == archive then rest
        else if path in fs.files && path !in unreadable then
          WalkOutcome([FileEntry(rel, fs.files[path])] + rest.entries, [path] + rest.packed, rest.failed, rest.aborted)
        else
          WalkOutcome(rest.entries, rest.packed, [path] + rest.failed, rest.aborted)
  }

  /** A walk raises when its first item does or the rest of it does. */
  lemma WalkRaisesStep(folder: Path, unreadable: set<Path>, walk: seq<WalkItem>)
    requires walk != []
    ensures WalkRaises(folder, unreadable, walk)
            <==> (walk[0].WalkDir? && DirAddRaises(folder, unreadable, walk[0].rel))
                 || WalkRaises(folder, unreadable, walk[1..])
  {
    if WalkRaises(folder, unreadable, walk[1..]) {
      var i :| 0 <= i < |walk[1..]| && walk[1..][i].WalkDir? && DirAddRaises(folder, unreadable, walk[1..][i].rel);
      assert walk[i + 1] == walk[1..][i];
    }
    if WalkRaises(folder, unreadable, walk) {
      var i :| 0 <= i < |walk| && walk[i].WalkDir? && DirAddRaises(folder, unreadable, walk[i].rel);
      if i > 0 {
        assert walk[1..][i - 1] == walk[i];
      }
    }
  }

  /** The walk stops exactly when some walked directory holds a file below it
      that cannot be read. */
  lemma {:induction false} WalkAborts(fs: FileSystem, folder: Path, archive: Path, script: Path,
                                      unreadable: set<Path>, walk: seq<WalkItem>)
    ensures WalkAll(fs, folder, archive, script, unreadable, walk).aborted <==> WalkRaises(folder, unreadable, walk)
    decreases |walk|
  {
    if walk != [] {
      WalkAborts(fs, folder, archive, script, unreadable, walk[1..]);
      WalkRaisesStep(folder, unreadable, walk);
      var r := WalkAll(fs, folder, archive, script, unreadable, walk);
      var rest := WalkAll(fs, folder, archive, script, unreadable, walk[1..]);
      assert r.aborted <==> (walk[0].WalkDir? && DirAddRaises(folder, unreadable, walk[0].rel)) || rest.aborted;
    }
  }

  /** Walk item `i` is a file at path `p` that gets added. */
  ghost predicate PackedAt(fs: FileSystem, folder: Path, archive: Path, script: Path, unreadable: set<Path>,
                           walk: seq<WalkItem>, i: int, p: Path) {
    0 <= i < |walk| && walk[i].WalkFile? && p == Join(folder, walk[i].rel) && Packs(fs, archive, script, unreadable, p)
  }

  /** Walk item `i` is a file at path `p` whose addition fails. */
  ghost predicate FailedAt(fs: FileSystem, folder: Path, archive: Path, script: Path, unreadable: set<Path>,
                           walk: seq<WalkItem>, i: int, p: Path) {
    0 <= i < |walk| && walk[i].WalkFile? && p == Join(folder, walk[i].rel) && Fails(fs, archive, script, unreadable, p)
  }

  /** One step of the walk: the lists of the whole walk are those of the
      first item followed by those of the rest. */
  lemma WalkStep(fs: FileSystem, folder: Path, archive: Path, script: Path,
                 unreadable: set<Path>, walk: seq<WalkItem>, p: Path)
    requires walk != [] && !WalkAll(fs, folder, archive, script, unreadable, walk).aborted
    ensures var r := WalkAll(fs, folder, archive, script, unreadable, walk);
            var rest := WalkAll(fs, folder, archive, script, unreadable, walk[1..]);
            && (p in r.packed <==> p in rest.packed || PackedAt(fs, folder, archive, script, unreadable, walk, 0, p))
            && (p in r.failed <==> p in rest.failed || FailedAt(fs, folder, archive, script, unreadable, walk, 0, p))
  {
  }

  /** Shifting a walk by one item shifts the positions of its files by one. */
  lemma WalkShift(fs: FileSystem, folder: Path, archive: Path, script: Path,
                  unreadable: set<Path>, walk: seq<WalkItem>, p: Path)
    requires walk != []
    ensures (exists i :: PackedAt(fs, folder, archive, script, unreadable, walk, i, p))
            <==> PackedAt(fs, folder, archive, script, unreadable, walk, 0, p)
                 || exists i :: PackedAt(fs, folder, archive, script, unreadable, walk[1..], i, p)
    ensures (exists i :: FailedAt(fs, folder, archive, script, unreadable, walk, i, p))
            <==> FailedAt(fs, folder, archive, script, unreadable, walk, 0, p)
                 || exists i :: FailedAt(fs, folder, archive, script, unreadable, walk[1..], i, p)
  {
    forall i | 0 <= i < |walk[1..]|
      ensures PackedAt(fs, folder, archive, script, unreadable, walk[1..], i, p)
              == PackedAt(fs, folder, archive, script, unreadable, walk, i + 1, p)
      ensures FailedAt(fs, folder, archive, script, unreadable, walk[1..], i, p)
              == FailedAt(fs, folder, archive, script, unreadable, walk, i + 1, p)
    {
      assert walk[1..][i] == walk[i + 1];
    }
    if exists i :: PackedAt(fs, folder, archive, script, unreadable, walk, i, p) {
      var i :| PackedAt(fs, folder, archive, script, unreadable, walk, i, p);
      if i > 0 {
        assert PackedAt(fs, folder, archive, script, unreadable, walk[1..], i - 1, p);
      }
    }
    if exists i :: FailedAt(fs, folder, archive, script, unreadable, walk, i, p) {
      var i :| FailedAt(fs, folder, archive, script, unreadable, walk, i, p);
      if i > 0 {
        assert FailedAt(fs, folder, archive, script, unreadable, walk[1..], i - 1, p);
      }
    }
  }

  /** When the walk runs to its end, the compressed list holds exactly the
      walked files that were added, and the failed list exactly those whose
      addition failed. */
  lemma {:induction false} WalkLists(fs: FileSystem, folder: Path, archive: Path, script: Path,
                                     unreadable: set<Path>, walk: seq<WalkItem>, p: Path)
    requires !WalkAll(fs, folder, archive, script, unreadable, walk).aborted
    ensures p in WalkAll(fs, folder, archive, script, unreadable, walk).packed
            <==> exists i :: PackedAt(fs, folder, archive, script, unreadable, walk, i, p)
    ensures p in WalkAll(fs, folder, archive, script, unreadable, walk).failed
            <==> exists i :: FailedAt(fs, folder, archive, script, unreadable, walk, i, p)
    decreases |walk|
  {
    if walk != [] {
      WalkLists(fs, folder, archive, script, unreadable, walk[1..], p);
      WalkStep(fs, folder, archive, script, unreadable, walk, p);
      WalkShift(fs, folder, archive, script, unreadable, walk, p);
    }
  }

  /** Member `j` is a file whose path under `folder` is `p`. */
  ghost predicate MemberAt(folder: Path, es: seq<Entry>, j: int, p: Path) {
    0 <= j < |es| && es[j].FileEntry? && p == Join(folder, es[j].name)
  }

  /** The compressed files are exactly the paths of the file members. */
  lemma {:induction false} WalkPackedMembers(fs: FileSystem, folder: Path, archive: Path, script: Path,
                                             unreadable: set<Path>, walk: seq<WalkItem>, p: Path)
    ensures var r := WalkAll(fs, folder, archive, script, unreadable, walk);
            p in r.packed <==> exists j :: MemberAt(folder, r.entries, j, p)
    decreases |walk|
  {
    if walk != [] {
      var rest := WalkAll(fs, folder, archive, script, unreadable, walk[1..]);
      var r := WalkAll(fs, folder, archive, script, unreadable, walk);
      WalkPackedMembers(fs, folder, archive, script, unreadable, walk[1..], p);
      var k := |r.entries| - |rest.entries|;
      if walk[0].WalkDir? && DirAddRaises(folder, unreadable, walk[0].rel) {
        assert r.entries == [] && r.packed == [];
      } else if k == 1 {
        assert r.entries[1..] == rest.entries;
        assert p in r.packed <==> p in rest.packed || MemberAt(folder, r.entries, 0, p);
        if exists j :: MemberAt(folder, r.entries, j, p) {
          var j :| MemberAt(folder, r.entries, j, p);
          if j >= 1 {
            assert r.entries[j] == rest.entries[j - 1];
            assert MemberAt(folder, rest.entries, j - 1, p);
          }
        }
        if p in rest.packed {
          var j :| MemberAt(folder, rest.entries, j, p);
          assert r.entries[j + 1] == rest.entries[j];
          assert MemberAt(folder, r.entries, j + 1, p);
        }
      } else {
        assert r.entries == rest.entries && r.packed == rest.packed;
      }
    }
  }

  /** `n` is the relative name of some walked item. */
  ghost predicate NameInWalk(n: string, walk: seq<WalkItem>) {
    exists i :: 0 <= i < |walk| && walk[i].rel == n
  }

  /** A file member carries the contents of the file at its path under `folder`. */
  ghost predicate FromFolder(fs: FileSystem, folder: Path, e: Entry) {
    e.FileEntry? ==> Join(folder, e.name) in fs.files && e.data == fs.files[Join(folder, e.name)]
  }

  /** Every file member carries the contents of the walked file it names. */
  lemma {:induction false} WalkMemberData(fs: FileSystem, folder: Path, archive: Path, script: Path,
                                          unreadable: set<Path>, walk: seq<WalkItem>)
    ensures forall e :: e in WalkAll(fs, folder, archive, script, unreadable, walk).entries ==> FromFolder(fs, folder, e)
    decreases |walk|
  {
    if walk != [] {
      var rest := WalkAll(fs, folder, archive, script, unreadable, walk[1..]);
      var r := WalkAll(fs, folder, archive, script, unreadable, walk);
      WalkMemberData(fs, folder, archive, script, unreadable, walk[1..]);
      if walk[0].WalkDir? && DirAddRaises(folder, unreadable, walk[0].rel) {
        assert r.entries == [];
      } else if |r.entries| != |rest.entries| {
        assert r.entries[1..] == rest.entries;
        if walk[0].WalkFile? {
          assert Join(folder, walk[0].rel) in fs.files;
        }
        assert FromFolder(fs, folder, r.entries[0]);
        forall j | 1 <= j < |r.entries| ensures r.entries[j] == rest.entries[j - 1] {
        }
      } else {
        assert r.entries == rest.entries;
        forall j | 0 <= j < |r.entries| ensures FromFolder(fs, folder, r.entries[j]) {
          assert FromFolder(fs, folder, rest.entries[j]);
        }
      }
    }
  }

  /** Every member name is a walked relative name. */
  lemma {:induction false} WalkMemberNames(fs: FileSystem, folder: Path, archive: Path, script: Path,
                                           unreadable: set<Path>, walk: seq<WalkItem>)
    ensures forall e :: e in WalkAll(fs, folder, archive, script, unreadable, walk).entries ==> NameInWalk(e.name, walk)
    decreases |walk|
  {
    if walk != [] {
      var rest := WalkAll(fs, folder, archive, script, unreadable, walk[1..]);
      var r := WalkAll(fs, folder, archive, script, unreadable, walk);
      WalkMemberNames(fs, folder, archive, script, unreadable, walk[1..]);
      forall n | NameInWalk(n, walk[1..]) ensures NameInWalk(n, walk) {
        var i :| 0 <= i < |walk[1..]| && walk[1..][i].rel == n;
        assert walk[i + 1] == walk[1..][i];
      }
      if walk[0].WalkDir? && DirAddRaises(folder, unreadable, walk[0].rel) {
        assert r.entries == [];
      } else if |r.entries| != |rest.entries| {
        assert r.entries[1..] == rest.entries;
        assert r.entries[0].name == walk[0].rel;
        assert NameInWalk(r.entries[0].name, walk);
        forall j | 1 <= j < |r.entries| ensures r.entries[j] == rest.entries[j - 1] {
        }
      } else {
        assert r.entries == rest.entries;
        forall j | 0 <= j < |r.entries| ensures r.entries[j] == rest.entries[j] {
        }
      }
    }
  }

  datatype PackResult = PackResult(fs: FileSystem, entries: seq<Entry>, packed: seq<Path>, failed: seq<Path>)

  /** `compress_directory(folder, archive)` with the failure warning shown as
      intended (see `CompressDirectoryAsWritten` for the code as written):
      returns the filesystem afterwards, the archive's entries, the compressed
      files and the failed files. When a directory's addition raises, the
      exception leaves the function: the failure holds the filesystem with the
      sentinel still in place and the archive as far as it was written. */
  function CompressDirectory(tar: TarCodec, fs: FileSystem, folder: Path, archive: Path, script: Path,
                             walk: seq<WalkItem>, unreadable: set<Path>): (r: Result<PackResult, FileSystem>)
    ensures r.Failure? ==>
              && SentinelPath(folder) in r.error.files
              && archive in r.error.files
              && r.error.dirs == fs.dirs
              && forall q :: q != archive && q != SentinelPath(folder) ==>
                   (q in r.error.files <==> q in fs.files) && (q in fs.files ==> r.error.files[q] == fs.files[q])
    ensures r.Success? ==> SentinelPath(folder) !in r.value.fs.files
    ensures r.Success? ==> r.value.fs.dirs == fs.dirs
    ensures r.Success? && archive != SentinelPath(folder) ==> (archive in r.value.fs.files <==> r.value.packed != [])
    ensures r.Success? && archive != SentinelPath(folder) && r.value.packed != [] ==>
              r.value.fs.files[archive] == tar.write(r.value.entries)
    ensures r.Success? ==> forall q :: q != archive && q != SentinelPath(folder) ==>
              (q in r.value.fs.files <==> q in fs.files) && (q in fs.files ==> r.value.fs.files[q] == fs.files[q])
  {
    var sentinel := SentinelPath(folder);
    var withSentinel := Write(fs, sentinel, SentinelBytes());
    var w := WalkAll(withSentinel, folder, archive, script, unreadable, walk);
    var written := Write(withSentinel, archive, tar.write(w.entries));
    if w.aborted then Failure(written)
    else
      var cleaned := Remove(written, sentinel);
      var after := if w.packed == [] then Remove(cleaned, archive) else cleaned;
      Success(PackResult(after, w.entries, w.packed, w.failed))
  }

  /** Packing fails exactly when a walked directory holds, below it, a file
      that cannot be read. */
  lemma PackingAborts(tar: TarCodec, fs: FileSystem, folder: Path, archive: Path, script: Path,
                      walk: seq<WalkItem>, unreadable: set<Path>)
    ensures CompressDirectory(tar, fs, folder, archive, script, walk, unreadable).Failure?
            <==> WalkRaises(folder, unreadable, walk)
  {
    WalkAborts(Write(fs, SentinelPath(folder), SentinelBytes()), folder, archive, script, unreadable, walk);
  }

  /** A walked directory that cannot be listed makes packing raise, even with
      nothing unreadable below it. */
  lemma UnlistableDirectoryAborts(tar: TarCodec, fs: FileSystem, folder: Path, archive: Path, script: Path,
                                  walk: seq<WalkItem>, unreadable: set<Path>, rel: string)
    requires WalkDir(rel) in walk
    requires Join(folder, rel) in unreadable
    ensures CompressDirectory(tar, fs, folder, archive, script, walk, unreadable).Failure?
  {
    var i :| 0 <= i < |walk| && walk[i] == WalkDir(rel);
    assert DirAddRaises(folder, unreadable, walk[i].rel);
    PackingAborts(tar, fs, folder, archive, script, walk, unreadable);
  }

  /** When packing completes, a walked file is compressed exactly when it is
      neither the script nor the archive, can be read, and exists or is the
      sentinel; it is listed as failed exactly when it is neither the script
      nor the archive and cannot be added. */
  lemma CompressedFiles(tar: TarCodec, fs: FileSystem, folder: Path, archive: Path, script: Path,
                        walk: seq<WalkItem>, unreadable: set<Path>, p: Path)
    ensures var r := CompressDirectory(tar, fs, folder, archive, script, walk, unreadable);
            r.Success? ==>
            && (p in r.value.packed <==>
                 (exists i :: 0 <= i < |walk| && walk[i].WalkFile? && p == Join(folder, walk[i].rel))
                 && p != script && p != archive && p !in unreadable
                 && (p in fs.files || p == SentinelPath(folder)))
            && (p in r.value.failed <==>
                 (exists i :: 0 <= i < |walk| && walk[i].WalkFile? && p == Join(folder, walk[i].rel))
                 && p != script && p != archive
                 && (p in unreadable || (p !in fs.files && p != SentinelPath(folder))))
  {
    var withSentinel := Write(fs, SentinelPath(folder), SentinelBytes());
    if !WalkAll(withSentinel, folder, archive, script, unreadable, walk).aborted {
      WalkLists(withSentinel, folder, archive, script, unreadable, walk, p);
      assert p in withSentinel.files <==> p in fs.files || p == SentinelPath(folder);
      if exists i :: 0 <= i < |walk| && walk[i].WalkFile? && p == Join(folder, walk[i].rel) {
        var i :| 0 <= i < |walk| && walk[i].WalkFile? && p == Join(folder, walk[i].rel);
        assert Packs(withSentinel, archive, script, unreadable, p)
               ==> PackedAt(withSentinel, folder, archive, script, unreadable, walk, i, p);
        assert Fails(withSentinel, archive, script, unreadable, p)
               ==> FailedAt(withSentinel, folder, archive, script, unreadable, walk, i, p);
      }
    }
  }

  /** `compress_directory` as written: when any file failed it calls
      `QMessageBox.warning("Warning", ...)` without the parent argument, which
      raises a `TypeError` after the sentinel (and possibly the archive) was
      removed; the caller then reports an error and stops. */
  function CompressDirectoryAsWritten(tar: TarCodec, fs: FileSystem, folder: Path, archive: Path, script: Path,
                                      walk: seq<WalkItem>, unreadable: set<Path>): (r: Result<PackResult, FileSystem>)
    ensures var c := CompressDirectory(tar, fs, folder, archive, script, walk, unreadable);
            r.Success? <==> c.Success? && c.value.failed == []
  {
    match CompressDirectory(tar, fs, folder, archive, script, walk, unreadable)
    case Failure(after) => Failure(after)
    case Success(packed) => if packed.failed != [] then Failure(packed.fs) else Success(packed)
  }

  /** One unreadable file beside the sentinel, and none below a walked
      directory: as written the packing raises, although the sentinel was
      packed and the failure was meant to be only a warning. */
  lemma UnreadableFileAbortsAsWritten(tar: TarCodec, fs: FileSystem, folder: Path, archive: Path, script: Path,
                                      walk: seq<WalkItem>, unreadable: set<Path>, rel: string)
    requires !WalkRaises(folder, unreadable, walk)
    requires WalkFile(SentinelName) in walk
    requires SentinelPath(folder) != script && SentinelPath(folder) != archive && SentinelPath(folder) !in unreadable
    requires WalkFile(rel) in walk
    requires Join(folder, rel) != script && Join(folder, rel) != archive && Join(folder, rel) in unreadable
    ensures var r := CompressDirectory(tar, fs, folder, archive, script, walk, unreadable);
            && r.Success?
            && SentinelPath(folder) in r.value.packed
            && Join(folder, rel) in r.value.failed
            && CompressDirectoryAsWritten(tar, fs, folder, archive, script, walk, unreadable).Failure?
  {
    SentinelIsPacked(tar, fs, folder, archive, script, walk, unreadable);
    var i :| 0 <= i < |walk| && walk[i] == WalkFile(rel);
    CompressedFiles(tar, fs, folder, archive, script, walk, unreadable, Join(folder, rel));
  }

  /** Relative names: `os.walk` never yields one that starts with a separator. */
  predicate RelativeName(n: string) {
    n == [] || n[0] != '/'
  }

  /** Joining a directory with relative names is one-to-one. */
  lemma JoinInjective(d: Path, a: string, b: string)
    requires RelativeName(a) && RelativeName(b)
    requires Join(d, a) == Join(d, b)
    ensures a == b
  {
    var pre := JoinPrefix(d);
    assert Join(d, a) == pre + a && Join(d, b) == pre + b;
    assert a == (pre + a)[|pre|..];
    assert b == (pre + b)[|pre|..];
  }

  /** The sentinel is walked like any other file, so when it can be added and
      no directory's addition raises, it is among the compressed files, and
      the archive is kept. */
  lemma SentinelIsPacked(tar: TarCodec, fs: FileSystem, folder: Path, archive: Path, script: Path,
                         walk: seq<WalkItem>, unreadable: set<Path>)
    requires !WalkRaises(folder, unreadable, walk)
    requires WalkFile(SentinelName) in walk
    requires SentinelPath(folder) != script && SentinelPath(folder) != archive
    requires SentinelPath(folder) !in unreadable
    ensures var r := CompressDirectory(tar, fs, folder, archive, script, walk, unreadable);
            && r.Success?
            && SentinelPath(folder) in r.value.packed
            && (archive != SentinelPath(folder) ==> archive in r.value.fs.files)
  {
    PackingAborts(tar, fs, folder, archive, script, walk, unreadable);
    var i :| 0 <= i < |walk| && walk[i] == WalkFile(SentinelName);
    assert walk[i].WalkFile? && SentinelPath(folder) == Join(folder, walk[i].rel);
    CompressedFiles(tar, fs, folder, archive, script, walk, unreadable, SentinelPath(folder));
  }

  /** Writing one archive member under the destination directory. */
  function ExtractEntry(fs: FileSystem, dest: Path, e: Entry): FileSystem {
    match e
    case DirEntry(n) => MakeDir(fs, Join(dest, n))
    case FileEntry(n, d) => Write(fs, Join(dest, n), d)
  }

  /** `extractall(dest)`: members in archive order, later ones overwriting. */
  function Extract(fs: FileSystem, dest: Path, es: seq<Entry>): (r: FileSystem)
    ensures fs.dirs <= r.dirs
    decreases |es|
  {
    if es == [] then fs else Extract(ExtractEntry(fs, dest, es[0]), dest, es[1..])
  }

  /** The unpack trigger: a non-directory member named `~encrypto_pack`. */
  predicate IsPackedArchive(es: seq<Entry>) {
    exists j :: 0 <= j < |es| && es[j].FileEntry? && es[j].name == SentinelName
  }

  /** Whether the decrypted bytes are an archive this program packed. */
  predicate UnpackApplies(tar: TarCodec, plain: seq<Byte>) {
    tar.read(plain).Some? && IsPackedArchive(tar.read(plain).value)
  }

  /** The step after decryption: a packed archive is extracted into the
      extraction directory, then the extracted sentinel and the decrypted
      archive file are removed; anything else is left as it is. */
  function Unpack(fs: FileSystem, tar: TarCodec, dest: Path, decrypted: Path, plain: seq<Byte>): (r: FileSystem)
    ensures !UnpackApplies(tar, plain) ==> r == fs
    ensures UnpackApplies(tar, plain) ==> Join(dest, SentinelName) !in r.files && decrypted !in r.files
    ensures fs.dirs <= r.dirs
  {
    match tar.read(plain)
    case None => fs
    case Some(es) =>
      if IsPackedArchive(es) then
        Remove(Remove(Extract(fs, dest, es), Join(dest, SentinelName)), decrypted)
      else fs
  }

  /** After extraction a path holds `d` when every member written there
      carries `d` and at least one does (or nothing is written there and it
      already held `d`). */
  lemma {:induction false} ExtractHolds(fs: FileSystem, dest: Path, es: seq<Entry>, q: Path, d: seq<Byte>)
    requires (exists j :: 0 <= j < |es| && es[j].FileEntry? && Join(dest, es[j].name) == q)
             || (q in fs.files && fs.files[q] == d)
    requires forall j :: 0 <= j < |es| && es[j].FileEntry? && Join(dest, es[j].name) == q ==> es[j].data == d
    ensures q in Extract(fs, dest, es).files && Extract(fs, dest, es).files[q] == d
    decreases |es|
  {
    if es != [] {
      var next := ExtractEntry(fs, dest, es[0]);
      assert (q in next.files && next.files[q] == d)
             || exists j :: 0 <= j < |es[1..]| && es[1..][j].FileEntry? && Join(dest, es[1..][j].name) == q
      by {
        if !(es[0].FileEntry? && Join(dest, es[0].name) == q) {
          if !(q in fs.files && fs.files[q] == d) {
            var j :| 0 <= j < |es| && es[j].FileEntry? && Join(dest, es[j].name) == q;
            assert es[1..][j - 1] == es[j];
          }
        }
      }
      forall j | 0 <= j < |es[1..]| && es[1..][j].FileEntry? && Join(dest, es[1..][j].name) == q
        ensures es[1..][j].data == d
      {
        assert es[1..][j] == es[j + 1];
      }
      ExtractHolds(next, dest, es[1..], q, d);
    }
  }

  /** Unpacking an archive that carries the sentinel writes every file member
      at its relative path under the destination and removes the sentinel. */
  lemma UnpackMembers(tar: TarCodec, target: FileSystem, dest: Path, decrypted: Path,
                      es: seq<Entry>, rel: string, d: seq<Byte>)
    requires tar.read(tar.write(es)) == Some(es)
    requires forall e :: e in es ==> RelativeName(e.name)
    requires IsPackedArchive(es)
    requires FileEntry(rel, d) in es
    requires forall e :: e in es && e.FileEntry? && e.name == rel ==> e.data == d
    requires RelativeName(rel) && rel != SentinelName && Join(dest, rel) != decrypted
    ensures var out := Unpack(target, tar, dest, decrypted, tar.write(es));
            && Join(dest, SentinelName) !in out.files
            && Join(dest, rel) in out.files
            && out.files[Join(dest, rel)] == d
  {
    var q := Join(dest, rel);
    var jr :| 0 <= jr < |es| && es[jr] == FileEntry(rel, d);
    assert es[jr].FileEntry? && Join(dest, es[jr].name) == q;
    SameNameSameData(dest, es, rel, d);
    ExtractHolds(target, dest, es, q, d);
    var x := Extract(target, dest, es);
    UnpackArchive(target, tar, dest, decrypted, es);
    assert q != Join(dest, SentinelName) by {
      if q == Join(dest, SentinelName) {
        JoinInjective(dest, rel, SentinelName);
      }
    }
    assert Remove(x, Join(dest, SentinelName)).files[q] == d;
  }

  /** Members whose names join to the same path share a name, so they carry
      the same contents when every member of that name does. */
  lemma SameNameSameData(dest: Path, es: seq<Entry>, rel: string, d: seq<Byte>)
    requires forall e :: e in es ==> RelativeName(e.name)
    requires forall e :: e in es && e.FileEntry? && e.name == rel ==> e.data == d
    requires RelativeName(rel)
    ensures forall j :: 0 <= j < |es| && es[j].FileEntry? && Join(dest, es[j].name) == Join(dest, rel) ==> es[j].data == d
  {
    forall j | 0 <= j < |es| && es[j].FileEntry? && Join(dest, es[j].name) == Join(dest, rel)
      ensures es[j].data == d
    {
      assert es[j] in es;
      JoinInjective(dest, es[j].name, rel);
    }
  }

  /** An archive carrying the sentinel is extracted, then the sentinel and the
      decrypted archive file are removed. */
  lemma UnpackArchive(target: FileSystem, tar: TarCodec, dest: Path, decrypted: Path, es: seq<Entry>)
    requires tar.read(tar.write(es)) == Some(es) && IsPackedArchive(es)
    ensures Unpack(target, tar, dest, decrypted, tar.write(es))
            == Remove(Remove(Extract(target, dest, es), Join(dest, SentinelName)), decrypted)
  {
  }

  /** Packing a directory and unpacking its archive elsewhere puts every
      compressed file other than the sentinel at the same relative path with
      the same contents, and leaves no sentinel behind. */
  lemma PackThenUnpack(tar: TarCodec, fs: FileSystem, folder: Path, archive: Path, script: Path,
                       walk: seq<WalkItem>, unreadable: set<Path>,
                       target: FileSystem, dest: Path, decrypted: Path, rel: string)
    requires Faithful(tar)
    requires forall i :: 0 <= i < |walk| ==> RelativeName(walk[i].rel)
    requires CompressDirectory(tar, fs, folder, archive, script, walk, unreadable).Success?
    requires SentinelPath(folder) in CompressDirectory(tar, fs, folder, archive, script, walk, unreadable).value.packed
    requires Join(folder, rel) in CompressDirectory(tar, fs, folder, archive, script, walk, unreadable).value.packed
    requires RelativeName(rel) && rel != SentinelName
    requires Join(dest, rel) != decrypted
    ensures var r := CompressDirectory(tar, fs, folder, archive, script, walk, unreadable).value;
            var out := Unpack(target, tar, dest, decrypted, tar.write(r.entries));
            && Join(dest, SentinelName) !in out.files
            && Join(folder, rel) in fs.files
            && Join(dest, rel) in out.files
            && out.files[Join(dest, rel)] == fs.files[Join(folder, rel)]
  {
    var sentinel := SentinelPath(folder);
    var withSentinel := Write(fs, sentinel, SentinelBytes());
    var w := WalkAll(withSentinel, folder, archive, script, unreadable, walk);
    var es := w.entries;
    assert CompressDirectory(tar, fs, folder, archive, script, walk, unreadable).value.entries == es;
    assert CompressDirectory(tar, fs, folder, archive, script, walk, unreadable).value.packed == w.packed;
    assert tar.read(tar.write(es)) == Some(es);
    WalkPackedMembers(withSentinel, folder, archive, script, unreadable, walk, sentinel);
    WalkPackedMembers(withSentinel, folder, archive, script, unreadable, walk, Join(folder, rel));
    WalkMemberData(withSentinel, folder, archive, script, unreadable, walk);
    WalkMemberNames(withSentinel, folder, archive, script, unreadable, walk);
    forall e | e in es ensures RelativeName(e.name) {
      var i :| 0 <= i < |walk| && walk[i].rel == e.name;
    }
    // the sentinel member is present, so the archive is unpacked
    var js :| MemberAt(folder, es, js, sentinel);
    assert es[js] in es;
    JoinInjective(folder, es[js].name, SentinelName);
    assert IsPackedArchive(es);
    // the file's member carries its contents
    assert Join(folder, rel) != sentinel by {
      if Join(folder, rel) == sentinel {
        JoinInjective(folder, rel, SentinelName);
      }
    }
    var jr :| MemberAt(folder, es, jr, Join(folder, rel));
    assert es[jr] in es;
    JoinInjective(folder, es[jr].name, rel);
    var d := fs.files[Join(folder, rel)];
    forall e | e in es && e.FileEntry? && e.name == rel ensures e.data == d {
    }
    assert es[jr] == FileEntry(rel, d);
    UnpackMembers(tar, target, dest, decrypted, es, rel, d);
  }

  /** A decrypted payload that is not an archive, or an archive without the
      sentinel among its files, is left untouched. */
  lemma ForeignPayloadNotUnpacked(fs: FileSystem, tar: TarCodec, dest: Path, decrypted: Path, plain: seq<Byte>)
    requires tar.read(plain).None?
             || forall j :: 0 <= j < |tar.read(plain).value| ==>
                  tar.read(plain).value[j].DirEntry? || tar.read(plain).value[j].name != SentinelName
    ensures Unpack(fs, tar, dest, decrypted, plain) == fs
  {
  }
}
