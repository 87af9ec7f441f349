/** Collision-free names: the output container and temporary archive names,
    the key-file names, and the extraction directory with its random suffix.
    Every search asks the filesystem whether a candidate exists and stops at
    the first free one; randomness is a supplied sequence of draws. */
module Naming {
  import opened Wrappers
  import opened Text
  import opened Paths
  import opened FileSystems

  /** The candidates `join(dir, head + str(n) + tail)` for n = 1, 2, ... */
  datatype Pattern = Pattern(dir: Path, head: string, tail: string)

  function Candidate(pat: Pattern, n: nat): Path {
    Join(pat.dir, pat.head + Decimal(n) + pat.tail)
  }

  /** The length of the longest path in a finite set. */
  ghost function MaxLen(s: set<Path>): (m: nat)
    ensures forall p :: p in s ==> |p| <= m
    decreases |s|
  {
    if s == {} then 0
    else
      var p :| p in s;
      var rest := MaxLen(s - {p});
      if |p| > rest then |p| else rest
  }

  /** Only finitely many counters can name an existing path: the candidate
      for `n` is at least as long as `str(n)`, and no existing path is longer
      than `MaxLen`. */
  lemma CandidateBelowBound(existing: set<Path>, pat: Pattern, n: nat)
    requires Candidate(pat, n) in existing
    ensures n < Pow10(MaxLen(existing))
  {
    var name := pat.head + Decimal(n) + pat.tail;
    assert |Candidate(pat, n)| >= |name| >= |Decimal(n)|;
    DecimalBound(n);
    Pow10Monotone(|Decimal(n)|, MaxLen(existing));
  }

  /** The `while os.path.exists(...): counter += 1` search: the least counter
      from `n` on whose candidate is free. */
  function FirstFree(existing: set<Path>, pat: Pattern, n: nat): (r: nat)
    ensures n <= r
    ensures Candidate(pat, r) !in existing
    ensures forall k :: n <= k < r ==> Candidate(pat, k) in existing
    decreases Pow10(MaxLen(existing)) - n
  {
    if Candidate(pat, n) !in existing then n
    else
      CandidateBelowBound(existing, pat, n);
      var r := FirstFree(existing, pat, n + 1);
      TakenFrom(existing, pat, n, r);
      r
  }

  /** A taken candidate followed by a taken run is a longer taken run. */
  lemma TakenFrom(existing: set<Path>, pat: Pattern, n: nat, r: nat)
    requires Candidate(pat, n) in existing
    requires forall k :: n + 1 <= k < r ==> Candidate(pat, k) in existing
    ensures forall k :: n <= k < r ==> Candidate(pat, k) in existing
  {
  }

  /** Counter names beside a file: `f"{name} ({n}){ext}{add}"` in the file's
      directory, where `name` and `ext` split the file's basename. The source's
      extension-less branch produces the same text, since then `ext` is empty. */
  function FilePattern(path: Path, add: string): Pattern {
    var (base, ext) := SplitExt(Basename(path));
    Pattern(Dirname(path), base + " (", ")" + ext + add)
  }

  /** Counter names inside a directory: `f"{name} ({n})" + add`, where `name`
      is the last component of the normalised directory path. */
  function DirPattern(path: Path, add: string): Pattern {
    Pattern(path, NormLast(path) + " (", ")" + add)
  }

  /** `generate_unique_file_name(path, add)`. A file gets `path + add` when that
      is free and otherwise the least free counter name beside it; a directory
      gets `<basename><add>` inside itself when free, otherwise the first free
      name among `<name><add>`, `<name> (1)<add>`, ... inside itself; anything
      else gets `None`. */
  function UniqueFileName(fs: FileSystem, path: Path, add: string): (r: Option<Path>)
    ensures r.Some? <==> IsFile(fs, path) || IsDir(fs, path)
    ensures r.Some? ==> !Exists(fs, r.value)
    ensures IsFile(fs, path) && !Exists(fs, path + add) ==> r == Some(path + add)
    ensures IsFile(fs, path) && Exists(fs, path + add) ==>
              exists n :: 1 <= n && r == Some(Candidate(FilePattern(path, add), n))
                && forall k :: 1 <= k < n ==> Exists(fs, Candidate(FilePattern(path, add), k))
    ensures !IsFile(fs, path) && IsDir(fs, path) ==>
              || (!Exists(fs, Join(path, Basename(path) + add)) && r == Some(Join(path, Basename(path) + add)))
              || (Exists(fs, Join(path, Basename(path) + add))
                    && !Exists(fs, Join(path, NormLast(path) + add)) && r == Some(Join(path, NormLast(path) + add)))
              || (exists n :: 1 <= n && r == Some(Candidate(DirPattern(path, add), n))
                    && Exists(fs, Join(path, Basename(path) + add))
                    && Exists(fs, Join(path, NormLast(path) + add))
                    && forall k :: 1 <= k < n ==> Exists(fs, Candidate(DirPattern(path, add), k)))
  {
    if IsFile(fs, path) && !Exists(fs, path + add) then
      Some(path + add)
    else if IsFile(fs, path) then
      var pat := FilePattern(path, add);
      Some(Candidate(pat, FirstFree(Existing(fs), pat, 1)))
    else if IsDir(fs, path) && !Exists(fs, Join(path, Basename(path) + add)) then
      Some(Join(path, Basename(path) + add))
    else if IsDir(fs, path) then
      var first := Join(path, NormLast(path) + add);
      if !Exists(fs, first) then
        Some(first)
      else
        var pat := DirPattern(path, add);
        Some(Candidate(pat, FirstFree(Existing(fs), pat, 1)))
    else
      None
  }

  /** A candidate whose tail ends with `add` ends with `add`. */
  lemma CandidateSuffix(pat: Pattern, n: nat, t: string, add: string)
    requires pat.tail == t + add
    ensures EndsWith(Candidate(pat, n), add)
  {
    var name := pat.head + Decimal(n) + t;
    assert pat.head + Decimal(n) + pat.tail == name + add;
    EndsWithTail(Candidate(pat, n), name, add);
  }

  /** Every name `generate_unique_file_name` returns ends with the requested
      extension. */
  lemma UniqueFileNameSuffix(fs: FileSystem, path: Path, add: string)
    requires IsFile(fs, path) || IsDir(fs, path)
    ensures EndsWith(UniqueFileName(fs, path, add).value, add)
  {
    var r := UniqueFileName(fs, path, add).value;
    if IsFile(fs, path) && !Exists(fs, path + add) {
      EndsWithTail(r, path, add);
    } else if IsFile(fs, path) {
      var pat := FilePattern(path, add);
      var n :| 1 <= n && r == Candidate(pat, n);
      CandidateSuffix(pat, n, ")" + SplitExt(Basename(path)).1, add);
    } else if !Exists(fs, Join(path, Basename(path) + add)) {
      EndsWithTail(r, Basename(path), add);
    } else if !Exists(fs, Join(path, NormLast(path) + add)) {
      EndsWithTail(r, NormLast(path), add);
    } else {
      var pat := DirPattern(path, add);
      var n :| 1 <= n && r == Candidate(pat, n);
      CandidateSuffix(pat, n, ")", add);
    }
  }

  /** Counter names for key files: `f"{name}_{n}{ext}{add}"` with no directory
      part, so the name is relative to the process's working directory. */
  function KeyPattern(path: Path, add: string): Pattern {
    var (base, ext) := SplitExt(Basename(path));
    Pattern("", base + "_", ext + add)
  }

  /** `generate_unique_key_file_name(path, add)`: `f"{path}_{add}"` when free,
      otherwise the least free counter name from `KeyPattern`. */
  function UniqueKeyFileName(fs: FileSystem, path: Path, add: string): (r: Path)
    ensures !Exists(fs, r)
    ensures r != []
    ensures !Exists(fs, path + "_" + add) ==> r == path + "_" + add
    ensures Exists(fs, path + "_" + add) ==>
              exists n :: 1 <= n && r == Candidate(KeyPattern(path, add), n)
                && forall k :: 1 <= k < n ==> Exists(fs, Candidate(KeyPattern(path, add), k))
  {
    if !Exists(fs, path + "_" + add) then
      path + "_" + add
    else
      var pat := KeyPattern(path, add);
      Candidate(pat, FirstFree(Existing(fs), pat, 1))
  }

  /** The counter fallback of the key-file namer keeps only the basename: when
      the first candidate is taken, the name it returns has no directory part. */
  lemma KeyFallbackDropsDirectory(fs: FileSystem, path: Path, add: string)
    requires '/' !in add
    requires Exists(fs, path + "_" + add)
    ensures '/' !in UniqueKeyFileName(fs, path, add)
  {
    var pat := KeyPattern(path, add);
    var n := FirstFree(Existing(fs), pat, 1);
    SplitExtOfBasename(path);
    var name := pat.head + Decimal(n) + pat.tail;
    assert Candidate(pat, n) == name;
    assert '/' !in Decimal(n);
    assert '/' !in name;
    assert UniqueKeyFileName(fs, path, add) == Candidate(pat, n);
  }

  /** The `.ivkey` file name: `f"{f}.ivkey"` when free, otherwise the key-file
      namer with `.ivkey`. */
  function IvKeyFileName(fs: FileSystem, f: Path): (r: Path)
    ensures !Exists(fs, r)
    ensures r != []
    ensures !Exists(fs, f + ".ivkey") ==> r == f + ".ivkey"
    ensures Exists(fs, f + ".ivkey") ==> r == UniqueKeyFileName(fs, f, ".ivkey")
  {
    if !Exists(fs, f + ".ivkey") then f + ".ivkey" else UniqueKeyFileName(fs, f, ".ivkey")
  }

  /** Once the first name has been created, asking again yields a different name. */
  lemma SecondNameDiffers(fs: FileSystem, path: Path, add: string, data: seq<Bytes.Byte>)
    requires IsFile(fs, path) || IsDir(fs, path)
    ensures var first := UniqueFileName(fs, path, add).value;
            var again := UniqueFileName(Write(fs, first, data), path, add);
            again.Some? && again.value != first
  {
  }

  /** `string.ascii_lowercase + string.digits`. */
  const Alphabet: string := "abcdefghijklmnopqrstuvwxyz0123456789"

  /** One `random.choice` over the alphabet, given as the index it picked. */
  type Draw = d: nat | d < 36

  predicate IsLowerOrDigit(c: char) {
    ('a' <= c <= 'z') || ('0' <= c <= '9')
  }

  /** The alphabet character a draw selects, by position. */
  function AlphabetChar(d: Draw): (c: char)
    ensures IsLowerOrDigit(c)
  {
    if d < 26 then ('a' as int + d) as char else ('0' as int + (d - 26)) as char
  }

  /** Positions in the alphabet are the letters in order, then the digits. */
  lemma AlphabetCharIsIndex(d: Draw)
    ensures AlphabetChar(d) == Alphabet[d]
  {
  }

  /** `generate_random_string(len(draws))`. */
  function RandomString(draws: seq<Draw>): (s: string)
    ensures |s| == |draws|
    ensures forall i :: 0 <= i < |s| ==> IsLowerOrDigit(s[i])
  {
    if draws == [] then "" else [AlphabetChar(draws[0])] + RandomString(draws[1..])
  }

  /** Distinct draws give distinct strings: the alphabet has no repeated character. */
  lemma {:induction false} RandomStringInjective(a: seq<Draw>, b: seq<Draw>)
    requires |a| == |b| && a != b
    ensures RandomString(a) != RandomString(b)
  {
    if a[0] != b[0] {
      assert RandomString(a)[0] == AlphabetChar(a[0]);
      assert RandomString(b)[0] == AlphabetChar(b[0]);
    } else {
      assert a[1..] != b[1..] by {
        assert a == [a[0]] + a[1..] && b == [b[0]] + b[1..];
      }
      RandomStringInjective(a[1..], b[1..]);
      assert RandomString(a)[1..] == RandomString(a[1..]);
      assert RandomString(b)[1..] == RandomString(b[1..]);
    }
  }

  /** The stem the extraction directory is named after: the container's
      basename, without `.pack` when it ends so. */
  function ExtractionBase(container: Path): string {
    var b := Basename(container);
    if EndsWith(b, ".pack") then SplitExt(Basename(b)).0 else b
  }

  /** The names tried after the first: `<base>_unpacked;` plus five random
      lowercase letters or digits. */
  ghost predicate IsRetryName(dir: Path, base: string, p: Path) {
    exists s :: |s| == 5 && (forall i :: 0 <= i < 5 ==> IsLowerOrDigit(s[i]))
      && p == Join(dir, base + "_unpacked;" + s)
  }

  function ExtractionSearch(fs: FileSystem, dir: Path, base: string, current: Path, draws: seq<Draw>): (r: Option<Path>)
    ensures r.Some? ==> !Exists(fs, r.value)
    ensures r.Some? ==> r.value == current || IsRetryName(dir, base, r.value)
    ensures !Exists(fs, current) ==> r == Some(current)
    ensures r.None? ==> |draws| < 5 || Exists(fs, Join(dir, base + "_unpacked;" + RandomString(draws[..5])))
    decreases |draws|
  {
    if !Exists(fs, current) then Some(current)
    else if |draws| < 5 then None
    else
      var next := Join(dir, base + "_unpacked;" + RandomString(draws[..5]));
      ExtractionSearch(fs, dir, base, next, draws[5..])
  }

  /** The extraction directory chosen at decryption: `<base>_unpacked` next to
      the container when free, otherwise the first free retry name built from
      the draws, five at a time; `None` when the supplied draws run out. */
  function ExtractionDir(fs: FileSystem, dir: Path, base: string, draws: seq<Draw>): (r: Option<Path>)
    ensures r.Some? ==> !Exists(fs, r.value)
    ensures r.Some? ==> r.value == Join(dir, base + "_unpacked") || IsRetryName(dir, base, r.value)
    ensures !Exists(fs, Join(dir, base + "_unpacked")) ==> r == Some(Join(dir, base + "_unpacked"))
    ensures r.None? ==> Exists(fs, Join(dir, base + "_unpacked"))
  {
    ExtractionSearch(fs, dir, base, Join(dir, base + "_unpacked"), draws)
  }

  /** The extraction stem has no separator in it. */
  lemma ExtractionBaseNoSep(container: Path)
    ensures '/' !in ExtractionBase(container)
  {
    SplitExtOfBasename(Basename(container));
  }

  /** The chosen extraction directory is a direct child of `dir`: `dir` joined
      with a non-empty name without separators. */
  lemma ExtractionDirIsChild(fs: FileSystem, dir: Path, base: string, draws: seq<Draw>)
    requires '/' !in base
    requires ExtractionDir(fs, dir, base, draws).Some?
    ensures exists s :: s != [] && '/' !in s && ExtractionDir(fs, dir, base, draws).value == Join(dir, s)
  {
    var r := ExtractionDir(fs, dir, base, draws).value;
    if r == Join(dir, base + "_unpacked") {
      var name := base + "_unpacked";
      NoSepConcat(base, "_unpacked");
      assert name != [] && '/' !in name && r == Join(dir, name);
    } else {
      RetryNameIsChild(dir, base, r);
    }
  }

  /** A retry name is `dir` joined with a non-empty name without separators. */
  lemma RetryNameIsChild(dir: Path, base: string, p: Path)
    requires '/' !in base
    requires IsRetryName(dir, base, p)
    ensures exists s :: s != [] && '/' !in s && p == Join(dir, s)
  {
    var s :| |s| == 5 && (forall i :: 0 <= i < 5 ==> IsLowerOrDigit(s[i]))
             && p == Join(dir, base + "_unpacked;" + s);
    var name := base + "_unpacked;" + s;
    NoSepConcat(base, "_unpacked;");
    NoSepConcat(base + "_unpacked;", s);
    assert name != [] && '/' !in name && p == Join(dir, name);
  }

  /** Gluing two names without separators gives a name without one. */
  lemma NoSepConcat(a: string, b: string)
    requires '/' !in a
    requires forall i :: 0 <= i < |b| ==> b[i] != '/'
    ensures '/' !in a + b
  {
    assert forall i :: 0 <= i < |a + b| ==> (a + b)[i] != '/' by {
      forall i | 0 <= i < |a + b| ensures (a + b)[i] != '/' {
        if i < |a| { assert (a + b)[i] == a[i]; } else { assert (a + b)[i] == b[i - |a|]; }
      }
    }
  }

}
