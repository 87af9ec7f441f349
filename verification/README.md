# EncryptoPack core, modelled in Dafny

EncryptoPack is a desktop tool that password-encrypts a file or a whole folder
into a `.pack` container and decrypts it again. This project models the
logic under its two buttons as pure functions over an abstract filesystem and
proves properties of that model. The modelled parts are:

- **Input checks.** Both handlers validate their input before touching anything
  (`Validation`).
- **Block size.** The chunk size is chosen from the available memory
  (`BlockSize`).
- **Collision-free names.** The container, the temporary archive, the IV key
  file, the recovery key file and the extraction directory each get a name
  that does not exist yet (`Naming`).
- **The container envelope.** It is `[IV] ciphertext SHA-1(IV)`, together with
  the checks made when it is read back (`Container`).
- **The cipher.** It is modelled as a keystream XOR, which is the encryption
  component of AES-EAX (`Crypto`). Two chunk loops feed it one piece at a time
  (`Chunks`).
- **The recovery key.** It is the lowercase hex digest of the key, written on
  encryption and decoded on decryption (`Hex`).
- **Directory packing.** A directory is packed through a sentinel file, and it
  is unpacked only when the decrypted archive contains that sentinel
  (`Packer`).
- **The two handlers as whole jobs.** Each maps the filesystem before a click to
  the filesystem after it, together with the result the user is shown
  (`Jobs`).

Supporting modules:

- `Wrappers` holds `Option` and `Result`.
- `Text` holds `str.strip`, `str(n)` and suffix tests.
- `Paths` holds `posixpath`'s `basename`, `dirname`, `join`, `splitext` and `normpath`.
- `FileSystems` models the filesystem as a map from file paths to contents plus
  a set of directories.
- `Bytes` holds bytes and ASCII text I/O.

The foreign functions are parameters: the hashes, the keystream, the UTF-8
encoder and the tar format. So are the random draws, the IV, the `os.walk`
listing and the set of files that cannot be read.

## Model

| member | source | states |
|---|---|---|
| `BlockSize.OptimalBlockSize` | EncryptoPack.py:19-41 | the chunk size is always one of the seven sizes from 64 KiB to 3 MiB, is positive, and is 512 KiB when the memory query raises |
| `BlockSize.WholeGiB` | EncryptoPack.py:27 | the whole-gibibyte count `r` brackets the byte count: `r` GiB is at most the count, and the count is below `r + 1` GiB |
| `BlockSize.SizeForGiBIsTable` | EncryptoPack.py:29-39 | the chain of `elif` comparisons is a lookup in the table of (limit, size) rows, in which the first row whose limit is reached decides |
| `BlockSize.TierTableSorted` | EncryptoPack.py:29-39 | the source's tiers have strictly increasing limits and non-decreasing sizes, and the size above the last limit is the largest |
| `BlockSize.TierLookupMonotone` | EncryptoPack.py:29-39 | a lookup in any sorted tier table is a non-decreasing function of its input |
| `BlockSize.SizeForGiBMonotone` | EncryptoPack.py:29-39 | more whole gibibytes never give a smaller size |
| `BlockSize.OptimalBlockSizeMonotone` | EncryptoPack.py:26-39 | more available memory never gives a smaller chunk size |
| `BlockSize.BlockSizeExamples` | EncryptoPack.py:29-38 | 1 GiB gives 64 KiB, 8 GiB gives 1 MiB, 32 GiB gives 3 MiB, and one byte short of 2 GiB gives 64 KiB |
| `Bytes.ByteTextOfAscii` | EncryptoPack.py:793-794 | ASCII text written in text mode reads back, one byte per character, as the same characters |
| `Bytes.Take` | EncryptoPack.py:852 | `read(n)` returns the first `n` bytes, or the whole content when it is shorter |
| `Chunks.ReadAt` | EncryptoPack.py:763 | a read at a position returns the bytes starting there: a full block while the data lasts, and the remainder after that |
| `Chunks.EncryptChunks` | EncryptoPack.py:760-771 | for every positive block size, the encryption loop writes exactly the cipher of the whole plaintext, and its byte counter ends at the plaintext length |
| `Chunks.DecryptChunks` | EncryptoPack.py:945-956 | for every positive block size, the decryption loop over the in-memory ciphertext produces exactly the cipher of the whole ciphertext, and its counter ends at its length |
| `Chunks.ChunkedRoundTrip` | EncryptoPack.py:760-771 | encrypting with one block size and decrypting with any other returns the plaintext, and both counters equal its length |
| `Crypto.Ctr` | EncryptoPack.py:761-767 | the cipher returns as many bytes as it is given; `Crypto.CtrInvolutive` and `Crypto.CtrSplit` state how it decrypts and how it chains |
| `Crypto.DerivedKeyIsValid` | EncryptoPack.py:715 | a key derived from a password with SHA-256 always has a length AES accepts |
| `Crypto.CtrInvolutive` | EncryptoPack.py:946-952 | decrypting at the same stream offset undoes encryption |
| `Crypto.CtrSplit` | EncryptoPack.py:762-767 | feeding the cipher object two pieces in turn equals feeding it their concatenation |
| `Crypto.CtrMalleable` | EncryptoPack.py:946-952 | changing one ciphertext byte changes exactly the same plaintext byte, by the same XOR difference |
| `Container.Seal` | EncryptoPack.py:744-774 | the container is 36 bytes longer than the plaintext when the IV is inline, and 20 bytes longer otherwise |
| `Container.ReadEnvelope` | EncryptoPack.py:877-911 | with an inline IV, a container is accepted exactly when it has at least 36 bytes and the SHA-1 of its first 16 bytes equals its last 20. With a key file, it is accepted exactly when the key file has at least 16 bytes, the container has at least 20, and the hashes match. An accepted container is IV, body and hash, and the body is handed back |
| `Container.OpenSealedInline` | EncryptoPack.py:877-884 | a container sealed with its IV inline is accepted, and gives back that IV and the ciphertext, which decrypts to the plaintext |
| `Container.OpenSealedExternal` | EncryptoPack.py:885-902 | a container sealed without its IV is accepted with any key file that starts with the IV, and decrypts to the plaintext |
| `Container.VerdictIgnoresCiphertext` | EncryptoPack.py:903-906 | two containers that agree in length, first 16 bytes and last 20 bytes get the same verdict. Neither the ciphertext nor the key is checked |
| `Container.TamperedCiphertextAccepted` | EncryptoPack.py:903-906 | changing one ciphertext byte of an accepted container keeps it accepted, and the decrypted output differs in that byte alone |
| `Container.ExternalSizeCheckUnreachable` | EncryptoPack.py:908-911 | the external-IV size check after the hash comparison never fires |
| `Hex.HexDigest` | EncryptoPack.py:792 | a hex digest has two lowercase hex digits per byte |
| `Hex.FromHex` | EncryptoPack.py:864 | decoding hex gives at most one byte per two characters |
| `Hex.FromHexOfDigest` | EncryptoPack.py:864 | decoding a hex digest gives back exactly the bytes it was made from |
| `Hex.HexDigestIsAscii` | EncryptoPack.py:793-794 | a hex digest is ASCII, so a text-mode write stores it one byte per character |
| `Paths.Basename` | EncryptoPack.py:914 | a basename has no separator and is a suffix of the path |
| `Paths.BasenameIsLastComponent` | EncryptoPack.py:914 | the basename is the whole last component: it has no separator, ends the path, and is the whole path or follows a separator |
| `Paths.Join` | EncryptoPack.py:930 | a join ends with its second argument, and it is that argument when the first is empty |
| `Paths.JoinRule` | EncryptoPack.py:930 | an absolute second argument replaces the first. Otherwise the result is the first argument, one separator when it is non-empty and does not end in one, then the second |
| `Paths.SplitExt` | EncryptoPack.py:58 | the stem and the extension concatenate to the path, and the extension is empty or a dot-led name without separators |
| `Paths.SplitExtAtLastDot` | EncryptoPack.py:58 | there is an extension exactly when the last dot comes after the last separator with something other than a dot between them, and then the split is at that dot |
| `Paths.JoinSplitSeps` | EncryptoPack.py:74 | joining the parts of `split('/')` with separators gives the text back |
| `Paths.SplitJoinSeps` | EncryptoPack.py:74 | splitting separator-free components joined by separators gives the components back |
| `Paths.NormCompsShape` | EncryptoPack.py:74 | the components `normpath` keeps are never empty or `.`, every `..` precedes every other component, and an absolute path keeps no `..` |
| `Paths.LastKeptComponent` | EncryptoPack.py:74 | without `.` and `..` components, the last component `normpath` keeps is the basename once trailing separators are removed |
| `Paths.NormLastPlain` | EncryptoPack.py:74 | without `.` and `..` components, the basename of `normpath` is the basename once trailing separators are removed |
| `Paths.NormLastParent` | EncryptoPack.py:74 | `..` is resolved before the basename is taken: the basename of `normpath("/x/y/..")` is `x` |
| `Paths.DirnameOfChild` | EncryptoPack.py:913-917 | a separator-free name joined under a directory not ending in a separator has that directory as its `dirname` |
| `Paths.JoinRelative` | EncryptoPack.py:917 | joining a name without separators puts it after the directory text, with one separator added where the text does not already end in one |
| `Paths.SplitExtOfBasename` | EncryptoPack.py:98 | both parts of `splitext` of a basename are free of separators |
| `Text.StripEmptyIffBlank` | EncryptoPack.py:684 | `strip()` gives the empty string exactly for strings made only of whitespace |
| `Naming.FirstFree` | EncryptoPack.py:60-63 | the counter search returns the least counter from its start whose candidate does not exist, and it always ends |
| `Naming.CandidateBelowBound` | EncryptoPack.py:62-63 | only counters below a bound fixed by the longest existing path can name an existing path, so the search ends |
| `Naming.UniqueFileName` | EncryptoPack.py:44-82 | a name exists exactly for files and directories, and it never exists yet. A file gets `path + add` when that is free, and otherwise the least free `name (n)ext + add` beside it. A directory gets `<basename> + add` inside itself when free. Otherwise, with the basename of its normalised path as `<name>`, it gets `<name> + add` when free, or else the least free `<name> (n) + add` |
| `Naming.UniqueFileNameSuffix` | EncryptoPack.py:44-82 | every name returned ends with the requested extension |
| `Naming.SecondNameDiffers` | EncryptoPack.py:44-82 | once the first name is created, asking again gives a different name |
| `Naming.UniqueKeyFileName` | EncryptoPack.py:85-107 | the key-file name never exists yet. It is `path + "_" + add` when that is free, and otherwise the least free counter name |
| `Naming.KeyFallbackDropsDirectory` | EncryptoPack.py:98-107 | the counter fallback has no directory part, so it lands in the working directory |
| `Naming.IvKeyFileName` | EncryptoPack.py:753-754 | the IV key file name never exists yet. It is `f + ".ivkey"` when free, and otherwise comes from the key-file namer |
| `Naming.AlphabetChar` | EncryptoPack.py:119 | every draw selects a lowercase letter or a digit |
| `Naming.AlphabetCharIsIndex` | EncryptoPack.py:119 | a draw selects the character at that position of lowercase letters followed by digits |
| `Naming.RandomString` | EncryptoPack.py:110-120 | the random string has one character per draw, each a lowercase letter or a digit |
| `Naming.RandomStringInjective` | EncryptoPack.py:119-120 | different draws of the same length give different strings |
| `Naming.ExtractionSearch` | EncryptoPack.py:919-922 | the retry loop returns a name that does not exist: the current one when it is free, otherwise a `_unpacked;` name with five random characters. It fails only when the draws run out |
| `Naming.ExtractionDir` | EncryptoPack.py:913-923 | the extraction directory does not exist yet. It is `<base>_unpacked` beside the container when that is free, and otherwise a retry name |
| `Naming.ExtractionBaseNoSep` | EncryptoPack.py:914-916 | the extraction stem has no separator |
| `Naming.ExtractionDirIsChild` | EncryptoPack.py:917-922 | the extraction directory is a direct child of the container's directory |
| `Naming.RetryNameIsChild` | EncryptoPack.py:920-922 | every retry name is a direct child of the container's directory |
| `Packer.WalkAll` | EncryptoPack.py:536-554 | the compressed and failed lists together hold no more paths than the walk has items |
| `Packer.WalkAborts` | EncryptoPack.py:538-541 | the walk stops exactly when a walked directory cannot be listed or has, below it, a path that cannot be read, since adding a directory lists it and adds its contents outside the loop's `try` |
| `Packer.PackingAborts` | EncryptoPack.py:536-541 | packing raises exactly when a walked directory cannot be listed or has, below it, a path that cannot be read |
| `Packer.UnlistableDirectoryAborts` | EncryptoPack.py:538-541 | a walked directory that cannot itself be listed makes packing raise |
| `Packer.WalkLists` | EncryptoPack.py:543-554 | when the walk does not stop, the compressed list holds exactly the walked files that are not skipped and can be added. The failed list holds exactly those that are not skipped and cannot be added |
| `Packer.WalkPackedMembers` | EncryptoPack.py:549-552 | the compressed files are exactly the paths of the archive's file members |
| `Packer.WalkMemberData` | EncryptoPack.py:549-552 | every file member carries the contents of the file at its path |
| `Packer.WalkMemberNames` | EncryptoPack.py:538-552 | every member's name is a relative name that the walk produced |
| `Packer.CompressDirectory` | EncryptoPack.py:519-565 | when packing raises, the sentinel and the archive stay on disk, and no other file and no directory changes. Otherwise packing leaves no sentinel on disk and changes no directory. The archive is kept exactly when something was compressed, and then it holds the archive of the entries. Every other file is unchanged |
| `Packer.CompressedFiles` | EncryptoPack.py:532-554 | when packing completes, a walked file is compressed exactly when it is not the script or the archive, can be read, and exists or is the sentinel. It is listed as failed exactly when it is not skipped and cannot be added |
| `Packer.SentinelIsPacked` | EncryptoPack.py:532-552 | when no walked directory raises, packing completes, the sentinel is among the compressed files when it is walked and readable, and so the archive is kept |
| `Packer.CompressDirectoryAsWritten` | EncryptoPack.py:562-563 | as written, packing fails exactly when it raises in the walk or some file failed |
| `Packer.UnreadableFileAbortsAsWritten` | EncryptoPack.py:562-563 | when no walked directory raises, one unreadable file beside the sentinel makes the written code fail, although packing completed and the sentinel was packed |
| `Packer.JoinInjective` | EncryptoPack.py:550 | joining a directory with relative names is one-to-one |
| `Packer.Extract` | EncryptoPack.py:967 | extraction never removes a directory |
| `Packer.ExtractHolds` | EncryptoPack.py:967 | after extraction, a path holds the contents that every member written there carries |
| `Packer.Unpack` | EncryptoPack.py:961-970 | decrypted bytes are unpacked only when they are an archive with the sentinel among its file members. Afterwards neither the sentinel nor the decrypted archive file is left; otherwise nothing changes |
| `Packer.UnpackMembers` | EncryptoPack.py:961-970 | unpacking an archive that carries the sentinel writes each file member at its relative path under the extraction directory |
| `Packer.PackThenUnpack` | EncryptoPack.py:536-554 | when packing completes, packing a directory and unpacking its archive elsewhere restores every compressed file other than the sentinel at the same relative path, and leaves no sentinel |
| `Packer.ForeignPayloadNotUnpacked` | EncryptoPack.py:961-965 | a payload that is not an archive, or is an archive without the sentinel file, is left untouched |
| `Validation.ValidateEncrypt` | EncryptoPack.py:680-694 | each encryption check fires exactly when all earlier checks pass and its own condition holds, and the job may start exactly when all pass |
| `Validation.ValidateDecrypt` | EncryptoPack.py:815-838 | the decryption checks in order: the path, then a password or recovery key, then file or directory, then the recovery key's existence and size, then the IV key's existence. Each check fires exactly when all earlier checks pass and its own condition holds, and the job may start exactly when all pass |
| `Validation.PaddedPasswordAccepted` | EncryptoPack.py:684-690 | only the stripped password decides blankness, but the confirmation is compared with the password as typed |
| `Validation.RecoveryKeyReplacesPassword` | EncryptoPack.py:819-834 | a recovery key file of at least 64 bytes passes the checks with a blank password |
| `Jobs.SealFile` | EncryptoPack.py:742-794 | after the empty container is created, sealing succeeds exactly when the source can still be read, and a failure leaves only the empty container. A success names the container, and an IV key or recovery key file exactly when that option is on |
| `Jobs.SealFileContents` | EncryptoPack.py:742-794 | the container holds the sealed source. The IV key file holds the IV, and the recovery key file holds the key's hex digest. Both are fresh and differ from the container, and every file that existed before keeps its contents |
| `Jobs.EncryptJob` | EncryptoPack.py:673-738 | an input that fails a check leaves the filesystem unchanged and reports the first failed check, and a success implies all checks passed |
| `Jobs.EncryptFile` | EncryptoPack.py:732-774 | encrypting a file creates the container named by the unique-name rule, holding the sealed contents of the file |
| `Jobs.EncryptDirectoryContents` | EncryptoPack.py:719-798 | when no walked directory raises, encrypting a directory packs the sentinel and seals the archive into a fresh `.pack` file, with the IV in the key file when requested. It removes the temporary archive and changes no directory |
| `Jobs.EncryptDirectory` | EncryptoPack.py:719-730 | the directory branch fails only when packing raises or the archive is missing; `Jobs.PackingFailureOfDirectory` and `Jobs.EncryptDirectoryContents` state its two outcomes |
| `Jobs.PackingFailureLeavesFiles` | EncryptoPack.py:719-730 | encrypting a directory fails in packing exactly when a walked directory cannot be listed or has, below it, a path that cannot be read. Then the sentinel and the `.temp` archive stay, and no other file and no directory changes |
| `Jobs.PackingFailureOfDirectory` | EncryptoPack.py:721-730 | the directory branch reports a packing failure exactly when the packer raises, and then leaves the filesystem the packer left |
| `Jobs.SealAndDiscard` | EncryptoPack.py:797-798 | removing the temporary archive after sealing it keeps the container and the IV key file |
| `Jobs.ResolveKey` | EncryptoPack.py:849-864 | without a recovery key the key is SHA-256 of the password. With one, it is the hex decoding of the file's first 64 characters. A missing file or text that is not hex is an error |
| `Jobs.ContainerPath` | EncryptoPack.py:866-870 | a file is its own container; a directory's container ends with the directory's basename and `.pack` |
| `Jobs.ContainerInsideDirectory` | EncryptoPack.py:866-868 | a directory's container is named `<basename>.pack` and, for a path without a trailing separator, lies directly inside the directory |
| `Jobs.BodyAfterOpen` | EncryptoPack.py:942-945 | the second read gives the bytes after the inline IV and before the 20-byte trailer |
| `Jobs.SealedBody` | EncryptoPack.py:942-945 | the second read of a sealed container yields exactly its ciphertext |
| `Jobs.RereadDecrypts` | EncryptoPack.py:942-952 | creating the output file leaves the container alone, so the second read still decrypts to the payload |
| `Jobs.PackExtension` | EncryptoPack.py:926 | `splitext` removes `.pack` exactly when something other than dots precedes it |
| `Jobs.DecryptedFileName` | EncryptoPack.py:925-930 | the output name has no separator. It is the basename without `.pack` when `splitext` splits the suffix off, and otherwise the basename |
| `Jobs.DecryptedFileNameAsWritten` | EncryptoPack.py:925-928 | as written, the output name of a container without `.pack` is the whole container path |
| `Jobs.OutputIsContainerAsWritten` | EncryptoPack.py:925-933 | as written, an absolute container path without `.pack` is itself the output path, whatever the extraction directory |
| `Jobs.OutputIsNotContainer` | EncryptoPack.py:913-930 | a name without separators, inside a child directory of the container's directory, is never the container |
| `Jobs.DecryptedPathIsNotContainer` | EncryptoPack.py:913-930 | with the basename, the output path never is the container |
| `Jobs.WriteDecrypted` | EncryptoPack.py:923-970 | the extraction directory is created, and the job succeeds with that directory exactly when AES accepts the key length |
| `Jobs.DecryptWithKey` | EncryptoPack.py:866-970 | a rejected envelope or running out of draws changes nothing. On success the extraction directory is the one the naming rule picks, did not exist before and exists after |
| `Jobs.DecryptJob` | EncryptoPack.py:807-864 | an input that fails a check leaves the filesystem unchanged and reports the first failed check, and a success implies all checks passed |
| `Jobs.DecryptJobAsWritten` | EncryptoPack.py:815-838 | as written, an input that fails a check leaves the filesystem unchanged |
| `Jobs.DecryptedOutput` | EncryptoPack.py:913-970 | decrypting an accepted sealed container writes the payload into the output in a fresh extraction directory, then unpacks it |
| `Jobs.DecryptedWrite` | EncryptoPack.py:932-970 | when the output is not the container, the output holds the decrypted payload before unpacking |
| `Jobs.DecryptSealed` | EncryptoPack.py:807-975 | decrypting a sealed container with its password, and with its key file when the IV is external, succeeds unless the draws run out. On success it writes the payload under a fresh extraction directory and unpacks it |
| `Jobs.FileRoundTrip` | EncryptoPack.py:742-774 | encrypting a file and decrypting its container with the same password, and with the key file when one was written, puts the file's contents into the extraction directory, unless the draws run out |
| `Jobs.DirectoryRoundTrip` | EncryptoPack.py:719-730 | when no walked directory raises, encrypting a directory succeeds. Decrypting its container restores every compressed file at its relative path below the extraction directory and leaves no sentinel, unless the draws run out |
| `Jobs.UnpackSealedArchive` | EncryptoPack.py:961-970 | decrypting a container that seals the archive of a completed packing unpacks each compressed file at its relative path |
| `Jobs.RecoveryKeyMatchesPassword` | EncryptoPack.py:849-864 | a recovery key file holding the hex digest of the password's key decrypts exactly as the password does, whatever the password field holds |
| `Jobs.DecryptVerdictIgnoresPassword` | EncryptoPack.py:861-906 | any two non-blank passwords get the same result. A wrong password is never detected |
| `Jobs.KeyDecidesOnlyLength` | EncryptoPack.py:946 | once the key is known, only whether AES accepts its length affects the result |
| `Jobs.DecryptEmptiesContainerAsWritten` | EncryptoPack.py:925-945 | as written, decrypting an absolute container path without `.pack` leaves the container empty. This holds on every success, and the job still reports success |

## Left out

- Removing the sources after encryption and the container after decryption (EncryptoPack.py:777-787, 973) is not modelled. These are deletions driven by a toggle. The model does remove the temporary archive, the extracted sentinel and the decrypted archive.
- The GUI is not modelled. This covers message boxes, the progress bar with its float percentages, the button-text toggles (replaced by `EncryptOptions` and by the presence of key-file paths), and the file explorer.
- The jobs do not take the block size. They use the whole-stream cipher, which `Chunks.EncryptChunks` and `Chunks.DecryptChunks` prove equal to the chunk loops for every positive block size. The memory query itself is the `Option<nat>` input of `BlockSize.OptimalBlockSize`.
- AES-EAX, SHA-1, SHA-256 and UTF-8 are uninterpreted:
  - the hashes are specified only by their output lengths;
  - the cipher is a keystream XOR, byte by byte;
  - the EAX tag is neither produced nor checked by the program, so it is not modelled.
- The random values are inputs: the IV from `get_random_bytes` and the `random.choice` draws. The draws are a finite sequence, so the extraction search can report `NoFreeExtractionName`, which the program never does.
- `os.walk` is not modelled. Its listing, in its own order, is a parameter, and so is the set of unreadable paths: files whose `tarfile.add` raises, and directories that cannot be listed.
- `tarfile.add` of a directory also adds its contents recursively. Those duplicate members are not modelled: a directory becomes one directory entry.
- That recursion is modelled only for its failure. A walked directory that is itself unreadable, or any unreadable path below it judged by path prefix, makes the directory's addition raise (`Packer.DirAddRaises`).
- Packer.CompressDirectory: when packing raises, the archive left on disk holds the entries added before the raising directory. The members of that directory that the recursion added before reaching the unreadable file are not modelled.
- The tar format is an abstract codec. `is_tarfile` is "reading gives entries". That writing and then reading gives back the entries is a hypothesis of the round-trip lemmas, not a proved fact.
- Text-mode files are read and written one character per byte. Text that is not ASCII, and decoding errors, are not modelled.
- `os.path.getsize` of a missing inline-IV container (EncryptoPack.py:878) raises outside any `try`; the model reports it as `ContainerMissing`. This happens, for example, for a directory that holds no `<dir>.pack`.
- The `raise ValueError` for an undetermined container name (EncryptoPack.py:737-738) cannot be reached once validation has passed, so it is not modelled.
- A `ValueError` from `bytes.fromhex` (EncryptoPack.py:864) is raised outside any `try`. The model reports it as `CorruptRecoveryKey` instead of an unhandled exception.
- The model checks only the key's length where `AES.new` would raise: `BadKeyLength`, after the extraction directory and the empty output file are made. This matches the position of `AES.new` inside the `try`.
- Jobs.ResolveKey: a recovery key path naming a directory passes validation, because a directory's size is not modelled. `open` then raises `IsADirectoryError` outside any `try` (EncryptoPack.py:851); the model reports `RecoveryKeyUnreadable` instead of an unhandled exception.
- `os.path.getsize` on a directory given as a container or IV key path is not modelled. Such a path cannot be read as a file, so the model rejects it.
- Writes never fail in the model, except reading the paths marked unreadable while packing, whether the walk reaches them as files, as directories, or below a directory.
- `os.makedirs` creates only the extraction directory. Its parent is the container's directory, which already exists.
- When nothing was compressed, the archive is removed (EncryptoPack.py:558-560). The following `getsize` then raises, and the model reports this as `SourceMissing`.
- Jobs.FileRoundTrip: stated only for payloads that are not themselves packed archives, because those are unpacked instead. It also assumes an IV key path without surrounding whitespace, because the decrypting side strips the typed path.
- Jobs.DirectoryRoundTrip: stated under a faithful tar codec, for relative walk names, and for files other than one named like the decrypted archive, which the unpack step removes.
- Jobs.DecryptJobAsWritten: its contract covers only rejected input. Its behaviour otherwise is stated by `Jobs.DecryptEmptiesContainerAsWritten`.
- Jobs.EncryptJob: its contract covers only validation. Its successes are stated by `Jobs.EncryptFile` and `Jobs.EncryptDirectoryContents`.
- Packer.WalkAll: its contract bounds the lists only. Their exact contents are stated by `Packer.WalkLists` and `Packer.CompressedFiles`.
- Packer.Extract: its contract states only that directories are kept. What lands in files is stated by `Packer.ExtractHolds`.
- Hex.FromHex: its contract is only a length bound. The decoding is stated by `Hex.FromHexOfDigest`.

## Findings

| source | as written | input that shows it | evidently intended | confidence | as-written member | corrected member |
|---|---|---|---|---|---|---|
| EncryptoPack.py:562-563 | `QMessageBox.warning("Warning", …)` is called without its parent argument. The call raises a `TypeError` whenever any file failed, so the directory job ends in its error branch with the temporary archive left behind | a walk with the sentinel and one unreadable file | show a warning and continue encrypting the files that were packed | not executed | `Packer.CompressDirectoryAsWritten` (shown by `Packer.UnreadableFileAbortsAsWritten`) | `Packer.CompressDirectory`, used by `Jobs.EncryptDirectory` and proved in `Jobs.DirectoryRoundTrip` |
| EncryptoPack.py:925-930 | for a container not ending in `.pack`, the output name is the whole container path. `os.path.join` with an absolute path returns that path, so the output file is the container itself. It is truncated before its ciphertext is read, and success is reported | decrypting `/home/u/notes.bin`, a container sealed with its IV inline | name the output after the container's basename inside the extraction directory | not executed | `Jobs.DecryptedFileNameAsWritten` (shown by `Jobs.OutputIsContainerAsWritten` and `Jobs.DecryptEmptiesContainerAsWritten`) | `Jobs.DecryptedFileName`, used by `Jobs.DecryptJob` and proved in `Jobs.DecryptedPathIsNotContainer` and `Jobs.FileRoundTrip` |
