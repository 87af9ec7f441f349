/** The input checks both button handlers run before touching anything. Each
    returns the first check that fails, in the handlers' order, or `None`
    when the job may start. */
module Validation {
  import opened Wrappers
  import opened Text
  import opened Paths
  import opened FileSystems

  datatype InputError =
    | EmptyPath             // the path field is empty
    | BlankPassword         // encryption: the password is only whitespace
    | PasswordMismatch      // encryption: the confirmation differs
    | InvalidPath           // the path is neither a file nor a directory
    | NoCredential          // decryption: password and recovery key path both blank
    | RecoveryKeyMissing    // decryption: the recovery key path does not exist
    | RecoveryKeyTooShort   // decryption: the recovery key file holds under 64 bytes
    | IvKeyMissing          // decryption: the IV key path does not exist

  /** The size a recovery key file must reach: one SHA-256 digest in hex. */
  const RecoveryKeySize: nat := 64

  /** The checks of `encrypt_button_click`. */
  function ValidateEncrypt(fs: FileSystem, path: Path, password: string, confirm: string): (r: Option<InputError>)
    ensures r == Some(EmptyPath) <==> path == []
    ensures r == Some(BlankPassword) <==> path != [] && IsBlank(password)
    ensures r == Some(PasswordMismatch) <==> path != [] && !IsBlank(password) && password != confirm
    ensures r == Some(InvalidPath) <==>
              path != [] && !IsBlank(password) && password == confirm && !IsFile(fs, path) && !IsDir(fs, path)
    ensures r.None? <==> path != [] && !IsBlank(password) && password == confirm && (IsFile(fs, path) || IsDir(fs, path))
  {
    StripEmptyIffBlank(password);
    if path == [] then Some(EmptyPath)
    else if Strip(password) == [] then Some(BlankPassword)
    else if password != confirm then Some(PasswordMismatch)
    else if !(IsFile(fs, path) || IsDir(fs, path)) || !Exists(fs, path) then Some(InvalidPath)
    else None
  }

  /** Whether a non-blank recovery key path names a file too short to hold a
      key. A directory passes this gate (its size is not modelled); it fails
      later, when it is opened. */
  predicate RecoveryKeyShort(fs: FileSystem, rk: Path) {
    rk in fs.files && |fs.files[rk]| < RecoveryKeySize
  }

  /** The checks of `decrypt_button_click`. The key file paths are used with
      surrounding whitespace stripped. */
  function ValidateDecrypt(fs: FileSystem, path: Path, password: string, recoveryFile: string, ivKeyFile: string)
    : (r: Option<InputError>)
    ensures r == Some(EmptyPath) <==> path == []
    ensures r == Some(NoCredential) <==> path != [] && IsBlank(password) && IsBlank(recoveryFile)
    ensures r == Some(InvalidPath) <==>
              path != [] && !(IsBlank(password) && IsBlank(recoveryFile)) && !IsFile(fs, path) && !IsDir(fs, path)
    ensures r.None? <==>
              && path != []
              && !(IsBlank(password) && IsBlank(recoveryFile))
              && (IsFile(fs, path) || IsDir(fs, path))
              && (Strip(recoveryFile) != [] ==> Exists(fs, Strip(recoveryFile)) && !RecoveryKeyShort(fs, Strip(recoveryFile)))
              && (Strip(ivKeyFile) != [] ==> Exists(fs, Strip(ivKeyFile)))
    ensures r == Some(RecoveryKeyMissing) <==>
              && path != []
              && !(IsBlank(password) && IsBlank(recoveryFile))
              && (IsFile(fs, path) || IsDir(fs, path))
              && Strip(recoveryFile) != [] && !Exists(fs, Strip(recoveryFile))
    ensures r == Some(RecoveryKeyTooShort) <==>
              && path != []
              && !(IsBlank(password) && IsBlank(recoveryFile))
              && (IsFile(fs, path) || IsDir(fs, path))
              && Strip(recoveryFile) != [] && Exists(fs, Strip(recoveryFile))
              && RecoveryKeyShort(fs, Strip(recoveryFile))
    ensures r == Some(IvKeyMissing) <==>
              && path != []
              && !(IsBlank(password) && IsBlank(recoveryFile))
              && (IsFile(fs, path) || IsDir(fs, path))
              && (Strip(recoveryFile) != [] ==> Exists(fs, Strip(recoveryFile)) && !RecoveryKeyShort(fs, Strip(recoveryFile)))
              && Strip(ivKeyFile) != [] && !Exists(fs, Strip(ivKeyFile))
  {
    StripEmptyIffBlank(password);
    StripEmptyIffBlank(recoveryFile);
    var rk := Strip(recoveryFile);
    var ivk := Strip(ivKeyFile);
    if path == [] then Some(EmptyPath)
    else if Strip(password) == [] && rk == [] then Some(NoCredential)
    else if !(IsFile(fs, path) || IsDir(fs, path)) || !Exists(fs, path) then Some(InvalidPath)
    else if rk != [] && !Exists(fs, rk) then Some(RecoveryKeyMissing)
    else if rk != [] && RecoveryKeyShort(fs, rk) then Some(RecoveryKeyTooShort)
    else if ivk != [] && !Exists(fs, ivk) then Some(IvKeyMissing)
    else None
  }

  /** A password is checked as typed against its confirmation, but only its
      stripped form decides blankness: surrounding whitespace is kept in the
      key material. */
  lemma PaddedPasswordAccepted(fs: FileSystem, path: Path, password: string)
    requires path != [] && IsFile(fs, path)
    requires !IsBlank(password)
    ensures ValidateEncrypt(fs, path, " " + password, " " + password).None?
    ensures ValidateEncrypt(fs, path, " " + password, password) == Some(PasswordMismatch)
  {
    assert !IsBlank(" " + password) by {
      var i :| 0 <= i < |password| && !IsSpace(password[i]);
      assert (" " + password)[i + 1] == password[i];
    }
  }

  /** A recovery key alone is enough to get past the credential check: the
      password field may then be blank. */
  lemma RecoveryKeyReplacesPassword(fs: FileSystem, path: Path, recoveryFile: string)
    requires path != [] && IsFile(fs, path)
    requires Strip(recoveryFile) in fs.files && |fs.files[Strip(recoveryFile)]| >= RecoveryKeySize
    requires Strip(recoveryFile) != []
    ensures ValidateDecrypt(fs, path, "", recoveryFile, "").None?
  {
    StripEmptyIffBlank(recoveryFile);
    StripEmptyIffBlank("");
  }
}
