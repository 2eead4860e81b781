/** The `aegis` command line with file I/O removed: the vault-file and blob framings as byte
    transformations, and each command as the calls it makes on a vault. */
module AegisCli {
  import opened Outcomes
  import opened ByteStrings
  import opened Crypto
  import opened Hierarchy
  import opened SlotModel
  import opened SlotCodec
  import CodecLaws
  import opened VaultModel
  import opened AegisVaults

  /** "AEGIS" */
  const MAGIC: Bytes := [0x41, 0x45, 0x47, 0x49, 0x53]
  const VERSION: byte := 1
  const CLI_SALT: Bytes := Ascii("aegis-cli-salt-v1")
  const IGNORED: Bytes := Ascii("ignored")
  const MEM_KIB: u32 := 32768
  const ITERS: u32 := 2
  const AAD: Bytes := Ascii("aegis-cli")
  const HEADER_LEN: nat := 38

  /** The messages a command stops with. */
  datatype CliError =
    | KeyDerivation(cause: AegisError)
    | SealFailed(cause: AegisError)
    | AddFailed(cause: AegisError)
    | FileTooShort
    | NotAVault
    | UnsupportedVersion
    | CannotOpen(cause: AegisError)
    | EncryptFailed(cause: AegisError)
    | BlobTooShort
    | BlobCorrupt
    | DecryptFailed(cause: AegisError)
    | NotVerified

  type CliResult<+T> = Outcome<T, CliError>

  // Framing.

  function FileBytes(slotBytes: Bytes, salt: Key): Bytes {
    MAGIC + [VERSION] + salt + slotBytes
  }

  function ReadFile(buf: Bytes): CliResult<(Bytes, Key)> {
    if |buf| < HEADER_LEN then Err(FileTooShort)
    else if buf[..5] != MAGIC then Err(NotAVault)
    else if buf[5] != VERSION then Err(UnsupportedVersion)
    else Ok((buf[HEADER_LEN..], buf[6..HEADER_LEN]))
  }

  /** A vault file reads as exactly the bytes and salt it was written from. */
  lemma FileRoundTrip(buf: Bytes, slotBytes: Bytes, salt: Key)
    ensures ReadFile(buf) == Ok((slotBytes, salt)) <==> buf == FileBytes(slotBytes, salt)
  {
    var written := FileBytes(slotBytes, salt);
    assert written[..5] == MAGIC && written[6..HEADER_LEN] == salt && written[HEADER_LEN..] == slotBytes;
    if ReadFile(buf) == Ok((slotBytes, salt)) {
      assert buf == buf[..5] + [buf[5]] + buf[6..HEADER_LEN] + buf[HEADER_LEN..];
    }
  }

  /** `write_vault` */
  method WriteVault(slotBytes: Bytes, salt: Key) returns (out: Bytes)
    ensures out == FileBytes(slotBytes, salt)
    ensures ReadFile(out) == Ok((slotBytes, salt))
  {
    out := MAGIC;
    out := out + [VERSION];
    out := out + salt;
    out := out + slotBytes;
    FileRoundTrip(out, slotBytes, salt);
  }

  /** `read_vault` */
  method ReadVault(buf: Bytes) returns (r: CliResult<(Bytes, Key)>)
    ensures r == ReadFile(buf)
    ensures r.Ok? ==> buf == FileBytes(r.value.0, r.value.1)
  {
    if |buf| < 5 + 1 + 32 {
      return Err(FileTooShort);
    }
    if buf[..5] != MAGIC {
      return Err(NotAVault);
    }
    if buf[5] != VERSION {
      return Err(UnsupportedVersion);
    }
    var salt := new byte[32](_ => 0);
    for i := 0 to 32
      invariant salt[..i] == buf[6..6 + i]
    {
      salt[i] := buf[6 + i];
    }
    assert salt[..] == buf[6..HEADER_LEN];
    FileRoundTrip(buf, buf[HEADER_LEN..], salt[..]);
    return Ok((buf[HEADER_LEN..], salt[..]));
  }

  function BlobBytes(nonce: Bytes, ct: Bytes): Bytes {
    [0, CountByte(|nonce|)] + nonce + ct
  }

  function SplitBlob(blob: Bytes): CliResult<(Bytes, Bytes)> {
    if |blob| < 2 then Err(BlobTooShort)
    else
      var nlen := blob[1] as nat;
      if |blob| < 2 + nlen then Err(BlobCorrupt)
      else Ok((blob[2..2 + nlen], blob[2 + nlen..]))
  }

  /** Splitting a blob gives the nonce and ciphertext back exactly when the nonce's length fits
      its byte. */
  lemma BlobRoundTrip(nonce: Bytes, ct: Bytes)
    ensures SplitBlob(BlobBytes(nonce, ct)) == Ok((nonce, ct)) <==> |nonce| <= 255
  {
    var blob := BlobBytes(nonce, ct);
    CountByteValue(|nonce|);
    if |nonce| <= 255 {
      assert blob[2..2 + |nonce|] == nonce && blob[2 + |nonce|..] == ct;
    }
  }

  /** The framing in the `seal` command. */
  method FrameBlob(nonce: Bytes, ct: Bytes) returns (blob: Bytes)
    ensures blob == BlobBytes(nonce, ct)
    ensures |nonce| <= 255 ==> SplitBlob(blob) == Ok((nonce, ct))
  {
    blob := [0];
    blob := blob + [CountByte(|nonce|)];
    blob := blob + nonce;
    blob := blob + ct;
    BlobRoundTrip(nonce, ct);
  }

  // Commands, on the bytes of the files they read and write.

  /** Opening a vault file into a vault that is already live. */
  ghost function OpenInto(p: Primitives, v: Vault, buf: Bytes, pass: Bytes): (Vault, CliResult<()>) {
    match ReadFile(buf)
    case Ok((slotBytes, salt)) =>
      var (after, r) := v.OpenFromSlots(p, slotBytes, salt, pass);
      (after, r.MapErr(e => CannotOpen(e)))
    case Err(e) => (v, Err(e))
    case Panic => (v, Panic)
  }

  /** `open_vault`: the placeholder vault is unwrapped before the file's own is opened into it. */
  ghost function OpenVaultFile(p: Primitives, buf: Bytes, pass: Bytes): CliResult<Vault> {
    var read := ReadFile(buf);
    if read.IsFailure() then read.PropagateFailure()
    else
      match Unlock(p, IGNORED, CLI_SALT, MEM_KIB, ITERS)
      case Ok(placeholder) =>
        var (v, r) := OpenInto(p, placeholder, buf, pass);
        if r.Ok? then Ok(v) else r.PropagateFailure()
      case _ => Panic
  }

  /** The file a vault with a table is written to. */
  function VaultFile(p: Primitives, t: Table): Bytes {
    FileBytes(Printed(p, t), t.headerSalt)
  }

  /** Through both framings: reading and parsing a written vault file returns its table exactly when
      the slot count fits its byte. */
  lemma VaultFileRoundTrip(p: Primitives, t: Table)
    ensures var read := ReadFile(VaultFile(p, t));
            && read == Ok((Printed(p, t), t.headerSalt))
            && (Parsed(p, read.value.0, read.value.1) == Ok(t) <==> |t.slots| <= MAX_COUNT)
  {
    FileRoundTrip(VaultFile(p, t), Printed(p, t), t.headerSalt);
    CodecLaws.RoundTrip(p, t);
  }

  ghost function InitCommand(p: Primitives, pass: Bytes, headerSalt: Key, draw: SlotDraw): CliResult<Bytes> {
    var unlocked := Unlock(p, pass, CLI_SALT, MEM_KIB, ITERS).MapErr(e => KeyDerivation(e));
    if unlocked.IsFailure() then unlocked.PropagateFailure()
    else
      var (v, r) := unlocked.value.SealSlots(p, pass, headerSalt, draw);
      if r.IsFailure() then r.MapErr(e => SealFailed(e)).PropagateFailure()
      else if v.table.None? then Panic
      else Ok(VaultFile(p, v.table.value))
  }

  ghost function AddCommand(p: Primitives, buf: Bytes, pass: Bytes, newPass: Bytes, headerSalt: Key, draw: SlotDraw)
    : CliResult<Bytes>
  {
    var live := OpenVaultFile(p, buf, pass);
    if live.IsFailure() then live.PropagateFailure()
    else
      var (v, r) := live.value.AddSlot(p, newPass, headerSalt, draw);
      if r.IsFailure() then r.MapErr(e => AddFailed(e)).PropagateFailure()
      else if v.table.None? then Panic
      else Ok(VaultFile(p, v.table.value))
  }

  ghost function SealCommand(p: Primitives, buf: Bytes, pass: Bytes, data: Bytes, nonce: Bytes): CliResult<Bytes>
    requires |nonce| == NonceLen(XChaCha20Poly1305)
  {
    var live := OpenVaultFile(p, buf, pass);
    if live.IsFailure() then live.PropagateFailure()
    else
      var r := live.value.Encrypt(p, Enc, data, AAD, XChaCha20Poly1305, nonce).MapErr(e => EncryptFailed(e));
      if r.IsFailure() then r.PropagateFailure()
      else Ok(BlobBytes(r.value.0, r.value.1))
  }

  ghost function OpenCommand(p: Primitives, buf: Bytes, pass: Bytes, blob: Bytes): CliResult<Bytes> {
    var live := OpenVaultFile(p, buf, pass);
    if live.IsFailure() then live.PropagateFailure()
    else
      var parts := SplitBlob(blob);
      if parts.IsFailure() then parts.PropagateFailure()
      else
        var r := live.value.Decrypt(p, Enc, parts.value.0, parts.value.1, AAD, XChaCha20Poly1305);
        r.MapErr(e => DecryptFailed(e))
  }

  ghost function VerifyCommand(p: Primitives, buf: Bytes, pass: Bytes): CliResult<()> {
    var live := OpenVaultFile(p, buf, pass);
    if live.IsFailure() then live.PropagateFailure()
    else if live.value.VerifyVolume(p) then Ok(())
    else Err(NotVerified)
  }

  /** Whatever the file holds, `verify` accepts it exactly when it opens and otherwise fails as opening
      does: a vault that opened always matches its verifier, so the last error of the command never
      arises. */
  lemma VerifyFollowsOpen(p: Primitives, buf: Bytes, pass: Bytes)
    ensures var live := OpenVaultFile(p, buf, pass);
            VerifyCommand(p, buf, pass) == if live.Ok? then Ok(()) else live.PropagateFailure()
    ensures VerifyCommand(p, buf, pass) != Err(NotVerified)
  {
    var read, base := ReadFile(buf), Unlock(p, IGNORED, CLI_SALT, MEM_KIB, ITERS);
    if read.Ok? && base.Ok? {
      var (slotBytes, salt) := read.value;
      OpenIsAtomic(p, base.value, base.value, slotBytes, salt, pass);
    }
  }

  /** `open_vault`, on a live vault object. */
  method OpenVault(p: Primitives, buf: Bytes, pass: Bytes) returns (r: CliResult<AegisVault>)
    ensures var spec := OpenVaultFile(p, buf, pass);
            if spec.Ok? then
              && r.Ok? && fresh(r.value.Repr()) && r.value.crypto == p && r.value.Valid()
              && r.value.View() == spec.value
            else r == spec.PropagateFailure()
  {
    var read :- ReadVault(buf);
    var (slotBytes, salt) := read;
    var unlocked := AegisVault.Unlocked(p, IGNORED, CLI_SALT, MEM_KIB, ITERS);
    if !unlocked.Ok? {
      return Panic;
    }
    var v := unlocked.value;
    var result := v.OpenFromSlots(slotBytes, salt, pass);
    match result
    case Ok(_) => return Ok(v);
    case Err(e) => return Err(CannotOpen(e));
    case Panic => return Panic;
  }

  /** The file written at the end of `init` and `add`. */
  method SaveVault(v: AegisVault) returns (r: CliResult<Bytes>)
    ensures r == if v.View().table.None? then Panic else Ok(VaultFile(v.crypto, v.View().table.value))
  {
    var bytes := v.SlotsToBytes();
    var salt := v.SlotsHeaderSalt();
    if bytes.None? || salt.None? {
      return Panic;
    }
    var out := WriteVault(bytes.value, salt.value);
    return Ok(out);
  }

  /** `aegis init` */
  method Init(p: Primitives, pass: Bytes, headerSalt: Key, draw: SlotDraw) returns (r: CliResult<Bytes>)
    ensures r == InitCommand(p, pass, headerSalt, draw)
  {
    var unlocked := AegisVault.Unlocked(p, pass, CLI_SALT, MEM_KIB, ITERS);
    var v :- unlocked.MapErr(e => KeyDerivation(e));
    var sealResult := v.SealSlots(pass, headerSalt, draw);
    var done :- sealResult.MapErr(e => SealFailed(e));
    r := SaveVault(v);
  }

  /** `aegis add` */
  method Add(p: Primitives, buf: Bytes, pass: Bytes, newPass: Bytes, headerSalt: Key, draw: SlotDraw)
    returns (r: CliResult<Bytes>)
    ensures r == AddCommand(p, buf, pass, newPass, headerSalt, draw)
  {
    var v :- OpenVault(p, buf, pass);
    var addResult := v.AddSlot(newPass, headerSalt, draw);
    var idx :- addResult.MapErr(e => AddFailed(e));
    r := SaveVault(v);
  }

  /** `aegis seal` */
  method Seal(p: Primitives, buf: Bytes, pass: Bytes, data: Bytes, nonce: Bytes) returns (r: CliResult<Bytes>)
    requires |nonce| == NonceLen(XChaCha20Poly1305)
    ensures r == SealCommand(p, buf, pass, data, nonce)
  {
    var v :- OpenVault(p, buf, pass);
    var encrypted := v.Encrypt(Enc, data, AAD, XChaCha20Poly1305, nonce);
    var sealResult :- encrypted.MapErr(e => EncryptFailed(e));
    var blob := FrameBlob(sealResult.0, sealResult.1);
    return Ok(blob);
  }

  /** `aegis open` */
  method Open(p: Primitives, buf: Bytes, pass: Bytes, blob: Bytes) returns (r: CliResult<Bytes>)
    ensures r == OpenCommand(p, buf, pass, blob)
  {
    var v :- OpenVault(p, buf, pass);
    if |blob| < 2 {
      return Err(BlobTooShort);
    }
    var nlen := blob[1] as nat;
    if |blob| < 2 + nlen {
      return Err(BlobCorrupt);
    }
    var nonce := blob[2..2 + nlen];
    var ct := blob[2 + nlen..];
    var decrypted := v.Decrypt(Enc, nonce, ct, AAD, XChaCha20Poly1305);
    r := decrypted.MapErr(e => DecryptFailed(e));
  }

  /** `aegis verify` */
  method Verify(p: Primitives, buf: Bytes, pass: Bytes) returns (r: CliResult<()>)
    ensures r == VerifyCommand(p, buf, pass)
  {
    var v :- OpenVault(p, buf, pass);
    var matches := v.VerifyVolume();
    if matches {
      return Ok(());
    }
    return Err(NotVerified);
  }
}
