/** What each command answers, for every file and every blob: each message it stops with has its
    exact condition, and what it writes is stated byte by byte. */
module CliLaws {
  import opened Outcomes
  import opened ByteStrings
  import opened Crypto
  import opened Hierarchy
  import opened SlotModel
  import opened SlotCodec
  import opened VaultModel
  import opened AegisCli

  /** The vault file of a table: magic, version and header salt, then the table's own bytes. */
  predicate IsFileOf(p: Primitives, file: Bytes, t: Table) {
    file == [0x41, 0x45, 0x47, 0x49, 0x53, 1] + t.headerSalt + Printed(p, t)
  }

  /** What is refused before any key is derived. */
  lemma ReadOutcome(buf: Bytes)
    ensures var r := ReadFile(buf);
            && (r == Err(FileTooShort) <==> |buf| < 38)
            && (r == Err(NotAVault) <==> |buf| >= 38 && buf[..5] != [0x41, 0x45, 0x47, 0x49, 0x53])
            && (r == Err(UnsupportedVersion) <==>
                  |buf| >= 38 && buf[..5] == [0x41, 0x45, 0x47, 0x49, 0x53] && buf[5] != 1)
            && (r.Ok? <==> exists salt: Key, rest :: buf == [0x41, 0x45, 0x47, 0x49, 0x53, 1] + salt + rest)
            && (forall salt: Key, rest ::
                  buf == [0x41, 0x45, 0x47, 0x49, 0x53, 1] + salt + rest ==> r == Ok((rest, salt)))
  {
    forall salt: Key, rest | buf == [0x41, 0x45, 0x47, 0x49, 0x53, 1] + salt + rest
      ensures ReadFile(buf) == Ok((rest, salt))
    {
      FileRoundTrip(buf, rest, salt);
    }
    if ReadFile(buf).Ok? {
      var (rest, salt) := ReadFile(buf).value;
      FileRoundTrip(buf, rest, salt);
      assert buf == [0x41, 0x45, 0x47, 0x49, 0x53, 1] + salt + rest;
    }
  }

  /** Opening a vault file: a file that is not one is refused first, then the run stops if the
      placeholder cannot be derived, and the rest is what opening into any vault at all gives. */
  lemma OpenFileOutcome(p: Primitives, buf: Bytes, pass: Bytes, v: Vault)
    ensures var r := OpenVaultFile(p, buf, pass);
            match ReadFile(buf)
            case Err(e) => r == Err(e)
            case Panic => false
            case Ok((slotBytes, salt)) =>
              if p.argon2id(Ascii("ignored"), Ascii("aegis-cli-salt-v1"), 32768, 2).None? then r == Panic
              else
                var (after, answer) := v.OpenFromSlots(p, slotBytes, salt, pass);
                match answer
                case Ok(_) => r == Ok(after)
                case Err(e) => r == Err(CannotOpen(e))
                case Panic => r == Panic
  {
    NewVaultIsConsistent(p, Zeros(32), IGNORED, CLI_SALT, MEM_KIB, ITERS);
    var base := Unlock(p, IGNORED, CLI_SALT, MEM_KIB, ITERS);
    if ReadFile(buf).Ok? && base.Ok? {
      var (slotBytes, salt) := ReadFile(buf).value;
      OpenIsAtomic(p, base.value, v, slotBytes, salt, pass);
    }
  }

  /** A vault opened from a file, whatever the file held, is consistent and has a table. */
  lemma OpenedIsConsistent(p: Primitives, buf: Bytes, pass: Bytes)
    requires OpenVaultFile(p, buf, pass).Ok?
    ensures Consistent(p, OpenVaultFile(p, buf, pass).value) && OpenVaultFile(p, buf, pass).value.table.Some?
  {
    var base := Unlock(p, IGNORED, CLI_SALT, MEM_KIB, ITERS).value;
    var (slotBytes, salt) := ReadFile(buf).value;
    OpenIsAtomic(p, base, base, slotBytes, salt, pass);
  }

  /** `init`: the derivation, then the sealing, each with its own message; and the file. */
  lemma InitOutcome(p: Primitives, pass: Bytes, headerSalt: Key, draw: SlotDraw)
    ensures var r := InitCommand(p, pass, headerSalt, draw);
            match p.argon2id(pass, Ascii("aegis-cli-salt-v1"), 32768, 2)
            case None => r == Err(KeyDerivation(AegisError.Argon2))
            case Some(master) =>
              match CreateSlot(p, master, pass, 64, 3, draw)
              case Ok(slot) =>
                exists t :: IsFirstTable(p, t, master, headerSalt, slot) && r.Ok? && IsFileOf(p, r.value, t)
              case Err(e) => r == Err(SealFailed(e))
              case Panic => false
  {
    NewVaultIsConsistent(p, Zeros(32), pass, CLI_SALT, MEM_KIB, ITERS);
    var unlocked := Unlock(p, pass, CLI_SALT, MEM_KIB, ITERS);
    if unlocked.Ok? {
      SealSlotsOutcome(p, unlocked.value, pass, headerSalt, draw);
      var (v, r) := unlocked.value.SealSlots(p, pass, headerSalt, draw);
      if r.Ok? {
        assert IsFileOf(p, VaultFile(p, v.table.value), v.table.value);
      }
    }
  }

  /** `add`, on a file that opens: refused as full exactly at sixteen slots; below that the file of the
      table with one slot more, for the same master and salt, exactly if the slot can be created. */
  lemma AddCommandOutcome(p: Primitives, buf: Bytes, pass: Bytes, newPass: Bytes, headerSalt: Key, draw: SlotDraw)
    ensures var live := OpenVaultFile(p, buf, pass); var r := AddCommand(p, buf, pass, newPass, headerSalt, draw);
            && (!live.Ok? ==> r == live.PropagateFailure())
            && (live.Ok? ==>
                  && live.value.table.Some?
                  && var t := live.value.table.value;
                     var created := CreateSlot(p, live.value.master, newPass, 64, 3, draw);
                     && (r == Err(AddFailed(SlotTableFull(16))) <==> |t.slots| >= 16)
                     && (|t.slots| < 16 && created.Ok? ==>
                           r.Ok? && IsFileOf(p, r.value, t.(slots := t.slots + [created.value])))
                     && (|t.slots| < 16 && !created.Ok? ==> created.Err? && r == Err(AddFailed(created.error))))
  {
    var live := OpenVaultFile(p, buf, pass);
    if live.Ok? {
      OpenedIsConsistent(p, buf, pass);
      CreateOutcome(p, live.value.master, newPass, 64, 3, draw);
      AddSlotOutcome(p, live.value, newPass, headerSalt, draw);
    }
  }

  /** The ciphertext of some data under the bulk key of the vault's master, if the cipher accepts it. */
  ghost function BulkSealed(p: Primitives, v: Vault, nonce: Bytes, data: Bytes): Option<Bytes>
    requires Consistent(p, v)
  {
    PublishedDomainKeys(p, v.master);
    var salt, info := Ascii("soteria-kh-v1/master-salt"), Ascii("soteria-kh-v1/k-enc/aead-bulk");
    var key: Key := p.hkdf(v.master, salt, info, 32).value;
    p.seal(XChaCha20Poly1305, key, nonce, data, Ascii("aegis-cli"))
  }

  /** `seal`, on a file that opens: a zero byte, the nonce's length, the nonce and the ciphertext. */
  lemma SealCommandOutcome(p: Primitives, buf: Bytes, pass: Bytes, data: Bytes, nonce: Bytes)
    requires |nonce| == NonceLen(XChaCha20Poly1305)
    ensures |nonce| == 24
    ensures var live := OpenVaultFile(p, buf, pass); var r := SealCommand(p, buf, pass, data, nonce);
            && (!live.Ok? ==> r == live.PropagateFailure())
            && (live.Ok? ==>
                  && Consistent(p, live.value)
                  && match BulkSealed(p, live.value, nonce, data)
                     case Some(ct) => r == Ok([0, 24] + nonce + ct)
                     case None => r == Err(EncryptFailed(AegisError.AeadSeal)))
  {
    var live := OpenVaultFile(p, buf, pass);
    if live.Ok? {
      OpenedIsConsistent(p, buf, pass);
      UsesDerivedDomainKey(p, live.value, Enc, data, [], AAD, XChaCha20Poly1305, nonce);
      CountByteOf(24, 24);
    }
  }

  /** `open`, on a file that opens and any blob at all: the data comes back exactly if the blob holds a
      24-byte nonce and what sealing that data with it gives; anything else that can be split is one
      decryption error, and what cannot be split is refused by its length. */
  lemma OpenCommandOutcome(p: Primitives, buf: Bytes, pass: Bytes, blob: Bytes, data: Bytes)
    ensures var live := OpenVaultFile(p, buf, pass); var r := OpenCommand(p, buf, pass, blob);
            && (!live.Ok? ==> r == live.PropagateFailure())
            && (live.Ok? ==>
                  && Consistent(p, live.value)
                  && (r == Err(BlobTooShort) <==> |blob| < 2)
                  && (r == Err(BlobCorrupt) <==> 2 <= |blob| < 2 + blob[1] as nat)
                  && (r == Ok(data) <==>
                        && |blob| >= 26 && blob[1] == 24
                        && BulkSealed(p, live.value, blob[2..26], data) == Some(blob[26..]))
                  && (r.Ok? || r == Err(BlobTooShort) || r == Err(BlobCorrupt)
                      || r == Err(DecryptFailed(AegisError.AeadOpen))))
  {
    var live := OpenVaultFile(p, buf, pass);
    if live.Ok? {
      OpenedIsConsistent(p, buf, pass);
      if |blob| >= 2 && |blob| >= 2 + blob[1] as nat {
        var nonce, ct := blob[2..2 + blob[1] as nat], blob[2 + blob[1] as nat..];
        UsesDerivedDomainKey(p, live.value, Enc, data, ct, AAD, XChaCha20Poly1305, nonce);
      }
    }
  }

  /** `open` undoes `seal` and nothing else: it returns the data exactly for the blob that sealing the
      data with the blob's nonce writes, except that it does not look at the first byte. */
  lemma OpensWhatSealWrites(p: Primitives, buf: Bytes, pass: Bytes, blob: Bytes, data: Bytes)
    ensures OpenCommand(p, buf, pass, blob) == Ok(data) <==>
            && |blob| >= 26 && blob[1] == 24
            && SealCommand(p, buf, pass, data, blob[2..26]) == Ok(blob[0 := 0])
  {
    OpenCommandOutcome(p, buf, pass, blob, data);
    if |blob| >= 26 && blob[1] == 24 {
      var nonce := blob[2..26];
      SealCommandOutcome(p, buf, pass, data, nonce);
      assert blob[0 := 0] == [0, 24] + nonce + blob[26..];
      if SealCommand(p, buf, pass, data, nonce) == Ok(blob[0 := 0]) {
        var ct := BulkSealed(p, OpenVaultFile(p, buf, pass).value, nonce, data).value;
        assert ([0, 24] + nonce + ct)[26..] == ct && blob[0 := 0][26..] == blob[26..];
      }
    }
  }
}
