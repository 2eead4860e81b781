/** A live vault as a value: the operations of src/lib.rs as functions from state to state. */
module VaultModel {
  import opened Outcomes
  import opened ByteStrings
  import opened Crypto
  import opened Hierarchy
  import opened SlotModel
  import opened SlotCodec
  import opened TableLaws

  datatype VaultOp =
    | Seal(passphrase: Bytes, headerSalt: Key, draw: SlotDraw)
    | Add(passphrase: Bytes, headerSalt: Key, draw: SlotDraw)
    | Revoke(idx: nat)
    | Rotate(newMaster: Key)
    | Open(bytes: Bytes, headerSalt: Key, passphrase: Bytes)

  datatype Vault = Vault(master: Key, hierarchy: KeyHierarchy, table: Option<Table>)
  {
    /** `seal_slots` */
    function SealSlots(p: Primitives, passphrase: Bytes, headerSalt: Key, draw: SlotDraw): (Vault, Result<()>) {
      match NewInitial(p, master, passphrase, headerSalt, draw)
      case Ok(t) => (this.(table := Some(t)), Ok(()))
      case Err(e) => (this, Err(e))
      case Panic => (this, Panic)
    }

    /** `add_slot`: a vault without a table seals one, and answers slot 0. */
    function AddSlot(p: Primitives, passphrase: Bytes, headerSalt: Key, draw: SlotDraw): (Vault, Result<nat>) {
      match table
      case Some(t) =>
        var (after, r) := t.AddSlot(p, master, passphrase, draw);
        (this.(table := Some(after)), r)
      case None =>
        var (after, r) := SealSlots(p, passphrase, headerSalt, draw);
        (after, if r.Ok? then Ok(0) else r.PropagateFailure())
    }

    /** `revoke_slot` */
    function RevokeSlot(idx: nat): (Vault, Result<()>) {
      match table
      case Some(t) =>
        var (after, r) := t.RevokeSlot(idx);
        (this.(table := Some(after)), r)
      case None => (this, Err(LastSlotRevocation))
    }

    /** `open_from_slots`, with the state at each exit: the last error exit comes after the
        master has been replaced. */
    ghost function OpenFromSlots(p: Primitives, bytes: Bytes, headerSalt: Key, passphrase: Bytes): (Vault, Result<()>) {
      var parsed := Parsed(p, bytes, headerSalt);
      if parsed.IsFailure() then (this, parsed.PropagateFailure())
      else
        var t := parsed.value;
        var found := t.UnsealWith(p, passphrase);
        if found.IsFailure() then (this, found.PropagateFailure())
        else
          var raw := found.value.1;
          if VolumeVerifier(p, raw) != t.verifier then (this, Err(VolumeMismatch))
          else
            var derived := FromMaster(p, raw);
            if derived.IsFailure() then (this.(master := raw), derived.PropagateFailure())
            else (Vault(raw, derived.value, Some(t)), Ok(()))
    }

    /** `rotate_master`: a panic if the fresh master did not derive. */
    function RotateMaster(p: Primitives, newMaster: Key): (Vault, Result<()>) {
      var derived := FromMaster(p, newMaster);
      if derived.IsFailure() then (this.(master := newMaster), Panic)
      else (Vault(newMaster, derived.value, None), Ok(()))
    }

    /** `verify_volume` */
    predicate VerifyVolume(p: Primitives) {
      table.Some? && VolumeVerifier(p, master) == table.value.verifier
    }

    /** `encrypt`, with the nonce it draws. */
    function Encrypt(p: Primitives, d: Domain, plaintext: Bytes, aad: Bytes, algo: AeadAlgo, nonce: Bytes)
      : Result<(Bytes, Bytes)>
      requires |nonce| == NonceLen(algo)
    {
      SealBytes(p, algo, hierarchy.DomainKey(d), nonce, plaintext, aad)
    }

    /** `decrypt` */
    function Decrypt(p: Primitives, d: Domain, nonce: Bytes, ciphertext: Bytes, aad: Bytes, algo: AeadAlgo)
      : Result<Bytes>
    {
      OpenBytes(p, algo, hierarchy.DomainKey(d), nonce, ciphertext, aad)
    }

    /** The state after one public operation, whether it succeeds or fails. */
    ghost function After(p: Primitives, op: VaultOp): Vault {
      match op
      case Seal(passphrase, headerSalt, draw) => SealSlots(p, passphrase, headerSalt, draw).0
      case Add(passphrase, headerSalt, draw) => AddSlot(p, passphrase, headerSalt, draw).0
      case Revoke(idx) => RevokeSlot(idx).0
      case Rotate(m) => RotateMaster(p, m).0
      case Open(bytes, headerSalt, passphrase) => OpenFromSlots(p, bytes, headerSalt, passphrase).0
    }
  }

  /** `from_master_key` */
  function FromMasterKey(p: Primitives, master: Key): Outcome<Vault, AegisError> {
    match FromMaster(p, master)
    case Ok(h) => Ok(Vault(master, h, None))
    case _ => Panic
  }

  /** `unlock` */
  function Unlock(p: Primitives, passphrase: Bytes, salt: Bytes, memoryKib: u32, iterations: u32): Result<Vault> {
    match p.argon2id(passphrase, salt, memoryKib, iterations)
    case None => Err(AegisError.Argon2)
    case Some(master) => FromMasterKey(p, master)
  }

  ghost function AfterAll(p: Primitives, v: Vault, ops: seq<VaultOp>): Vault {
    if ops == [] then v
    else AfterAll(p, v, ops[..|ops| - 1]).After(p, ops[|ops| - 1])
  }

  // Laws.

  /** The cross-field invariant: the hierarchy is the one derived from the live master, and a
      table, when there is one, carries the verifier of that master. */
  ghost predicate Consistent(p: Primitives, v: Vault) {
    && (forall d :: Some(v.hierarchy.DomainKey(d)) == p.hkdf(v.master, MASTER_SALT, d.InfoTag(), 32))
    && (v.table.Some? ==> v.table.value.verifier == VolumeVerifier(p, v.master))
  }

  lemma DerivedIsConsistent(p: Primitives, master: Key, table: Option<Table>)
    requires table.Some? ==> table.value.verifier == VolumeVerifier(p, master)
    ensures FromMaster(p, master).Ok?
    ensures Consistent(p, Vault(master, FromMaster(p, master).value, table))
  {
    forall d: Domain
      ensures FromMaster(p, master).Ok?
      ensures Some(FromMaster(p, master).value.DomainKey(d)) == p.hkdf(master, MASTER_SALT, d.InfoTag(), 32)
    {
      DomainKeysAreDerived(p, master, d);
    }
    DomainKeysAreDerived(p, master, Enc);
  }

  /** A consistent vault has the hierarchy of its master, as a whole. */
  lemma ConsistentHierarchy(p: Primitives, v: Vault)
    requires Consistent(p, v)
    ensures FromMaster(p, v.master) == Ok(v.hierarchy)
  {
    DomainKeysAreDerived(p, v.master, Enc);
    var h := FromMaster(p, v.master).value;
    forall d: Domain ensures h.DomainKey(d) == v.hierarchy.DomainKey(d) {
      DomainKeysAreDerived(p, v.master, d);
    }
    HierarchyExtensional(h, v.hierarchy);
  }

  /** Opening arbitrary bytes: the exact state and answer, on every path. An error leaves the vault
      as it was, also on the exit after the master is replaced, because that exit is never taken;
      and neither the answer nor the state after a success depends on the vault before. */
  lemma OpenIsAtomic(p: Primitives, v: Vault, w: Vault, bytes: Bytes, headerSalt: Key, passphrase: Bytes)
    ensures var (after, r) := v.OpenFromSlots(p, bytes, headerSalt, passphrase);
            && r == w.OpenFromSlots(p, bytes, headerSalt, passphrase).1
            && (!r.Ok? ==> after == v)
            && (r.Ok? ==> after == w.OpenFromSlots(p, bytes, headerSalt, passphrase).0 && Consistent(p, after)
                          && after.table == Some(Parsed(p, bytes, headerSalt).value))
            && r != Err(AegisError.Hkdf)
  {
    if Parsed(p, bytes, headerSalt).Ok? {
      var t := Parsed(p, bytes, headerSalt).value;
      if t.UnsealWith(p, passphrase).Ok? {
        var raw := t.UnsealWith(p, passphrase).value.1;
        DomainKeysAreDerived(p, raw, Enc);
        if VolumeVerifier(p, raw) == t.verifier {
          DerivedIsConsistent(p, raw, Some(t));
        }
      } else {
        SearchFindsLeast(p, t.slots, passphrase, {}, 0);
      }
    }
  }

  /** The first slot that opens under the passphrase gives this master. */
  ghost predicate FirstOpensTo(p: Primitives, t: Table, passphrase: Bytes, master: Key) {
    exists i: nat :: FirstToOpen(p, t.slots, passphrase, i) && t.slots[i].Unseal(p, passphrase) == Ok(master)
  }

  lemma FirstOpensToFound(p: Primitives, t: Table, passphrase: Bytes, master: Key)
    ensures FirstOpensTo(p, t, passphrase, master) <==>
            t.UnsealWith(p, passphrase).Ok? && t.UnsealWith(p, passphrase).value.1 == master
  {
    SearchStopsAtFirst(p, t.slots, passphrase);
    SearchFindsLeast(p, t.slots, passphrase, {}, 0);
  }

  /** Opening arbitrary bytes, answer by answer, in terms of the slots read: success exactly when the
      first slot that opens gives a master with the table's verifier, a mismatch exactly when it
      gives another, and no slot unsealed exactly when none opens. Later slots are not tried. */
  lemma OpenOutcome(p: Primitives, v: Vault, bytes: Bytes, headerSalt: Key, passphrase: Bytes)
    ensures var (after, r) := v.OpenFromSlots(p, bytes, headerSalt, passphrase);
            var parsed := Parsed(p, bytes, headerSalt);
            && (!parsed.Ok? ==> r == parsed.PropagateFailure())
            && (parsed.Ok? ==>
                  var t := parsed.value;
                  && (r == Err(NoSlotUnsealed) <==>
                        forall i :: 0 <= i < |t.slots| ==> !t.slots[i].Opens(p, passphrase))
                  && (r == Err(VolumeMismatch) <==>
                        exists m :: FirstOpensTo(p, t, passphrase, m) && VolumeVerifier(p, m) != t.verifier)
                  && (r == Ok(()) <==>
                        exists m :: FirstOpensTo(p, t, passphrase, m) && VolumeVerifier(p, m) == t.verifier)
                  && (r.Ok? ==> FirstOpensTo(p, t, passphrase, after.master)))
  {
    if Parsed(p, bytes, headerSalt).Ok? {
      var t := Parsed(p, bytes, headerSalt).value;
      SearchStopsAtFirst(p, t.slots, passphrase);
      forall m ensures FirstOpensTo(p, t, passphrase, m) <==>
                       t.UnsealWith(p, passphrase).Ok? && t.UnsealWith(p, passphrase).value.1 == m
      {
        FirstOpensToFound(p, t, passphrase, m);
      }
      if t.UnsealWith(p, passphrase).Ok? {
        var m := t.UnsealWith(p, passphrase).value.1;
        DomainKeysAreDerived(p, m, Enc);
        assert FirstOpensTo(p, t, passphrase, m);
      }
    }
  }

  /** A failing seal, add or revoke leaves the vault as it was; a successful seal leaves one slot and
      a successful add answers the index of the slot it appended, each under the live master. */
  lemma TableCallsAreAtomic(p: Primitives, v: Vault, passphrase: Bytes, headerSalt: Key, draw: SlotDraw, idx: nat)
    ensures var (after, r) := v.SealSlots(p, passphrase, headerSalt, draw);
            && (!r.Ok? ==> after == v)
            && (r.Ok? ==> after.table.Some? && |after.table.value.slots| == 1
                          && after.table.value.headerSalt == headerSalt
                          && after.table.value.slots[0].Unseal(p, passphrase) == Ok(v.master))
    ensures var (after, r) := v.AddSlot(p, passphrase, headerSalt, draw);
            && (!r.Ok? ==> after == v)
            && (r.Ok? ==> after.table.Some? && r.value == |after.table.value.slots| - 1
                          && (v.table.Some? ==> after.table.value.slots[..r.value] == v.table.value.slots)
                          && after.table.value.slots[r.value].Unseal(p, passphrase) == Ok(v.master))
    ensures var (after, r) := v.RevokeSlot(idx);
            && (!r.Ok? ==> after == v)
            && (v.table.None? ==> r == Err(LastSlotRevocation))
            && after.master == v.master && after.hierarchy == v.hierarchy
  {
    if CreateSlot(p, v.master, passphrase, SLOT_M_COST, SLOT_T_COST, draw).Ok? {
      SealingLaw(p, v.master, passphrase, SLOT_M_COST, SLOT_T_COST, draw);
    }
  }

  /** Sealing succeeds, with or without a table there, exactly if one slot for the live master can be
      created; that slot alone is then the table. */
  lemma SealSlotsOutcome(p: Primitives, v: Vault, passphrase: Bytes, headerSalt: Key, draw: SlotDraw)
    ensures var (after, r) := v.SealSlots(p, passphrase, headerSalt, draw);
            var created := CreateSlot(p, v.master, passphrase, 64, 3, draw);
            && (created.Ok? ==>
                  && r == Ok(()) && after == v.(table := after.table) && after.table.Some?
                  && IsFirstTable(p, after.table.value, v.master, headerSalt, created.value))
            && (!created.Ok? ==> created.Err? && r == Err(created.error) && after == v)
  {
    InitialOutcome(p, v.master, passphrase, headerSalt, draw);
  }

  /** Adding to a vault without a table seals one and answers 0. With a table it is refused as full
      exactly at sixteen slots, and below that the slot is appended exactly if it can be created. */
  lemma AddSlotOutcome(p: Primitives, v: Vault, passphrase: Bytes, headerSalt: Key, draw: SlotDraw)
    ensures var (after, r) := v.AddSlot(p, passphrase, headerSalt, draw);
            var created := CreateSlot(p, v.master, passphrase, 64, 3, draw);
            && (v.table.None? && created.Ok? ==>
                  && r == Ok(0) && after == v.(table := after.table) && after.table.Some?
                  && IsFirstTable(p, after.table.value, v.master, headerSalt, created.value))
            && (v.table.Some? && created.Ok? && |v.table.value.slots| < 16 ==>
                  var t := v.table.value;
                  && r == Ok(|t.slots|)
                  && after == v.(table := Some(t.(slots := t.slots + [created.value]))))
            && (r == Err(SlotTableFull(16)) <==> v.table.Some? && |v.table.value.slots| >= 16)
            && (!created.Ok? && !(v.table.Some? && |v.table.value.slots| >= 16) ==>
                  created.Err? && r == Err(created.error))
            && (!r.Ok? ==> after == v)
  {
    CreateOutcome(p, v.master, passphrase, 64, 3, draw);
    SealSlotsOutcome(p, v, passphrase, headerSalt, draw);
    if v.table.Some? {
      TableLaws.AddOutcome(p, v.table.value, v.master, passphrase, draw);
    }
  }

  /** Revoking in a vault, answer by answer; only a slot that is enabled, and not alone in that, is
      wiped, and nothing else in the vault ever changes. */
  lemma RevokeSlotOutcome(v: Vault, idx: nat)
    ensures var (after, r) := v.RevokeSlot(idx);
            var slots := if v.table.Some? then v.table.value.slots else [];
            var enabled := idx < |slots| && slots[idx].IsEnabled();
            && (r == Ok(()) <==> idx < |slots| && (enabled ==> EnabledCount(slots) > 1))
            && (r == Err(SlotUnseal) <==> v.table.Some? && idx >= |slots|)
            && (r == Err(LastSlotRevocation) <==> v.table.None? || (enabled && EnabledCount(slots) == 1))
            && (!(r.Ok? && enabled) ==> after == v)
            && (r.Ok? && enabled ==>
                  && after.table.Some? && OnlyWiped(slots, after.table.value.slots, idx)
                  && after == v.(table := Some(v.table.value.(slots := after.table.value.slots))))
  {
    if v.table.Some? {
      RevokeOutcome(v.table.value, idx);
    }
  }

  lemma AfterIsConsistent(p: Primitives, v: Vault, op: VaultOp)
    requires Consistent(p, v)
    ensures Consistent(p, v.After(p, op))
  {
    match op
    case Seal(passphrase, headerSalt, draw) =>
    case Add(passphrase, headerSalt, draw) =>
    case Revoke(idx) =>
    case Rotate(m) => DerivedIsConsistent(p, m, None);
    case Open(bytes, headerSalt, passphrase) => OpenIsAtomic(p, v, v, bytes, headerSalt, passphrase);
  }

  lemma AfterOneMore(p: Primitives, v: Vault, ops: seq<VaultOp>, op: VaultOp)
    ensures AfterAll(p, v, ops + [op]) == AfterAll(p, v, ops).After(p, op)
  {
    assert (ops + [op])[..|ops|] == ops;
  }

  /** Every operation of a sequence takes effect, on the vault that those before it left. */
  lemma OperationsTakeEffect(p: Primitives, v: Vault, ops: seq<VaultOp>, passphrase: Bytes, headerSalt: Key,
                             draw: SlotDraw, idx: nat, newMaster: Key, bytes: Bytes)
    ensures var u := AfterAll(p, v, ops);
            && AfterAll(p, v, ops + [Seal(passphrase, headerSalt, draw)]) ==
               u.SealSlots(p, passphrase, headerSalt, draw).0
            && AfterAll(p, v, ops + [Add(passphrase, headerSalt, draw)]) ==
               u.AddSlot(p, passphrase, headerSalt, draw).0
            && AfterAll(p, v, ops + [Revoke(idx)]) == u.RevokeSlot(idx).0
            && AfterAll(p, v, ops + [Rotate(newMaster)]) == Vault(newMaster, HierarchyOf(p, newMaster), None)
            && AfterAll(p, v, ops + [Open(bytes, headerSalt, passphrase)]) ==
               u.OpenFromSlots(p, bytes, headerSalt, passphrase).0
  {
    AfterOneMore(p, v, ops, Seal(passphrase, headerSalt, draw));
    AfterOneMore(p, v, ops, Add(passphrase, headerSalt, draw));
    AfterOneMore(p, v, ops, Revoke(idx));
    AfterOneMore(p, v, ops, Rotate(newMaster));
    AfterOneMore(p, v, ops, Open(bytes, headerSalt, passphrase));
    DomainKeysAreDerived(p, newMaster, Enc);
  }

  /** After every sequence of public operations on any inputs, successful or failing: all six domain
      keys derive from the live master, and the volume verifies exactly when a table is present. */
  lemma {:induction false} VaultStaysConsistent(p: Primitives, v: Vault, ops: seq<VaultOp>)
    requires Consistent(p, v)
    ensures Consistent(p, AfterAll(p, v, ops))
    ensures AfterAll(p, v, ops).VerifyVolume(p) <==> AfterAll(p, v, ops).table.Some?
  {
    if ops == [] {
    } else {
      VaultStaysConsistent(p, v, ops[..|ops| - 1]);
      AfterIsConsistent(p, AfterAll(p, v, ops[..|ops| - 1]), ops[|ops| - 1]);
    }
  }

  /** Both ways to make a vault give a consistent one; deriving from a raw master always succeeds. */
  lemma NewVaultIsConsistent(p: Primitives, master: Key, passphrase: Bytes, salt: Bytes, memoryKib: u32,
                             iterations: u32)
    ensures FromMasterKey(p, master).Ok? && Consistent(p, FromMasterKey(p, master).value)
    ensures FromMasterKey(p, master).value.master == master && FromMasterKey(p, master).value.table == None
    ensures Unlock(p, passphrase, salt, memoryKib, iterations).Ok? <==>
            p.argon2id(passphrase, salt, memoryKib, iterations).Some?
    ensures var r := Unlock(p, passphrase, salt, memoryKib, iterations); !r.Ok? ==> r == Err(AegisError.Argon2)
    ensures var r := Unlock(p, passphrase, salt, memoryKib, iterations);
            r.Ok? ==>
              && Consistent(p, r.value) && r.value.table.None?
              && Some(r.value.master) == p.argon2id(passphrase, salt, memoryKib, iterations)
  {
    DerivedIsConsistent(p, master, None);
    if p.argon2id(passphrase, salt, memoryKib, iterations).Some? {
      DerivedIsConsistent(p, p.argon2id(passphrase, salt, memoryKib, iterations).value, None);
    }
  }

  /** Rotation never panics; it keeps no table. */
  lemma RotationSucceeds(p: Primitives, v: Vault, m: Key)
    ensures v.RotateMaster(p, m).1 == Ok(())
    ensures v.RotateMaster(p, m).0.master == m && v.RotateMaster(p, m).0.table == None
  {
    DomainKeysAreDerived(p, m, Enc);
  }

  /** Encryption and decryption are the cipher's under the key that the live master derives for the
      named domain: a plaintext comes back exactly when it seals, with this nonce of the cipher's own
      length and this associated data, to this ciphertext. */
  lemma UsesDerivedDomainKey(p: Primitives, v: Vault, d: Domain, plaintext: Bytes, ciphertext: Bytes, aad: Bytes,
                             algo: AeadAlgo, nonce: Bytes)
    requires Consistent(p, v)
    ensures var key := p.hkdf(v.master, MASTER_SALT, d.InfoTag(), 32);
            && key.Some? && |key.value| == 32
            && var sealed := p.seal(algo, key.value, nonce, plaintext, aad);
               var r := v.Decrypt(p, d, nonce, ciphertext, aad, algo);
               var fits := |nonce| == if algo == Aes256Gcm then 12 else 24;
               && (r == Ok(plaintext) <==> fits && sealed == Some(ciphertext))
               && (r.Ok? || r == Err(AegisError.AeadOpen))
               && (fits ==> v.Encrypt(p, d, plaintext, aad, algo, nonce) ==
                            if sealed.Some? then Ok((nonce, sealed.value)) else Err(AegisError.AeadSeal))
  {
    assert Some(v.hierarchy.DomainKey(d)) == p.hkdf(v.master, MASTER_SALT, d.InfoTag(), 32);
    SealOpenInverse(p, algo, v.hierarchy.DomainKey(d), nonce, plaintext, ciphertext, aad);
  }

  /** The check tells a swapped master: next to the table of another, a master verifies exactly if the
      two have the same keyed hash under the published key. */
  lemma VerifyDetectsSwap(p: Primitives, v: Vault, m: Key)
    requires Consistent(p, v) && v.table.Some?
    ensures var key := Ascii("soteria-aegis-volume-verifier-v1");
            v.(master := m).VerifyVolume(p) <==> p.keyedHash(key, m) == p.keyedHash(key, v.master)
  {
  }

  /** What a vault encrypted, every consistent vault with the same master decrypts, for every
      domain and algorithm. */
  lemma DecryptsUnderSameMaster(p: Primitives, v: Vault, w: Vault, d: Domain, plaintext: Bytes, aad: Bytes,
                                algo: AeadAlgo, nonce: Bytes)
    requires Consistent(p, v) && Consistent(p, w) && v.master == w.master
    requires |nonce| == NonceLen(algo) && v.Encrypt(p, d, plaintext, aad, algo, nonce).Ok?
    ensures var (n, ct) := v.Encrypt(p, d, plaintext, aad, algo, nonce).value;
            w.Decrypt(p, d, n, ct, aad, algo) == Ok(plaintext)
  {
    ConsistentHierarchy(p, v);
    ConsistentHierarchy(p, w);
    var ct := v.Encrypt(p, d, plaintext, aad, algo, nonce).value.1;
    SealOpenInverse(p, algo, v.hierarchy.DomainKey(d), nonce, plaintext, ct, aad);
  }

  /** Decryption answers with a plaintext exactly when encrypting it in any consistent vault with the
      same master, with this nonce, gives this ciphertext. */
  lemma DecryptsWhatEncrypts(p: Primitives, v: Vault, w: Vault, d: Domain, nonce: Bytes, ciphertext: Bytes,
                             aad: Bytes, algo: AeadAlgo, plaintext: Bytes)
    requires Consistent(p, v) && Consistent(p, w) && v.master == w.master
    requires |nonce| == NonceLen(algo)
    ensures v.Decrypt(p, d, nonce, ciphertext, aad, algo) == Ok(plaintext) <==>
            w.Encrypt(p, d, plaintext, aad, algo, nonce) == Ok((nonce, ciphertext))
  {
    ConsistentHierarchy(p, v);
    ConsistentHierarchy(p, w);
    SealOpenInverse(p, algo, v.hierarchy.DomainKey(d), nonce, plaintext, ciphertext, aad);
  }
}
