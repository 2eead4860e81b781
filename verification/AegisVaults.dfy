/** The live vault as an object that updates its master, hierarchy and slot table in place. */
module AegisVaults {
  import opened Outcomes
  import opened ByteStrings
  import opened Crypto
  import opened Hierarchy
  import opened SlotModel
  import opened SlotCodec
  import opened KeySlotTables
  import opened VaultModel

  class AegisVault {
    const crypto: Primitives
    var master: Key
    var hierarchy: KeyHierarchy
    var slots: KeySlotTable?

    /** The vault as a value. */
    function View(): Vault
      reads this, slots
    {
      Vault(master, hierarchy, if slots == null then None else Some(slots.View()))
    }

    /** The objects the vault owns. */
    ghost function Repr(): set<object>
      reads this
    {
      if slots == null then {this} else {this, slots}
    }

    ghost predicate Valid()
      reads this, slots
    {
      Consistent(crypto, View())
    }

    constructor (p: Primitives, v: Vault)
      requires v.table == None
      ensures crypto == p && View() == v && fresh(Repr())
    {
      crypto, master, hierarchy, slots := p, v.master, v.hierarchy, null;
    }

    /** `from_master_key`, whose derivation cannot fail. */
    static method OfMasterKey(p: Primitives, master: Key) returns (vault: AegisVault)
      ensures fresh(vault.Repr()) && vault.crypto == p && vault.Valid()
      ensures FromMasterKey(p, master) == Ok(vault.View())
    {
      NewVaultIsConsistent(p, master, [], [], 0, 0);
      vault := new AegisVault(p, FromMasterKey(p, master).value);
    }

    /** `unlock` */
    static method Unlocked(p: Primitives, passphrase: Bytes, salt: Bytes, memoryKib: u32, iterations: u32)
      returns (r: Result<AegisVault>)
      ensures var spec := Unlock(p, passphrase, salt, memoryKib, iterations);
              if spec.Ok? then
                && r.Ok? && fresh(r.value.Repr()) && r.value.crypto == p && r.value.Valid()
                && r.value.View() == spec.value
              else r == spec.PropagateFailure()
    {
      match p.argon2id(passphrase, salt, memoryKib, iterations)
      case None => r := Err(AegisError.Argon2);
      case Some(raw) =>
        var vault := OfMasterKey(p, raw);
        r := Ok(vault);
    }

    /** `seal_slots` */
    method SealSlots(passphrase: Bytes, headerSalt: Key, draw: SlotDraw) returns (r: Result<()>)
      requires Valid()
      modifies Repr()
      ensures Valid() && fresh(Repr() - old(Repr()))
      ensures (View(), r) == old(View()).SealSlots(crypto, passphrase, headerSalt, draw)
    {
      var table :- KeySlotTable.Initial(crypto, master, passphrase, headerSalt, draw);
      slots := table;
      return Ok(());
    }

    /** `add_slot` */
    method AddSlot(passphrase: Bytes, headerSalt: Key, draw: SlotDraw) returns (r: Result<nat>)
      requires Valid()
      modifies Repr()
      ensures Valid() && fresh(Repr() - old(Repr()))
      ensures (View(), r) == old(View()).AddSlot(crypto, passphrase, headerSalt, draw)
    {
      if slots != null {
        r := slots.AddSlot(crypto, master, passphrase, draw);
      } else {
        var sealResult :- SealSlots(passphrase, headerSalt, draw);
        r := Ok(0);
      }
    }

    /** `revoke_slot` */
    method RevokeSlot(idx: nat) returns (r: Result<()>)
      requires Valid()
      modifies Repr()
      ensures Valid() && Repr() == old(Repr())
      ensures (View(), r) == old(View()).RevokeSlot(idx)
    {
      if slots != null {
        r := slots.RevokeSlot(idx);
      } else {
        r := Err(LastSlotRevocation);
      }
    }

    /** `open_from_slots`: the fields are replaced one by one once the verifier has matched. */
    method OpenFromSlots(tableBytes: Bytes, headerSalt: Key, passphrase: Bytes) returns (r: Result<()>)
      requires Valid()
      modifies this
      ensures Valid() && fresh(Repr() - old(Repr()))
      ensures (View(), r) == old(View()).OpenFromSlots(crypto, tableBytes, headerSalt, passphrase)
      ensures !r.Ok? ==> View() == old(View())
    {
      OpenIsAtomic(crypto, View(), View(), tableBytes, headerSalt, passphrase);
      var table :- KeySlotTable.FromBytes(crypto, tableBytes, headerSalt);
      var found :- table.UnsealWith(crypto, passphrase);
      var raw := found.1;
      var expected := VolumeVerifier(crypto, raw);
      if expected != table.verifier {
        return Err(VolumeMismatch);
      }
      master := raw;
      // The error exit here is never taken: the 32-byte derivation succeeds.
      DomainKeysAreDerived(crypto, raw, Enc);
      hierarchy := FromMaster(crypto, raw).value;
      slots := table;
      return Ok(());
    }

    /** `verify_volume` */
    method VerifyVolume() returns (matches: bool)
      requires Valid()
      ensures matches <==> slots != null
      ensures matches <==> View().VerifyVolume(crypto)
    {
      if slots == null {
        return false;
      }
      var v := VolumeVerifier(crypto, master);
      return v == slots.verifier;
    }

    /** `slots_to_bytes` */
    method SlotsToBytes() returns (r: Option<Bytes>)
      ensures r == if View().table.None? then None else Some(Printed(crypto, View().table.value))
    {
      if slots == null {
        return None;
      }
      var bytes := slots.ToBytes(crypto);
      return Some(bytes);
    }

    /** `slots_header_salt` */
    function SlotsHeaderSalt(): Option<Key>
      reads this, slots
    {
      if slots == null then None else Some(slots.headerSalt)
    }

    /** `rotate_master`, with the fresh master it draws. */
    method RotateMaster(newMaster: Key)
      requires Valid()
      modifies this
      ensures Valid() && slots == null
      ensures (View(), Ok(())) == old(View()).RotateMaster(crypto, newMaster)
    {
      RotationSucceeds(crypto, View(), newMaster);
      DerivedIsConsistent(crypto, newMaster, None);
      master := newMaster;
      hierarchy := FromMaster(crypto, newMaster).value;
      slots := null;
    }

    /** `encrypt`, with the nonce it draws: every consistent vault with this master decrypts it. */
    method Encrypt(d: Domain, plaintext: Bytes, aad: Bytes, algo: AeadAlgo, nonce: Bytes)
      returns (r: Result<(Bytes, Bytes)>)
      requires Valid() && |nonce| == NonceLen(algo)
      ensures r == View().Encrypt(crypto, d, plaintext, aad, algo, nonce)
      ensures r.Ok? ==> forall w: Vault :: Consistent(crypto, w) && w.master == master ==>
                          w.Decrypt(crypto, d, r.value.0, r.value.1, aad, algo) == Ok(plaintext)
    {
      var key := hierarchy.DomainKey(d);
      r := SealBytes(crypto, algo, key, nonce, plaintext, aad);
      if r.Ok? {
        forall w: Vault | Consistent(crypto, w) && w.master == master
          ensures w.Decrypt(crypto, d, r.value.0, r.value.1, aad, algo) == Ok(plaintext)
        {
          DecryptsUnderSameMaster(crypto, View(), w, d, plaintext, aad, algo, nonce);
        }
      }
    }

    /** `decrypt`: a plaintext exactly when encrypting it with this nonce, here and in every
        consistent vault with this master, gives this ciphertext. */
    method Decrypt(d: Domain, nonce: Bytes, ciphertext: Bytes, aad: Bytes, algo: AeadAlgo) returns (r: Result<Bytes>)
      ensures r == View().Decrypt(crypto, d, nonce, ciphertext, aad, algo)
      ensures r.Ok? || r == Err(AegisError.AeadOpen)
      ensures |nonce| != NonceLen(algo) ==> !r.Ok?
      ensures Valid() && |nonce| == NonceLen(algo) ==>
                forall w: Vault, plaintext :: Consistent(crypto, w) && w.master == master ==>
                  (r == Ok(plaintext) <==> w.Encrypt(crypto, d, plaintext, aad, algo, nonce) == Ok((nonce, ciphertext)))
    {
      var key := hierarchy.DomainKey(d);
      r := OpenBytes(crypto, algo, key, nonce, ciphertext, aad);
      if Consistent(crypto, View()) && |nonce| == NonceLen(algo) {
        forall w: Vault, plaintext | Consistent(crypto, w) && w.master == master
          ensures r == Ok(plaintext) <==> w.Encrypt(crypto, d, plaintext, aad, algo, nonce) == Ok((nonce, ciphertext))
        {
          DecryptsWhatEncrypts(crypto, View(), w, d, nonce, ciphertext, aad, algo, plaintext);
        }
      }
    }
  }
}
