/** Key slots and key-slot tables as values: the operations of src/slots.rs as functions. */
module SlotModel {
  import opened Outcomes
  import opened ByteStrings
  import opened Crypto

  /** "SOTK" */
  const HEADER_MAGIC: Bytes := [0x53, 0x4F, 0x54, 0x4B]
  const HEADER_VERSION: byte := 1
  const KDF_ID_ARGON2ID: byte := 1
  const MAX_SLOTS: nat := 16
  const CT_LEN: nat := 48
  const ENABLED: byte := 0x01
  const SLOT_M_COST: u32 := 64
  const SLOT_T_COST: u32 := 3
  const VERIFIER_KEY: Key := Ascii("soteria-aegis-volume-verifier-v1")

  /** The random and clock values one slot creation draws. */
  datatype SlotDraw = SlotDraw(salt: Bytes16, nonce: Bytes12, slotId: Bytes16, createdAt: u64)

  datatype KeySlot = KeySlot(
    slotId: Bytes16,
    kdfId: byte,
    mCost: u32,
    tCost: u32,
    salt: Bytes16,
    nonce: Bytes12,
    ct: Bytes48,
    flags: byte,
    createdAt: u64)
  {
    predicate IsEnabled() {
      flags & ENABLED != 0
    }

    /** The slot as revocation leaves it: bit 0 of the flags cleared, the ciphertext zeroed. */
    function Wiped(): KeySlot {
      this.(flags := flags & 0xFE, ct := Zeros(CT_LEN))
    }

    /** `unseal` */
    function Unseal(p: Primitives, passphrase: Bytes): Result<Key> {
      match p.argon2id(passphrase, salt, mCost, tCost)
      case None => Err(Argon2)
      case Some(slotKey) =>
        match OpenBytes(p, Aes256Gcm, slotKey, nonce, ct, HEADER_MAGIC)
        case Ok(master) => if |master| != 32 then Err(SlotUnseal) else Ok(master)
        case _ => Err(SlotUnseal)
    }

    /** The search for a passphrase stops at this slot. */
    predicate Opens(p: Primitives, passphrase: Bytes) {
      IsEnabled() && Unseal(p, passphrase).Ok?
    }
  }

  /** Wiping clears the enabled bit, which is the lowest, and no other; it zeroes the ciphertext, keeps
      every other field, and does no more the second time. */
  lemma WipedIsDisabled(s: KeySlot)
    ensures s.IsEnabled() <==> s.flags & 1 == 1
    ensures !s.Wiped().IsEnabled()
    ensures s.Wiped().flags | (s.flags & 1) == s.flags
    ensures s.Wiped().ct == Zeros(CT_LEN) && forall i :: 0 <= i < 48 ==> s.Wiped().ct[i] == 0
    ensures s.Wiped().(flags := s.flags, ct := s.ct) == s
    ensures s.Wiped().Wiped() == s.Wiped()
  {
  }

  /** `KeySlot::create` */
  function CreateSlot(p: Primitives, master: Key, passphrase: Bytes, mCost: u32, tCost: u32, draw: SlotDraw)
    : Result<KeySlot>
  {
    match p.argon2id(passphrase, draw.salt, mCost, tCost)
    case None => Err(Argon2)
    case Some(slotKey) =>
      var (nonce, ct) :- SealBytes(p, Aes256Gcm, slotKey, draw.nonce, master, HEADER_MAGIC);
      Ok(KeySlot(draw.slotId, KDF_ID_ARGON2ID, mCost, tCost, draw.salt, draw.nonce, ct, ENABLED, draw.createdAt))
  }

  /** A created slot is enabled and gives its master back to its creating passphrase, for every
      master, passphrase, draw and pair of costs that Argon2id and the cipher accept. */
  lemma SealingLaw(p: Primitives, master: Key, passphrase: Bytes, mCost: u32, tCost: u32, draw: SlotDraw)
    requires CreateSlot(p, master, passphrase, mCost, tCost, draw).Ok?
    ensures var slot := CreateSlot(p, master, passphrase, mCost, tCost, draw).value;
            slot.Opens(p, passphrase) && slot.Unseal(p, passphrase) == Ok(master)
  {
    var slotKey := p.argon2id(passphrase, draw.salt, mCost, tCost).value;
    var slot := CreateSlot(p, master, passphrase, mCost, tCost, draw).value;
    SealOpenInverse(p, Aes256Gcm, slotKey, draw.nonce, master, slot.ct, HEADER_MAGIC);
    assert slot.flags & ENABLED != 0;
  }

  /** Creation succeeds exactly when Argon2id and the cipher accept their inputs, and records each
      draw and cost in its own field. */
  lemma CreateOutcome(p: Primitives, master: Key, passphrase: Bytes, mCost: u32, tCost: u32, draw: SlotDraw)
    ensures var r := CreateSlot(p, master, passphrase, mCost, tCost, draw);
            var slotKey := p.argon2id(passphrase, draw.salt, mCost, tCost);
            && (r == Err(Argon2) <==> slotKey.None?)
            && (r == Err(AegisError.AeadSeal) <==>
                  slotKey.Some? && p.seal(Aes256Gcm, slotKey.value, draw.nonce, master, [0x53, 0x4F, 0x54, 0x4B]).None?)
            && (!r.Ok? ==> r == Err(Argon2) || r == Err(AegisError.AeadSeal))
            && (r.Ok? ==>
                  var s := r.value;
                  && s.slotId == draw.slotId && s.salt == draw.salt && s.nonce == draw.nonce
                  && s.createdAt == draw.createdAt
                  && s.kdfId == 1 && s.mCost == mCost && s.tCost == tCost && s.flags == 1 && s.IsEnabled()
                  && Some(s.ct) == p.seal(Aes256Gcm, slotKey.value, draw.nonce, master, [0x53, 0x4F, 0x54, 0x4B]))
  {
    assert ENABLED & ENABLED != 0;
  }

  /** A slot, from wherever it was read, unseals to a master exactly when its ciphertext is what
      sealing that master under the passphrase's key gives. */
  lemma UnsealExactly(p: Primitives, s: KeySlot, passphrase: Bytes, master: Key)
    ensures var slotKey := p.argon2id(passphrase, s.salt, s.mCost, s.tCost);
            && (s.Unseal(p, passphrase) == Ok(master) <==>
                  && slotKey.Some?
                  && p.seal(Aes256Gcm, slotKey.value, s.nonce, master, [0x53, 0x4F, 0x54, 0x4B]) == Some(s.ct))
            && (s.Unseal(p, passphrase) == Err(Argon2) <==> slotKey.None?)
            && (!s.Unseal(p, passphrase).Ok? && slotKey.Some? ==> s.Unseal(p, passphrase) == Err(SlotUnseal))
  {
    var slotKey := p.argon2id(passphrase, s.salt, s.mCost, s.tCost);
    if slotKey.Some? {
      SealOpenInverse(p, Aes256Gcm, slotKey.value, s.nonce, master, s.ct, HEADER_MAGIC);
    }
  }

  /** `volume_verifier` */
  function VolumeVerifier(p: Primitives, master: Key): Key {
    p.keyedHash(VERIFIER_KEY, master)
  }

  /** The number of enabled slots. */
  function EnabledCount(slots: seq<KeySlot>): (n: nat)
    ensures n <= |slots|
  {
    if slots == [] then 0
    else EnabledCount(slots[..|slots| - 1]) + if slots[|slots| - 1].IsEnabled() then 1 else 0
  }

  /** The first slot at or after `from`, other than those in `skip`, that opens. */
  function Search(p: Primitives, slots: seq<KeySlot>, passphrase: Bytes, skip: set<nat>, from: nat)
    : (r: Result<(nat, Key)>)
    requires from <= |slots|
    decreases |slots| - from
  {
    if from == |slots| then Err(NoSlotUnsealed)
    else if from !in skip && slots[from].Opens(p, passphrase) then
      Ok((from, slots[from].Unseal(p, passphrase).value))
    else Search(p, slots, passphrase, skip, from + 1)
  }

  datatype Table = Table(headerSalt: Key, slots: seq<KeySlot>, verifier: Key)
  {
    /** `add_slot`: the table after the call, and the call's result. */
    function AddSlot(p: Primitives, master: Key, passphrase: Bytes, draw: SlotDraw): (Table, Result<nat>) {
      if |slots| >= MAX_SLOTS then (this, Err(SlotTableFull(MAX_SLOTS)))
      else
        match CreateSlot(p, master, passphrase, SLOT_M_COST, SLOT_T_COST, draw)
        case Ok(slot) => (this.(slots := slots + [slot]), Ok(|slots|))
        case Err(e) => (this, Err(e))
        case Panic => (this, Panic)
    }

    /** `revoke_slot` */
    function RevokeSlot(idx: nat): (Table, Result<()>) {
      if idx >= |slots| then (this, Err(SlotUnseal))
      else if !slots[idx].IsEnabled() then (this, Ok(()))
      else if EnabledCount(slots) <= 1 then (this, Err(LastSlotRevocation))
      else (this.(slots := slots[idx := slots[idx].Wiped()]), Ok(()))
    }

    /** `unseal_with` */
    function UnsealWith(p: Primitives, passphrase: Bytes): Result<(nat, Key)> {
      Search(p, slots, passphrase, {}, 0)
    }
  }

  /** `new_initial` */
  function NewInitial(p: Primitives, master: Key, passphrase: Bytes, headerSalt: Key, draw: SlotDraw): Result<Table> {
    var slot :- CreateSlot(p, master, passphrase, SLOT_M_COST, SLOT_T_COST, draw);
    Ok(Table(headerSalt, [slot], VolumeVerifier(p, master)))
  }

  /** `t` is the table of one slot under this salt, with the keyed hash of the master. */
  predicate IsFirstTable(p: Primitives, t: Table, master: Key, headerSalt: Key, slot: KeySlot) {
    && t.headerSalt == headerSalt && t.slots == [slot]
    && t.verifier == p.keyedHash(Ascii("soteria-aegis-volume-verifier-v1"), master)
  }

  /** The first table exists exactly if its slot can be created, at the published costs. */
  lemma InitialOutcome(p: Primitives, master: Key, passphrase: Bytes, headerSalt: Key, draw: SlotDraw)
    ensures var r := NewInitial(p, master, passphrase, headerSalt, draw);
            var created := CreateSlot(p, master, passphrase, 64, 3, draw);
            if created.Ok? then r.Ok? && IsFirstTable(p, r.value, master, headerSalt, created.value)
            else created.Err? && r == Err(created.error)
  {
    CreateOutcome(p, master, passphrase, 64, 3, draw);
  }
}
