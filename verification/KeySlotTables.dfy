/** The key-slot table as the object that the vault owns: every method against the value model. */
module KeySlotTables {
  import opened Outcomes
  import opened ByteStrings
  import opened Crypto
  import opened SlotModel
  import opened SlotCodec
  import TableLaws

  class KeySlotTable {
    const headerSalt: Key
    var slots: seq<KeySlot>
    const verifier: Key

    /** The table as a value. */
    function View(): Table
      reads this
    {
      Table(headerSalt, slots, verifier)
    }

    constructor (t: Table)
      ensures View() == t
    {
      headerSalt, slots, verifier := t.headerSalt, t.slots, t.verifier;
    }

    /** `new_initial` */
    static method Initial(p: Primitives, master: Key, passphrase: Bytes, headerSalt: Key, draw: SlotDraw)
      returns (r: Result<KeySlotTable>)
      ensures var spec := NewInitial(p, master, passphrase, headerSalt, draw);
              if spec.Ok? then r.Ok? && fresh(r.value) && r.value.View() == spec.value
              else r == spec.PropagateFailure()
    {
      var slot :- CreateSlot(p, master, passphrase, SLOT_M_COST, SLOT_T_COST, draw);
      var table := new KeySlotTable(Table(headerSalt, [slot], VolumeVerifier(p, master)));
      return Ok(table);
    }

    /** `add_slot` */
    method AddSlot(p: Primitives, master: Key, passphrase: Bytes, draw: SlotDraw) returns (r: Result<nat>)
      modifies this
      ensures (View(), r) == old(View()).AddSlot(p, master, passphrase, draw)
    {
      if |slots| >= MAX_SLOTS {
        return Err(SlotTableFull(MAX_SLOTS));
      }
      var slot :- CreateSlot(p, master, passphrase, SLOT_M_COST, SLOT_T_COST, draw);
      slots := slots + [slot];
      return Ok(|slots| - 1);
    }

    /** `enabled_count` */
    function CountEnabled(): (n: nat)
      reads this
      ensures n == |set i: nat | i < |slots| && slots[i].IsEnabled()|
    {
      TableLaws.EnabledCountIsCardinality(slots);
      EnabledCount(slots)
    }

    /** `revoke_slot` */
    method RevokeSlot(idx: nat) returns (r: Result<()>)
      modifies this
      ensures (View(), r) == old(View()).RevokeSlot(idx)
    {
      if idx >= |slots| {
        return Err(SlotUnseal);
      }
      if !slots[idx].IsEnabled() {
        return Ok(());
      }
      if CountEnabled() <= 1 {
        return Err(LastSlotRevocation);
      }
      slots := slots[idx := slots[idx].(flags := slots[idx].flags & 0xFE)];
      slots := slots[idx := slots[idx].(ct := Zeros(CT_LEN))];
      assert slots == old(slots)[idx := old(slots)[idx].Wiped()];
      return Ok(());
    }

    /** `unseal_with`: the least enabled index that opens, and its master. */
    method UnsealWith(p: Primitives, passphrase: Bytes) returns (r: Result<(nat, Key)>)
      ensures r == View().UnsealWith(p, passphrase)
    {
      for i := 0 to |slots|
        invariant Search(p, slots, passphrase, {}, 0) == Search(p, slots, passphrase, {}, i)
      {
        if !slots[i].IsEnabled() {
          continue;
        }
        var m := slots[i].Unseal(p, passphrase);
        if m.Ok? {
          return Ok((i, m.value));
        }
      }
      return Err(NoSlotUnsealed);
    }

    /** `to_bytes` */
    method ToBytes(p: Primitives) returns (out: Bytes)
      ensures out == Printed(p, View())
    {
      var body: Bytes := HEADER_MAGIC;
      body := body + [HEADER_VERSION];
      body := body + [CountByte(|slots|)];
      assert body == Prefix(|slots|);
      for i := 0 to |slots|
        invariant body == Prefix(|slots|) + EncodeSlots(slots[..i])
      {
        var s := slots[i];
        ghost var before := body;
        body := body + s.slotId;
        body := body + [s.kdfId];
        body := body + U32ToLe(s.mCost);
        body := body + U32ToLe(s.tCost);
        body := body + s.salt;
        body := body + s.nonce;
        body := body + s.ct;
        body := body + [s.flags];
        body := body + U64ToLe(s.createdAt);
        AppendedFields(before, s);
        Regroup(Prefix(|slots|), EncodeSlots(slots[..i]), EncodeSlot(s));
        assert slots[..i + 1][..i] == slots[..i];
      }
      assert slots[..|slots|] == slots;
      body := body + verifier;
      var mac := p.keyedHash(headerSalt, body);
      out := body;
      out := out + mac;
    }

    /** `from_bytes` */
    static method FromBytes(p: Primitives, data: Bytes, headerSalt: Key) returns (r: Result<KeySlotTable>)
      ensures var spec := Parsed(p, data, headerSalt);
              if spec.Ok? then r.Ok? && fresh(r.value) && r.value.View() == spec.value
              else r == spec.PropagateFailure()
    {
      var t :- ParseTable(p, data, headerSalt);
      var table := new KeySlotTable(t);
      return Ok(table);
    }
  }
}
