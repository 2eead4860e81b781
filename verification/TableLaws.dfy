/** Laws of one table operation: the search, the enabled count, adding and revoking. */
module TableLaws {
  import opened Outcomes
  import opened ByteStrings
  import opened Crypto
  import opened SlotModel

  // The search.

  /** The search answers with the least index that is not skipped and opens, and with that
      slot's master; it fails exactly when there is none. */
  lemma {:induction false} SearchFindsLeast(p: Primitives, slots: seq<KeySlot>, passphrase: Bytes, skip: set<nat>,
                                            from: nat)
    requires from <= |slots|
    ensures var r := Search(p, slots, passphrase, skip, from);
            && (r.Ok? <==> exists i :: from <= i < |slots| && i !in skip && slots[i].Opens(p, passphrase))
            && (r.Ok? ==>
                  var (i, master) := r.value;
                  && from <= i < |slots| && i !in skip && slots[i].IsEnabled()
                  && slots[i].Unseal(p, passphrase) == Ok(master)
                  && forall j :: from <= j < i && j !in skip ==> !slots[j].Opens(p, passphrase))
            && (!r.Ok? ==> r == Err(NoSlotUnsealed))
    decreases |slots| - from
  {
    if from == |slots| {
    } else {
      SearchFindsLeast(p, slots, passphrase, skip, from + 1);
    }
  }

  /** Slot i is the first that the search can stop at. */
  predicate FirstToOpen(p: Primitives, slots: seq<KeySlot>, passphrase: Bytes, i: nat) {
    i < |slots| && slots[i].Opens(p, passphrase) && forall j :: 0 <= j < i ==> !slots[j].Opens(p, passphrase)
  }

  /** What the search answers, by the slot it stops at; it stops at one unless no slot opens. */
  lemma SearchStopsAtFirst(p: Primitives, slots: seq<KeySlot>, passphrase: Bytes)
    ensures var r := Search(p, slots, passphrase, {}, 0);
            && (forall i: nat :: FirstToOpen(p, slots, passphrase, i) ==>
                  r == Ok((i, slots[i].Unseal(p, passphrase).value)))
            && (r.Ok? ==> FirstToOpen(p, slots, passphrase, r.value.0))
            && (r == Err(NoSlotUnsealed) <==> forall i :: 0 <= i < |slots| ==> !slots[i].Opens(p, passphrase))
            && (r.Ok? || r == Err(NoSlotUnsealed))
  {
    var r := Search(p, slots, passphrase, {}, 0);
    SearchFindsLeast(p, slots, passphrase, {}, 0);
    forall i: nat | FirstToOpen(p, slots, passphrase, i)
      ensures r == Ok((i, slots[i].Unseal(p, passphrase).value))
    {
      assert i !in {} && slots[i].Opens(p, passphrase);
      var (j, master) := r.value;
      assert j >= i by {
        assert slots[j].Opens(p, passphrase);
      }
      assert i >= j;
    }
  }

  /** Any slot that opens makes the whole search succeed. */
  lemma SearchSucceeds(p: Primitives, slots: seq<KeySlot>, passphrase: Bytes, i: nat)
    requires i < |slots| && slots[i].Opens(p, passphrase)
    ensures Search(p, slots, passphrase, {}, 0).Ok?
    ensures Search(p, slots, passphrase, {}, 0).value.0 <= i
  {
    SearchFindsLeast(p, slots, passphrase, {}, 0);
  }

  lemma {:induction false} SearchOfAppended(p: Primitives, slots: seq<KeySlot>, more: KeySlot, passphrase: Bytes,
                                            from: nat)
    requires from <= |slots|
    ensures Search(p, slots + [more], passphrase, {}, from) ==
            if Search(p, slots, passphrase, {}, from).Ok? then Search(p, slots, passphrase, {}, from)
            else if more.Opens(p, passphrase) then Ok((|slots|, more.Unseal(p, passphrase).value))
            else Err(NoSlotUnsealed)
    decreases |slots| - from
  {
    if from < |slots| {
      SearchOfAppended(p, slots, more, passphrase, from + 1);
    } else {
      assert Search(p, slots + [more], passphrase, {}, from + 1) == Err(NoSlotUnsealed);
    }
  }

  lemma {:induction false} SearchOfWiped(p: Primitives, slots: seq<KeySlot>, idx: nat, passphrase: Bytes, from: nat)
    requires idx < |slots| && from <= |slots|
    ensures Search(p, slots[idx := slots[idx].Wiped()], passphrase, {}, from) ==
            Search(p, slots, passphrase, {idx}, from)
    decreases |slots| - from
  {
    WipedIsDisabled(slots[idx]);
    if from == |slots| {
    } else {
      SearchOfWiped(p, slots, idx, passphrase, from + 1);
    }
  }

  lemma {:induction false} SearchSkippingDisabled(p: Primitives, slots: seq<KeySlot>, idx: nat, passphrase: Bytes,
                                                  from: nat)
    requires idx < |slots| && from <= |slots| && !slots[idx].IsEnabled()
    ensures Search(p, slots, passphrase, {}, from) == Search(p, slots, passphrase, {idx}, from)
    decreases |slots| - from
  {
    if from == |slots| {
    } else {
      SearchSkippingDisabled(p, slots, idx, passphrase, from + 1);
    }
  }

  // Adding.

  /** The table is refused as full exactly at sixteen slots or more; below that an add succeeds
      exactly when the slot can be created at the published costs, and otherwise fails as the
      creation does. It appends the slot and answers its index. A failing add changes nothing. */
  lemma AddOutcome(p: Primitives, t: Table, master: Key, passphrase: Bytes, draw: SlotDraw)
    ensures var (after, r) := t.AddSlot(p, master, passphrase, draw);
            var created := CreateSlot(p, master, passphrase, 64, 3, draw);
            && (r == Err(SlotTableFull(16)) <==> |t.slots| >= 16)
            && (r.Ok? <==> |t.slots| < 16 && created.Ok?)
            && (r.Ok? ==> after.slots == t.slots + [created.value] && r.value == |t.slots|)
            && (|t.slots| < 16 && !created.Ok? ==> created.Err? && r == Err(created.error))
            && (!r.Ok? ==> after == t)
            && after.headerSalt == t.headerSalt && after.verifier == t.verifier
  {
    CreateOutcome(p, master, passphrase, SLOT_M_COST, SLOT_T_COST, draw);
  }

  /** A successful add leaves every passphrase that opened the table with the same answer; to the
      others it adds the new slot as the last resort. The adding passphrase now opens the table. */
  lemma AddKeepsAccess(p: Primitives, t: Table, master: Key, passphrase: Bytes, draw: SlotDraw, q: Bytes)
    requires t.AddSlot(p, master, passphrase, draw).1.Ok?
    ensures var after := t.AddSlot(p, master, passphrase, draw).0;
            && |after.slots| == |t.slots| + 1 <= MAX_SLOTS
            && after.slots[..|t.slots|] == t.slots
            && t.AddSlot(p, master, passphrase, draw).1.value == |t.slots|
            && (t.UnsealWith(p, q).Ok? ==> after.UnsealWith(p, q) == t.UnsealWith(p, q))
            && (after.UnsealWith(p, q).Ok? && !t.UnsealWith(p, q).Ok? ==> after.UnsealWith(p, q).value.0 == |t.slots|)
            && after.UnsealWith(p, passphrase).Ok?
            && (!t.UnsealWith(p, passphrase).Ok? ==> after.UnsealWith(p, passphrase) == Ok((|t.slots|, master)))
  {
    AddOutcome(p, t, master, passphrase, draw);
    var slot := CreateSlot(p, master, passphrase, SLOT_M_COST, SLOT_T_COST, draw).value;
    SealingLaw(p, master, passphrase, SLOT_M_COST, SLOT_T_COST, draw);
    SearchOfAppended(p, t.slots, slot, q, 0);
    SearchOfAppended(p, t.slots, slot, passphrase, 0);
  }

  // Revoking.

  /** Every slot but the one named is as it was, and that one is wiped. */
  predicate OnlyWiped(before: seq<KeySlot>, after: seq<KeySlot>, idx: nat) {
    && |after| == |before| && idx < |before|
    && after[idx] == before[idx].Wiped()
    && forall i :: 0 <= i < |before| && i != idx ==> after[i] == before[i]
  }

  /** Revocation answers Ok exactly when the slot exists and is already disabled or is not the
      last enabled one, and changes the table exactly when it disables a slot: then that slot is
      wiped, and nothing else is. */
  lemma RevokeOutcome(t: Table, idx: nat)
    ensures var (after, r) := t.RevokeSlot(idx);
            && (r == Ok(()) <==> idx < |t.slots| && (t.slots[idx].IsEnabled() ==> EnabledCount(t.slots) > 1))
            && (r == Err(SlotUnseal) <==> idx >= |t.slots|)
            && (r == Err(LastSlotRevocation) <==>
                  idx < |t.slots| && t.slots[idx].IsEnabled() && EnabledCount(t.slots) == 1)
            && (r.Ok? ==> !after.slots[idx].IsEnabled())
            && (after != t <==> r.Ok? && t.slots[idx].IsEnabled())
            && (after != t ==> OnlyWiped(t.slots, after.slots, idx))
            && after.headerSalt == t.headerSalt && after.verifier == t.verifier
  {
    if idx < |t.slots| {
      WipedIsDisabled(t.slots[idx]);
      if t.slots[idx].IsEnabled() {
        EnabledCountPositive(t.slots, idx);
      }
    }
  }

  /** Access after a successful revocation, for every passphrase: the answer of a search that
      skips the revoked slot. It changes only for passphrases whose first match was that slot,
      and those fall through to the next slot that opens. */
  lemma RevokeAccess(p: Primitives, t: Table, idx: nat, q: Bytes)
    requires t.RevokeSlot(idx).1.Ok?
    ensures var after := t.RevokeSlot(idx).0;
            && after.UnsealWith(p, q) == Search(p, t.slots, q, {idx}, 0)
            && (after.UnsealWith(p, q) != t.UnsealWith(p, q) ==>
                  t.UnsealWith(p, q).Ok? && t.UnsealWith(p, q).value.0 == idx)
            && (after.UnsealWith(p, q).Ok? <==> exists j :: 0 <= j < |t.slots| && j != idx && t.slots[j].Opens(p, q))
            && (after.UnsealWith(p, q).Ok? ==> after.UnsealWith(p, q).value.0 != idx)
  {
    if t.slots[idx].IsEnabled() {
      SearchOfWiped(p, t.slots, idx, q, 0);
    } else {
      SearchSkippingDisabled(p, t.slots, idx, q, 0);
    }
    SearchFindsLeast(p, t.slots, q, {idx}, 0);
    SearchFindsLeast(p, t.slots, q, {}, 0);
    if t.UnsealWith(p, q).Ok? && t.UnsealWith(p, q).value.0 != idx {
      SearchUnmoved(p, t.slots, q, idx, 0);
    }
  }

  lemma {:induction false} SearchUnmoved(p: Primitives, slots: seq<KeySlot>, passphrase: Bytes, idx: nat, from: nat)
    requires from <= |slots|
    requires Search(p, slots, passphrase, {}, from).Ok? ==> Search(p, slots, passphrase, {}, from).value.0 != idx
    ensures Search(p, slots, passphrase, {}, from) == Search(p, slots, passphrase, {idx}, from)
    decreases |slots| - from
  {
    if from == |slots| || slots[from].Opens(p, passphrase) {
    } else {
      SearchUnmoved(p, slots, passphrase, idx, from + 1);
    }
  }

  /** Revoking a slot again changes nothing and is answered Ok. */
  lemma RevokeTwice(t: Table, idx: nat)
    requires t.RevokeSlot(idx).1.Ok?
    ensures t.RevokeSlot(idx).0.RevokeSlot(idx) == (t.RevokeSlot(idx).0, Ok(()))
  {
    RevokeOutcome(t, idx);
  }

  /** After a revocation answered Ok the slot's ciphertext is zero, exactly unless the slot was
      disabled beforehand around another ciphertext: such a slot is left as it is. */
  lemma RevokeWipes(t: Table, idx: nat)
    requires t.RevokeSlot(idx).1.Ok?
    ensures t.RevokeSlot(idx).0.slots[idx].ct == Zeros(CT_LEN) <==>
            t.slots[idx].IsEnabled() || t.slots[idx].ct == Zeros(CT_LEN)
  {
  }

  /** An input on which a revocation answered Ok leaves a ciphertext behind. */
  lemma RevokeLeavesCiphertext(t: Table)
    requires |t.slots| == 1 && t.slots[0].flags == 0 && t.slots[0].ct == seq(48, _ => 1)
    ensures t.RevokeSlot(0) == (t, Ok(()))
    ensures t.RevokeSlot(0).0.slots[0].ct != Zeros(CT_LEN)
  {
    assert t.slots[0].ct[0] != Zeros(CT_LEN)[0];
  }

  // The enabled count.

  lemma {:induction false} EnabledCountPositive(slots: seq<KeySlot>, i: nat)
    requires i < |slots| && slots[i].IsEnabled()
    ensures EnabledCount(slots) >= 1
  {
    if i == |slots| - 1 {
    } else {
      EnabledCountPositive(slots[..|slots| - 1], i);
    }
  }

  lemma {:induction false} SomeEnabled(slots: seq<KeySlot>) returns (i: nat)
    requires EnabledCount(slots) >= 1
    ensures i < |slots| && slots[i].IsEnabled()
  {
    if slots[|slots| - 1].IsEnabled() {
      i := |slots| - 1;
    } else {
      i := SomeEnabled(slots[..|slots| - 1]);
    }
  }

  /** The count is the number of enabled indices. */
  lemma {:induction false} EnabledCountIsCardinality(slots: seq<KeySlot>)
    ensures EnabledCount(slots) == |set i: nat | i < |slots| && slots[i].IsEnabled()|
  {
    var all := set i: nat | i < |slots| && slots[i].IsEnabled();
    if slots == [] {
      assert all == {};
    } else {
      var n := |slots| - 1;
      EnabledCountIsCardinality(slots[..n]);
      var front := set i: nat | i < n && slots[..n][i].IsEnabled();
      assert all == if slots[n].IsEnabled() then front + {n} else front;
    }
  }

  lemma {:induction false} EnabledCountUpdated(slots: seq<KeySlot>, i: nat, s: KeySlot)
    requires i < |slots|
    ensures EnabledCount(slots[i := s]) ==
            EnabledCount(slots) - (if slots[i].IsEnabled() then 1 else 0) + (if s.IsEnabled() then 1 else 0)
  {
    var n := |slots| - 1;
    var front := slots[..n];
    if i < n {
      EnabledCountUpdated(front, i, s);
      assert slots[i := s][..n] == front[i := s];
    } else {
      assert slots[i := s][..n] == front;
    }
  }

  lemma EnabledCountAppended(slots: seq<KeySlot>, s: KeySlot)
    ensures EnabledCount(slots + [s]) == EnabledCount(slots) + if s.IsEnabled() then 1 else 0
  {
    assert (slots + [s])[..|slots|] == slots;
  }
}
