/** Revocation across all layers: a slot revoked in a vault stays revoked in the vault and in every
    file saved from it, through adds, saves and reopenings of those files. */
module RevocationRuns {
  import opened Outcomes
  import opened ByteStrings
  import opened Crypto
  import opened SlotModel
  import opened TableLaws
  import opened TableRuns
  import opened VaultModel
  import opened AegisCli
  import opened WholeRuns

  /** The paths that hold what was saved from vault v, after one more event. */
  function OwnAfter(own: set<Path>, e: Event, v: nat): set<Path> {
    if !e.Save? then own else if e.v == v then own + {e.path} else own - {e.path}
  }

  /** The paths that hold what was saved from vault v by these events, and no other vault since. */
  function SavedFrom(events: seq<Event>, v: nat): set<Path> {
    if events == [] then {}
    else OwnAfter(SavedFrom(events[..|events| - 1], v), events[|events| - 1], v)
  }

  /** The event does not give vault v another table: it is not sealed anew or rotated, and is reopened
      only from files in this set. */
  predicate KeepsTable(e: Event, v: nat, own: set<Path>) {
    && (e.SealVault? || e.RotateVault? ==> e.v != v)
    && (e.Reopen? && e.v == v ==> e.path in own)
  }

  /** Vault v is never given another table than its own, reopened from files saved meanwhile. */
  predicate AllKeepTable(events: seq<Event>, v: nat) {
    forall i :: 0 <= i < |events| ==> KeepsTable(events[i], v, SavedFrom(events[..i], v))
  }

  /** The vault's table holds this slot at this index. */
  predicate Holds(tv: TracedVault, idx: nat, slot: KeySlot) {
    tv.vault.table.Some? && idx < |tv.vault.table.value.slots| && tv.vault.table.value.slots[idx] == slot
  }

  /** The vault and every file saved from it hold the slot. */
  ghost predicate AllHold(w: World, v: nat, own: set<Path>, idx: nat, slot: KeySlot) {
    && v < |w.vaults| && Holds(w.vaults[v], idx, slot)
    && forall path :: path in own ==> path in w.files && Holds(w.files[path].snapshot, idx, slot)
  }

  lemma AddHolds(p: Primitives, w: World, tv: TracedVault, e: Event, idx: nat, slot: KeySlot)
    requires Holds(tv, idx, slot) && e.AddToVault?
    ensures Holds(Updated(p, w, tv, e), idx, slot)
  {
    AddOutcome(p, tv.vault.table.value, tv.vault.master, e.passphrase, e.draw);
  }

  lemma RevokeHolds(p: Primitives, w: World, tv: TracedVault, e: Event, idx: nat, slot: KeySlot)
    requires Holds(tv, idx, slot) && !slot.IsEnabled() && e.RevokeInVault?
    ensures Holds(Updated(p, w, tv, e), idx, slot)
  {
    var t := tv.vault.table.value;
    RevokeEffect(t, e.idx);
    assert SlotKept(t.slots[idx], t.RevokeSlot(e.idx).0.slots[idx]);
  }

  /** A vault reopened from a written file has the table that was written, or stays as it was. */
  lemma OpenedTable(p: Primitives, v: Vault, f: SavedFile, q: Bytes)
    requires FileIntact(p, f)
    ensures var (after, r) := OpenInto(p, v, f.bytes, q);
            if r.Ok? then after.table == f.snapshot.vault.table else after == v
  {
    OpenWrittenFile(p, v, f, q);
  }

  lemma ReopenHolds(p: Primitives, w: World, tv: TracedVault, e: Event, idx: nat, slot: KeySlot)
    requires Holds(tv, idx, slot) && e.Reopen?
    requires e.path in w.files && FileIntact(p, w.files[e.path]) && Holds(w.files[e.path].snapshot, idx, slot)
    ensures Holds(Updated(p, w, tv, e), idx, slot)
  {
    OpenedTable(p, tv.vault, w.files[e.path], e.passphrase);
  }

  /** One update of the vault leaves a disabled slot in place. */
  lemma UpdatedHolds(p: Primitives, w: World, tv: TracedVault, e: Event, idx: nat, slot: KeySlot)
    requires Holds(tv, idx, slot) && !slot.IsEnabled() && !e.SealVault? && !e.RotateVault?
    requires e.Reopen? ==>
               e.path in w.files && FileIntact(p, w.files[e.path]) && Holds(w.files[e.path].snapshot, idx, slot)
    ensures Holds(Updated(p, w, tv, e), idx, slot)
  {
    match e
    case AddToVault(_, _, _, _) => AddHolds(p, w, tv, e, idx, slot);
    case RevokeInVault(_, _) => RevokeHolds(p, w, tv, e, idx, slot);
    case Reopen(_, _, _) => ReopenHolds(p, w, tv, e, idx, slot);
    case _ =>
  }

  lemma SaveHolds(p: Primitives, w: World, v: nat, own: set<Path>, e: Event, idx: nat, slot: KeySlot)
    requires AllHold(w, v, own, idx, slot) && e.Save?
    ensures AllHold(Next(p, w, e), v, OwnAfter(own, e, v), idx, slot)
  {
    var own', w' := OwnAfter(own, e, v), Next(p, w, e);
    forall path | path in own'
      ensures path in w'.files && Holds(w'.files[path].snapshot, idx, slot)
    {
      if path == e.path {
        assert e.v == v;
      }
    }
  }

  lemma ReplacedHolds(w: World, v: nat, own: set<Path>, k: nat, tv: TracedVault, idx: nat, slot: KeySlot)
    requires AllHold(w, v, own, idx, slot) && k < |w.vaults| && (k == v ==> Holds(tv, idx, slot))
    ensures AllHold(w.(vaults := w.vaults[k := tv]), v, own, idx, slot)
  {
  }

  lemma VaultCallHolds(p: Primitives, w: World, v: nat, own: set<Path>, e: Event, idx: nat, slot: KeySlot)
    requires AllHold(w, v, own, idx, slot) && !slot.IsEnabled() && KeepsTable(e, v, own) && WorldIntact(p, w)
    requires !e.MakeVault? && !e.UnlockVault? && !e.Save? && !e.EncryptWith?
    ensures AllHold(Next(p, w, e), v, own, idx, slot)
  {
    NextOfVaultCall(p, w, e);
    if e.v < |w.vaults| {
      var tv := Updated(p, w, w.vaults[e.v], e);
      if e.v == v {
        UpdatedHolds(p, w, w.vaults[v], e, idx, slot);
      }
      ReplacedHolds(w, v, own, e.v, tv, idx, slot);
    }
  }

  lemma AddedVaultHolds(w: World, made: Result<Vault>, v: nat, own: set<Path>, idx: nat, slot: KeySlot)
    requires AllHold(w, v, own, idx, slot)
    ensures AllHold(WithVault(w, made), v, own, idx, slot)
  {
  }

  /** One event leaves the slot in the vault, and in every file saved from it. */
  lemma NextHolds(p: Primitives, w: World, v: nat, own: set<Path>, e: Event, idx: nat, slot: KeySlot)
    requires AllHold(w, v, own, idx, slot) && !slot.IsEnabled() && KeepsTable(e, v, own) && WorldIntact(p, w)
    ensures AllHold(Next(p, w, e), v, OwnAfter(own, e, v), idx, slot)
  {
    match e
    case MakeVault(master) => AddedVaultHolds(w, FromMasterKey(p, master), v, own, idx, slot);
    case UnlockVault(passphrase, salt, memoryKib, iterations) =>
      AddedVaultHolds(w, Unlock(p, passphrase, salt, memoryKib, iterations), v, own, idx, slot);
    case EncryptWith(_, _, _, _, _) =>
    case Save(_, _) => SaveHolds(p, w, v, own, e, idx, slot);
    case _ => VaultCallHolds(p, w, v, own, e, idx, slot);
  }

  /** From any world where the vault holds the disabled slot. */
  lemma {:induction false} RunHolds(p: Primitives, before: seq<Event>, v: nat, events: seq<Event>, idx: nat,
                                    slot: KeySlot)
    requires AllHold(Exec(p, EMPTY_WORLD, before), v, {}, idx, slot) && !slot.IsEnabled() && AllKeepTable(events, v)
    ensures AllHold(Exec(p, EMPTY_WORLD, before + events), v, SavedFrom(events, v), idx, slot)
  {
    if events == [] {
      assert before + events == before;
    } else {
      var n := |events| - 1;
      var earlier, e := events[..n], events[n];
      EarlierKeepTable(events, v, n);
      RunHolds(p, before, v, earlier, idx, slot);
      RunIsIntact(p, before + earlier);
      NextHolds(p, Exec(p, EMPTY_WORLD, before + earlier), v, SavedFrom(earlier, v), e, idx, slot);
      assert (before + events)[..|before + events| - 1] == before + earlier;
    }
  }

  lemma EarlierKeepTable(events: seq<Event>, v: nat, n: nat)
    requires AllKeepTable(events, v) && n <= |events|
    ensures AllKeepTable(events[..n], v)
  {
    forall i | 0 <= i < n ensures KeepsTable(events[..n][i], v, SavedFrom(events[..n][..i], v)) {
      assert events[..n][..i] == events[..i];
    }
  }

  /** The revocation of a slot of vault v takes effect at this point of a run. */
  ghost predicate RevokesAt(p: Primitives, before: seq<Event>, v: nat, idx: nat) {
    && SavesTable(p, before, v)
    && var t := Exec(p, EMPTY_WORLD, before).vaults[v].vault.table.value;
       idx < |t.slots| && t.slots[idx].IsEnabled() && t.RevokeSlot(idx).1.Ok?
  }

  /** Permanent revocation over whole runs, without any hypothesis: once a revocation takes effect in
      a vault, and as long as the vault is not sealed anew, rotated, or reopened from another file than
      those saved from it since, the vault and every such file hold the slot wiped, disabled and with a
      zero ciphertext, at its index. */
  lemma WholeRunRevocation(p: Primitives, before: seq<Event>, v: nat, idx: nat, after: seq<Event>)
    requires RevokesAt(p, before, v, idx) && AllKeepTable(after, v)
    ensures var slot := Exec(p, EMPTY_WORLD, before).vaults[v].vault.table.value.slots[idx].Wiped();
            && !slot.IsEnabled() && slot.ct == Zeros(CT_LEN)
            && AllHold(Exec(p, EMPTY_WORLD, before + [RevokeInVault(v, idx)] + after), v, SavedFrom(after, v),
                       idx, slot)
  {
    var slot := Exec(p, EMPTY_WORLD, before).vaults[v].vault.table.value.slots[idx];
    WipedIsDisabled(slot);
    assert (before + [RevokeInVault(v, idx)])[..|before|] == before;
    RunHolds(p, before + [RevokeInVault(v, idx)], v, after, idx, slot.Wiped());
  }

  /** Some enabled slot other than this one was created with the passphrase. */
  ghost predicate HasOtherSlotOf(tv: TracedVault, idx: nat, q: Bytes)
    requires tv.vault.table.Some?
  {
    exists i :: 0 <= i < |tv.origins| && i < |tv.vault.table.value.slots| && i != idx
                && tv.vault.table.value.slots[i].IsEnabled() && tv.origins[i].passphrase == q
  }

  /** What a revocation means for access, over whole runs: a file saved from the vault since then opens
      under a passphrase of the run exactly if that created another slot, enabled at the save; the
      revoked user's own slot no longer helps. */
  lemma RevokedLoseAccess(p: Primitives, before: seq<Event>, v: nat, idx: nat, after: seq<Event>, path: Path, q: Bytes,
                          into: Vault, scope: Scope)
    requires RevokesAt(p, before, v, idx) && AllKeepTable(after, v) && path in SavedFrom(after, v)
    requires KeyCommitting(p, scope) && DerivationInjective(p, scope) && q in scope.passes
    requires AllInScope(p, before + [RevokeInVault(v, idx)] + after, scope)
    ensures var end := Exec(p, EMPTY_WORLD, before + [RevokeInVault(v, idx)] + after);
            && path in end.files && end.files[path].snapshot.vault.table.Some?
            && OpenInto(p, into, end.files[path].bytes, q) ==
               if HasOtherSlotOf(end.files[path].snapshot, idx, q) then (end.files[path].snapshot.vault, Ok(()))
               else (into, Err(CannotOpen(NoSlotUnsealed)))
  {
    var events := before + [RevokeInVault(v, idx)] + after;
    WholeRunRevocation(p, before, v, idx, after);
    CommittedRunIsSound(p, events, scope);
    var f := Exec(p, EMPTY_WORLD, events).files[path];
    AccessToFile(p, f, q, into, scope);
  }
}
