/** Whole runs over several vaults and a disk: vaults are made, sealed, extended, revoked, rotated
    and encrypted with, written to files, and files written earlier are opened into any vault. */
module WholeRuns {
  import opened Outcomes
  import opened ByteStrings
  import opened Crypto
  import opened Hierarchy
  import opened SlotModel
  import opened SlotCodec
  import CodecLaws
  import opened TableLaws
  import opened TableRuns
  import opened VaultModel
  import opened AegisCli

  // The world of a run, with the history that the theorems speak about.

  /** A vault and the origins of the slots in its table. */
  datatype TracedVault = TracedVault(vault: Vault, origins: seq<Origin>)

  /** A vault file's bytes, and the vault as it was when the file was written. */
  datatype SavedFile = SavedFile(bytes: Bytes, snapshot: TracedVault)

  /** Something a vault encrypted, and the master it had. */
  datatype Message = Message(master: Key, domain: Domain, algo: AeadAlgo, aad: Bytes, nonce: Bytes, ct: Bytes,
                             plaintext: Bytes)

  /** A file name. Writing to a path replaces the file that was there. */
  type Path = string

  datatype World = World(vaults: seq<TracedVault>, files: map<Path, SavedFile>, messages: seq<Message>)

  const EMPTY_WORLD := World([], map[], [])

  type AeadNonce = n: (AeadAlgo, Bytes) | |n.1| == NonceLen(n.0) witness (Aes256Gcm, Zeros(12))

  /** The calls of a run. A vault number or a path that does not exist leaves the world as it is. */
  datatype Event =
    | MakeVault(master: Key)
    | UnlockVault(passphrase: Bytes, salt: Bytes, memoryKib: u32, iterations: u32)
    | SealVault(v: nat, passphrase: Bytes, headerSalt: Key, draw: SlotDraw)
    | AddToVault(v: nat, passphrase: Bytes, headerSalt: Key, draw: SlotDraw)
    | RevokeInVault(v: nat, idx: nat)
    | RotateVault(v: nat, newMaster: Key)
    | Save(v: nat, path: Path)
    | Reopen(v: nat, path: Path, passphrase: Bytes)
    | EncryptWith(v: nat, domain: Domain, plaintext: Bytes, aad: Bytes, nonce: AeadNonce)

  /** The vault and the origins after a call that changes one vault. */
  ghost function Updated(p: Primitives, w: World, tv: TracedVault, e: Event): TracedVault {
    match e
    case SealVault(_, passphrase, headerSalt, draw) =>
      var (after, r) := tv.vault.SealSlots(p, passphrase, headerSalt, draw);
      TracedVault(after, if r.Ok? then [Origin(tv.vault.master, passphrase, draw)] else tv.origins)
    case AddToVault(_, passphrase, headerSalt, draw) =>
      var (after, r) := tv.vault.AddSlot(p, passphrase, headerSalt, draw);
      var before := if tv.vault.table.Some? then tv.origins else [];
      TracedVault(after, if r.Ok? then before + [Origin(tv.vault.master, passphrase, draw)] else tv.origins)
    case RevokeInVault(_, idx) => TracedVault(tv.vault.RevokeSlot(idx).0, tv.origins)
    case RotateVault(_, newMaster) => TracedVault(tv.vault.RotateMaster(p, newMaster).0, [])
    case Reopen(_, path, passphrase) =>
      if path !in w.files then tv
      else
        var (after, r) := OpenInto(p, tv.vault, w.files[path].bytes, passphrase);
        TracedVault(after, if r.Ok? then w.files[path].snapshot.origins else tv.origins)
    case _ => tv
  }

  /** A new vault joins the world if making it succeeded. */
  function WithVault(w: World, made: Result<Vault>): World {
    if made.Ok? then w.(vaults := w.vaults + [TracedVault(made.value, [])]) else w
  }

  ghost function Next(p: Primitives, w: World, e: Event): World {
    match e
    case MakeVault(master) => WithVault(w, FromMasterKey(p, master))
    case UnlockVault(passphrase, salt, memoryKib, iterations) =>
      WithVault(w, Unlock(p, passphrase, salt, memoryKib, iterations))
    case Save(v, path) =>
      if v < |w.vaults| && w.vaults[v].vault.table.Some? then
        w.(files := w.files[path := SavedFile(VaultFile(p, w.vaults[v].vault.table.value), w.vaults[v])])
      else w
    case EncryptWith(v, d, plaintext, aad, nonce) =>
      if v >= |w.vaults| then w
      else
        var r := w.vaults[v].vault.Encrypt(p, d, plaintext, aad, nonce.0, nonce.1);
        if r.Ok? then
          var m := Message(w.vaults[v].vault.master, d, nonce.0, aad, r.value.0, r.value.1, plaintext);
          w.(messages := w.messages + [m])
        else w
    case _ =>
      if e.v < |w.vaults| then w.(vaults := w.vaults[e.v := Updated(p, w, w.vaults[e.v], e)])
      else w
  }

  /** A call on one vault changes that vault, and nothing else. */
  lemma NextOfVaultCall(p: Primitives, w: World, e: Event)
    requires !e.MakeVault? && !e.UnlockVault? && !e.Save? && !e.EncryptWith?
    ensures Next(p, w, e) ==
            if e.v < |w.vaults| then w.(vaults := w.vaults[e.v := Updated(p, w, w.vaults[e.v], e)]) else w
  {
  }

  /** After a call on vault v: this is the vault now, and all else is as it was. */
  ghost predicate OnlyVault(w: World, after: World, v: nat, vault: Vault) {
    && v < |w.vaults| == |after.vaults|
    && after.vaults[v].vault == vault
    && (forall i :: 0 <= i < |w.vaults| && i != v ==> after.vaults[i] == w.vaults[i])
    && after.files == w.files && after.messages == w.messages
  }

  /** Every call on a vault that exists leaves the vault that the call itself leaves. */
  lemma VaultCallsTakeEffect(p: Primitives, w: World, v: nat, passphrase: Bytes, headerSalt: Key, draw: SlotDraw,
                             idx: nat, newMaster: Key, path: Path)
    requires v < |w.vaults|
    ensures var vault := w.vaults[v].vault;
            && OnlyVault(w, Next(p, w, SealVault(v, passphrase, headerSalt, draw)), v,
                         vault.SealSlots(p, passphrase, headerSalt, draw).0)
            && OnlyVault(w, Next(p, w, AddToVault(v, passphrase, headerSalt, draw)), v,
                         vault.AddSlot(p, passphrase, headerSalt, draw).0)
            && OnlyVault(w, Next(p, w, RevokeInVault(v, idx)), v, vault.RevokeSlot(idx).0)
            && OnlyVault(w, Next(p, w, RotateVault(v, newMaster)), v,
                         Vault(newMaster, HierarchyOf(p, newMaster), None))
            && (path in w.files ==>
                  OnlyVault(w, Next(p, w, Reopen(v, path, passphrase)), v,
                            OpenInto(p, vault, w.files[path].bytes, passphrase).0))
  {
    DomainKeysAreDerived(p, newMaster, Enc);
  }

  /** New vaults join the world, and what a vault encrypted is recorded, exactly if the call succeeds. */
  lemma NewEntriesTakeEffect(p: Primitives, w: World, master: Key, passphrase: Bytes, salt: Bytes, memoryKib: u32,
                             iterations: u32, v: nat, d: Domain, plaintext: Bytes, aad: Bytes, nonce: AeadNonce)
    ensures Next(p, w, MakeVault(master)) ==
            w.(vaults := w.vaults + [TracedVault(Vault(master, HierarchyOf(p, master), None), [])])
    ensures Next(p, w, UnlockVault(passphrase, salt, memoryKib, iterations)) ==
            match p.argon2id(passphrase, salt, memoryKib, iterations)
            case Some(m) => w.(vaults := w.vaults + [TracedVault(Vault(m, HierarchyOf(p, m), None), [])])
            case None => w
    ensures v < |w.vaults| ==>
              var r := w.vaults[v].vault.Encrypt(p, d, plaintext, aad, nonce.0, nonce.1);
              var m := w.vaults[v].vault.master;
              Next(p, w, EncryptWith(v, d, plaintext, aad, nonce)) ==
              if !r.Ok? then w
              else w.(messages := w.messages + [Message(m, d, nonce.0, aad, nonce.1, r.value.1, plaintext)])
  {
    DomainKeysAreDerived(p, master, Enc);
    NewVaultIsConsistent(p, master, passphrase, salt, memoryKib, iterations);
  }

  ghost function Exec(p: Primitives, w: World, events: seq<Event>): World {
    if events == [] then w
    else Next(p, Exec(p, w, events[..|events| - 1]), events[|events| - 1])
  }

  // What a run uses, and the named hypotheses on it.

  /** The passphrases, draws and masters that occur in a run. */
  datatype Scope = Scope(passes: set<Bytes>, draws: set<SlotDraw>, masters: set<Key>)

  /** The event uses only these passphrases and draws, and brings in only these masters. */
  predicate InScope(p: Primitives, e: Event, scope: Scope) {
    match e
    case MakeVault(master) => master in scope.masters
    case UnlockVault(passphrase, salt, memoryKib, iterations) =>
      var derived := p.argon2id(passphrase, salt, memoryKib, iterations);
      derived.Some? ==> derived.value in scope.masters
    case SealVault(_, passphrase, _, draw) => passphrase in scope.passes && draw in scope.draws
    case AddToVault(_, passphrase, _, draw) => passphrase in scope.passes && draw in scope.draws
    case RotateVault(_, newMaster) => newMaster in scope.masters
    case Reopen(_, _, passphrase) => passphrase in scope.passes
    case _ => true
  }

  predicate AllInScope(p: Primitives, events: seq<Event>, scope: Scope) {
    forall i :: 0 <= i < |events| ==> InScope(p, events[i], scope)
  }

  predicate OriginInScope(o: Origin, scope: Scope) {
    o.passphrase in scope.passes && o.draw in scope.draws && o.master in scope.masters
  }

  predicate VaultInScope(tv: TracedVault, scope: Scope) {
    && tv.vault.master in scope.masters
    && forall i :: 0 <= i < |tv.origins| ==> OriginInScope(tv.origins[i], scope)
  }

  predicate WorldInScope(w: World, scope: Scope) {
    && (forall i :: 0 <= i < |w.vaults| ==> VaultInScope(w.vaults[i], scope))
    && (forall path :: path in w.files ==> VaultInScope(w.files[path].snapshot, scope))
  }

  /** The slot ciphertext that wraps a master under one passphrase opens under the key of another
      only if the two keys are equal. */
  ghost predicate Commits(p: Primitives, o: Origin, other: Bytes) {
    var k := p.argon2id(o.passphrase, o.draw.salt, SLOT_M_COST, SLOT_T_COST);
    var k' := p.argon2id(other, o.draw.salt, SLOT_M_COST, SLOT_T_COST);
    k.Some? && k'.Some? ==>
      var ct := p.seal(Aes256Gcm, k.value, o.draw.nonce, o.master, HEADER_MAGIC);
      ct.Some? && p.open(Aes256Gcm, k'.value, o.draw.nonce, ct.value, HEADER_MAGIC).Some? ==> k'.value == k.value
  }

  /** Key commitment of the slot cipher on the passphrases, draws and masters of a run. */
  ghost predicate KeyCommitting(p: Primitives, scope: Scope) {
    forall o: Origin, q :: OriginInScope(o, scope) && q in scope.passes ==> Commits(p, o, q)
  }

  ghost predicate SameSlotKey(p: Primitives, a: Bytes, b: Bytes, draw: SlotDraw) {
    var k := p.argon2id(a, draw.salt, SLOT_M_COST, SLOT_T_COST);
    k.Some? && k == p.argon2id(b, draw.salt, SLOT_M_COST, SLOT_T_COST)
  }

  /** Different passphrases of a run derive different slot keys. */
  ghost predicate DerivationInjective(p: Primitives, scope: Scope) {
    forall a, b, d {:trigger a in scope.passes, b in scope.passes, d in scope.draws} ::
      a in scope.passes && b in scope.passes && d in scope.draws && SameSlotKey(p, a, b, d) ==> a == b
  }

  /** Different masters in this set have different volume verifiers. */
  ghost predicate VerifierInjective(p: Primitives, known: set<Key>) {
    forall m, m' :: m in known && m' in known && VolumeVerifier(p, m) == VolumeVerifier(p, m') ==> m == m'
  }

  /** Whatever the slot created from this origin unseals to under the passphrase is known. */
  ghost predicate UnsealsWithin(p: Primitives, o: Origin, q: Bytes, known: set<Key>) {
    o.Creation(p).Ok? && o.Creation(p).value.Unseal(p, q).Ok? ==> o.Creation(p).value.Unseal(p, q).value in known
  }

  /** The known masters include the run's, and every master that a slot of the run unseals to under
      a passphrase of the run. */
  ghost predicate CoversRecoverable(p: Primitives, scope: Scope, known: set<Key>) {
    && scope.masters <= known
    && forall o: Origin, q :: OriginInScope(o, scope) && q in scope.passes ==> UnsealsWithin(p, o, q, known)
  }

  // The invariants of runs.

  /** Without any hypothesis: every slot is what its creating call made, or that wiped, and that call
      wrapped a master whose hash is the verifier; one slot at least is enabled. */
  ghost predicate TableIntact(p: Primitives, t: Table, origins: seq<Origin>) {
    && 1 <= EnabledCount(t.slots) && |t.slots| <= MAX_SLOTS
    && OriginsMatch(p, t.slots, origins)
    && forall i :: 0 <= i < |origins| ==> VolumeVerifier(p, origins[i].master) == t.verifier
  }

  ghost predicate VaultIntact(p: Primitives, tv: TracedVault) {
    && Consistent(p, tv.vault)
    && (tv.vault.table.Some? ==> TableIntact(p, tv.vault.table.value, tv.origins))
  }

  ghost predicate FileIntact(p: Primitives, f: SavedFile) {
    && VaultIntact(p, f.snapshot)
    && f.snapshot.vault.table.Some?
    && f.bytes == VaultFile(p, f.snapshot.vault.table.value)
  }

  /** Any consistent vault with the message's master decrypts it. */
  ghost predicate MessageSound(p: Primitives, m: Message) {
    forall v: Vault :: Consistent(p, v) && v.master == m.master ==>
      v.Decrypt(p, m.domain, m.nonce, m.ct, m.aad, m.algo) == Ok(m.plaintext)
  }

  ghost predicate WorldIntact(p: Primitives, w: World) {
    && (forall i :: 0 <= i < |w.vaults| ==> VaultIntact(p, w.vaults[i]))
    && (forall path :: path in w.files ==> FileIntact(p, w.files[path]))
    && (forall i :: 0 <= i < |w.messages| ==> MessageSound(p, w.messages[i]))
  }

  /** All slots wrap the vault's own master. */
  predicate OneMaster(tv: TracedVault) {
    forall i :: 0 <= i < |tv.origins| ==> tv.origins[i].master == tv.vault.master
  }

  ghost predicate FileSound(p: Primitives, f: SavedFile) {
    FileIntact(p, f) && OneMaster(f.snapshot)
  }

  predicate WorldOneMaster(w: World) {
    && (forall i :: 0 <= i < |w.vaults| ==> OneMaster(w.vaults[i]))
    && (forall path :: path in w.files ==> OneMaster(w.files[path].snapshot))
  }

  ghost predicate WorldSound(p: Primitives, w: World) {
    WorldIntact(p, w) && WorldOneMaster(w)
  }

  // Opening one file.

  /** Opening a file that was written in the run, under any passphrase and into any vault: the
      parse succeeds, and the rest is the search and the verifier check on the table written. */
  lemma OpenWrittenFile(p: Primitives, v: Vault, f: SavedFile, q: Bytes)
    requires FileIntact(p, f)
    ensures var t := f.snapshot.vault.table.value; var found := t.UnsealWith(p, q);
            OpenInto(p, v, f.bytes, q) ==
            if !found.Ok? then (v, Err(CannotOpen(NoSlotUnsealed)))
            else if VolumeVerifier(p, found.value.1) != t.verifier then (v, Err(CannotOpen(VolumeMismatch)))
            else (Vault(found.value.1, HierarchyOf(p, found.value.1), Some(t)), Ok(()))
  {
    var t := f.snapshot.vault.table.value;
    FileRoundTrip(f.bytes, Printed(p, t), t.headerSalt);
    CodecLaws.RoundTrip(p, t);
    SearchFindsLeast(p, t.slots, q, {}, 0);
    if t.UnsealWith(p, q).Ok? {
      DomainKeysAreDerived(p, t.UnsealWith(p, q).value.1, Enc);
    }
  }

  /** A consistent vault is its master's: there is only one hierarchy for it. */
  lemma SameMasterSameVault(p: Primitives, v: Vault)
    requires Consistent(p, v)
    ensures v == Vault(v.master, HierarchyOf(p, v.master), v.table)
  {
    HierarchyExtensional(v.hierarchy, HierarchyOf(p, v.master));
  }

  /** When opening gives back the saved vault, without any hypothesis on the primitives: exactly when
      the first slot that opens gives its master. */
  lemma RecoversExactlyWhen(p: Primitives, v: Vault, f: SavedFile, q: Bytes)
    requires FileIntact(p, f)
    ensures OpenInto(p, v, f.bytes, q) == (f.snapshot.vault, Ok(())) <==>
            FirstOpensTo(p, f.snapshot.vault.table.value, q, f.snapshot.vault.master)
  {
    OpenWrittenFile(p, v, f, q);
    SameMasterSameVault(p, f.snapshot.vault);
    FirstOpensToFound(p, f.snapshot.vault.table.value, q, f.snapshot.vault.master);
  }

  /** The slot at which a search of the saved table stops, with its origin. */
  lemma FirstMatch(p: Primitives, f: SavedFile, q: Bytes) returns (s: KeySlot, o: Origin)
    requires FileIntact(p, f) && f.snapshot.vault.table.value.UnsealWith(p, q).Ok?
    ensures o in f.snapshot.origins && FromOrigin(p, s, o) && s.Opens(p, q)
    ensures s == o.Creation(p).value
    ensures s.Unseal(p, q) == Ok(f.snapshot.vault.table.value.UnsealWith(p, q).value.1)
  {
    var t := f.snapshot.vault.table.value;
    SearchFindsLeast(p, t.slots, q, {}, 0);
    var i := t.UnsealWith(p, q).value.0;
    s, o := t.slots[i], f.snapshot.origins[i];
    assert FromOrigin(p, s, o);
    EnabledIsCreated(p, s, o);
  }

  /** A slot that opens under a committed passphrase gives the master that was put into it. */
  lemma CommittedUnseal(p: Primitives, s: KeySlot, o: Origin, q: Bytes)
    requires FromOrigin(p, s, o) && s.Opens(p, q)
    requires Commits(p, o, q)
    ensures s.Unseal(p, q) == Ok(o.master)
  {
    EnabledIsCreated(p, s, o);
    var k := p.argon2id(o.passphrase, o.draw.salt, SLOT_M_COST, SLOT_T_COST).value;
    SealOpenInverse(p, Aes256Gcm, k, o.draw.nonce, o.master, s.ct, HEADER_MAGIC);
  }

  /** With key commitment, opening a written file gives exactly the vault that was saved as soon
      as any enabled slot opens under the passphrase, and otherwise leaves the vault alone. */
  lemma OpenCommittedFile(p: Primitives, v: Vault, f: SavedFile, q: Bytes, scope: Scope)
    requires FileSound(p, f)
    requires KeyCommitting(p, scope) && q in scope.passes && VaultInScope(f.snapshot, scope)
    ensures var slots := f.snapshot.vault.table.value.slots;
            OpenInto(p, v, f.bytes, q) ==
            if exists i :: 0 <= i < |slots| && slots[i].Opens(p, q) then (f.snapshot.vault, Ok(()))
            else (v, Err(CannotOpen(NoSlotUnsealed)))
  {
    var t := f.snapshot.vault.table.value;
    OpenWrittenFile(p, v, f, q);
    SearchFindsLeast(p, t.slots, q, {}, 0);
    if t.UnsealWith(p, q).Ok? {
      var s, o := FirstMatch(p, f, q);
      assert OriginInScope(o, scope);
      CommittedUnseal(p, s, o, q);
      FirstOpensToFound(p, t, q, f.snapshot.vault.master);
      RecoversExactlyWhen(p, v, f, q);
    }
  }

  // Guards against a foreign master.

  /** Opening this file under this passphrase never gives another vault than the one saved. */
  ghost predicate OpensExactly(p: Primitives, f: SavedFile, q: Bytes) {
    forall v: Vault :: OpensAsSaved(p, v, f, q)
  }

  ghost predicate OpensAsSaved(p: Primitives, v: Vault, f: SavedFile, q: Bytes) {
    var (after, r) := OpenInto(p, v, f.bytes, q);
    after == if r.Ok? then f.snapshot.vault else v
  }

  /** No passphrase of the run opens a sound file of the run to another vault than the one saved. */
  ghost predicate Guarded(p: Primitives, scope: Scope) {
    forall f: SavedFile, q :: FileSound(p, f) && VaultInScope(f.snapshot, scope) && q in scope.passes ==>
      OpensExactly(p, f, q)
  }

  /** The verifier alone rules out a foreign master, without any assumption on the slot cipher: it
      need only tell the run's masters from those that its slots can unseal to. */
  lemma VerifierGuardsMaster(p: Primitives, scope: Scope, known: set<Key>)
    requires CoversRecoverable(p, scope, known) && VerifierInjective(p, known)
    ensures Guarded(p, scope)
  {
    forall f: SavedFile, q | FileSound(p, f) && VaultInScope(f.snapshot, scope) && q in scope.passes
      ensures OpensExactly(p, f, q)
    {
      forall v: Vault ensures OpensAsSaved(p, v, f, q) {
        OpenWrittenFile(p, v, f, q);
        SameMasterSameVault(p, f.snapshot.vault);
        if f.snapshot.vault.table.value.UnsealWith(p, q).Ok? {
          var s, o := FirstMatch(p, f, q);
          assert OriginInScope(o, scope);
          assert UnsealsWithin(p, o, q, known);
        }
      }
    }
  }

  lemma CommitmentGuardsMaster(p: Primitives, scope: Scope)
    requires KeyCommitting(p, scope)
    ensures Guarded(p, scope)
  {
    forall f: SavedFile, q | FileSound(p, f) && VaultInScope(f.snapshot, scope) && q in scope.passes
      ensures OpensExactly(p, f, q)
    {
      forall v: Vault ensures OpensAsSaved(p, v, f, q) {
        OpenCommittedFile(p, v, f, q, scope);
      }
    }
  }

  /** With key commitment, the run's own masters are all that its slots can unseal to. */
  lemma CommitmentCovers(p: Primitives, scope: Scope)
    requires KeyCommitting(p, scope)
    ensures CoversRecoverable(p, scope, scope.masters)
  {
    forall o: Origin, q | OriginInScope(o, scope) && q in scope.passes
      ensures UnsealsWithin(p, o, q, scope.masters)
    {
      assert Commits(p, o, q);
      if o.Creation(p).Ok? && o.Creation(p).value.Unseal(p, q).Ok? {
        EnabledIsCreated(p, o.Creation(p).value, o);
        CommittedUnseal(p, o.Creation(p).value, o, q);
      }
    }
  }

  // Every step keeps the invariants.

  /** A successful add of a master with the table's verifier keeps the table intact. */
  lemma AddKeepsIntact(p: Primitives, t: Table, origins: seq<Origin>, o: Origin)
    requires TableIntact(p, t, origins) && VolumeVerifier(p, o.master) == t.verifier
    requires t.AddSlot(p, o.master, o.passphrase, o.draw).1.Ok?
    ensures TableIntact(p, t.AddSlot(p, o.master, o.passphrase, o.draw).0, origins + [o])
  {
    AddEffect(p, t, o.master, o.passphrase, o.draw);
    AppendKeepsOrigins(p, t.slots, origins, o);
  }

  lemma RevokeKeepsIntact(p: Primitives, t: Table, origins: seq<Origin>, idx: nat)
    requires TableIntact(p, t, origins)
    ensures TableIntact(p, t.RevokeSlot(idx).0, origins)
  {
    RevokeEffect(t, idx);
    if idx < |t.slots| {
      WipeKeepsOrigins(p, t.slots, origins, idx);
    }
  }

  lemma SealedIsIntact(p: Primitives, o: Origin, headerSalt: Key)
    requires NewInitial(p, o.master, o.passphrase, headerSalt, o.draw).Ok?
    ensures TableIntact(p, NewInitial(p, o.master, o.passphrase, headerSalt, o.draw).value, [o])
  {
    InitialTable(p, o, headerSalt);
  }

  lemma AddedToTableIsIntact(p: Primitives, w: World, tv: TracedVault, e: Event)
    requires VaultIntact(p, tv) && e.AddToVault? && tv.vault.table.Some?
    ensures VaultIntact(p, Updated(p, w, tv, e))
  {
    var t := tv.vault.table.value;
    var o := Origin(tv.vault.master, e.passphrase, e.draw);
    if t.AddSlot(p, o.master, o.passphrase, o.draw).1.Ok? {
      AddKeepsIntact(p, t, tv.origins, o);
    }
  }

  lemma AddedToBareIsIntact(p: Primitives, w: World, tv: TracedVault, e: Event)
    requires VaultIntact(p, tv) && e.AddToVault? && tv.vault.table.None?
    ensures VaultIntact(p, Updated(p, w, tv, e))
  {
    var o := Origin(tv.vault.master, e.passphrase, e.draw);
    if NewInitial(p, o.master, o.passphrase, e.headerSalt, o.draw).Ok? {
      SealedIsIntact(p, o, e.headerSalt);
      assert [] + [o] == [o];
    }
  }

  lemma ReopenedIsIntact(p: Primitives, w: World, tv: TracedVault, e: Event)
    requires VaultIntact(p, tv) && e.Reopen? && (e.path in w.files ==> FileIntact(p, w.files[e.path]))
    ensures VaultIntact(p, Updated(p, w, tv, e))
  {
    if e.path in w.files {
      var f := w.files[e.path];
      OpenWrittenFile(p, tv.vault, f, e.passphrase);
      var found := f.snapshot.vault.table.value.UnsealWith(p, e.passphrase);
      if OpenInto(p, tv.vault, f.bytes, e.passphrase).1.Ok? {
        DerivedIsConsistent(p, found.value.1, f.snapshot.vault.table);
        SameMasterSameVault(p, Vault(found.value.1, FromMaster(p, found.value.1).value, f.snapshot.vault.table));
      }
    }
  }

  /** Seal, add, revoke, rotate and reopen each keep a vault intact, whether they succeed or fail. */
  lemma UpdatedIsIntact(p: Primitives, w: World, tv: TracedVault, e: Event)
    requires VaultIntact(p, tv)
    requires e.Reopen? && e.path in w.files ==> FileIntact(p, w.files[e.path])
    ensures VaultIntact(p, Updated(p, w, tv, e))
  {
    match e
    case SealVault(_, passphrase, headerSalt, draw) =>
      if NewInitial(p, tv.vault.master, passphrase, headerSalt, draw).Ok? {
        SealedIsIntact(p, Origin(tv.vault.master, passphrase, draw), headerSalt);
      }
    case AddToVault(_, _, _, _) =>
      if tv.vault.table.Some? {
        AddedToTableIsIntact(p, w, tv, e);
      } else {
        AddedToBareIsIntact(p, w, tv, e);
      }
    case RevokeInVault(_, idx) =>
      if tv.vault.table.Some? {
        RevokeKeepsIntact(p, tv.vault.table.value, tv.origins, idx);
      }
    case RotateVault(_, newMaster) =>
      DerivedIsConsistent(p, newMaster, None);
    case Reopen(_, _, _) =>
      ReopenedIsIntact(p, w, tv, e);
    case _ =>
  }

  lemma EncryptedIsSound(p: Primitives, v: Vault, d: Domain, plaintext: Bytes, aad: Bytes, algo: AeadAlgo, nonce: Bytes)
    requires Consistent(p, v) && |nonce| == NonceLen(algo) && v.Encrypt(p, d, plaintext, aad, algo, nonce).Ok?
    ensures var out := v.Encrypt(p, d, plaintext, aad, algo, nonce).value;
            MessageSound(p, Message(v.master, d, algo, aad, out.0, out.1, plaintext))
  {
    forall u: Vault | Consistent(p, u) && u.master == v.master
      ensures var out := v.Encrypt(p, d, plaintext, aad, algo, nonce).value;
              u.Decrypt(p, d, out.0, out.1, aad, algo) == Ok(plaintext)
    {
      DecryptsUnderSameMaster(p, v, u, d, plaintext, aad, algo, nonce);
    }
  }

  lemma VaultAdded(p: Primitives, w: World, made: Result<Vault>)
    requires WorldIntact(p, w) && (made.Ok? ==> Consistent(p, made.value) && made.value.table.None?)
    ensures WorldIntact(p, WithVault(w, made))
  {
  }

  lemma VaultReplaced(p: Primitives, w: World, v: nat, tv: TracedVault)
    requires WorldIntact(p, w) && v < |w.vaults| && VaultIntact(p, tv)
    ensures WorldIntact(p, w.(vaults := w.vaults[v := tv]))
  {
  }

  lemma FileWritten(p: Primitives, w: World, path: Path, f: SavedFile)
    requires WorldIntact(p, w) && FileIntact(p, f)
    ensures WorldIntact(p, w.(files := w.files[path := f]))
  {
  }

  lemma MessageAdded(p: Primitives, w: World, m: Message)
    requires WorldIntact(p, w) && MessageSound(p, m)
    ensures WorldIntact(p, w.(messages := w.messages + [m]))
  {
  }

  lemma NextIsIntact(p: Primitives, w: World, e: Event)
    requires WorldIntact(p, w)
    ensures WorldIntact(p, Next(p, w, e))
  {
    match e
    case MakeVault(master) =>
      NewVaultIsConsistent(p, master, [], [], 0, 0);
      VaultAdded(p, w, FromMasterKey(p, master));
    case UnlockVault(passphrase, salt, memoryKib, iterations) =>
      NewVaultIsConsistent(p, Zeros(32), passphrase, salt, memoryKib, iterations);
      VaultAdded(p, w, Unlock(p, passphrase, salt, memoryKib, iterations));
    case Save(v, path) =>
      if v < |w.vaults| && w.vaults[v].vault.table.Some? {
        FileWritten(p, w, path, SavedFile(VaultFile(p, w.vaults[v].vault.table.value), w.vaults[v]));
      }
    case EncryptWith(v, d, plaintext, aad, nonce) =>
      if v < |w.vaults| {
        var r := w.vaults[v].vault.Encrypt(p, d, plaintext, aad, nonce.0, nonce.1);
        if r.Ok? {
          EncryptedIsSound(p, w.vaults[v].vault, d, plaintext, aad, nonce.0, nonce.1);
          MessageAdded(p, w, Message(w.vaults[v].vault.master, d, nonce.0, aad, r.value.0, r.value.1, plaintext));
        }
      }
    case _ =>
      if e.v < |w.vaults| {
        UpdatedIsIntact(p, w, w.vaults[e.v], e);
        VaultReplaced(p, w, e.v, Updated(p, w, w.vaults[e.v], e));
      }
  }

  lemma SlotCallKeepsMaster(p: Primitives, w: World, tv: TracedVault, e: Event, scope: Scope)
    requires OneMaster(tv) && VaultInScope(tv, scope) && InScope(p, e, scope) && (e.SealVault? || e.AddToVault?)
    ensures OneMaster(Updated(p, w, tv, e)) && VaultInScope(Updated(p, w, tv, e), scope)
  {
    var now := Updated(p, w, tv, e);
    var o := Origin(tv.vault.master, e.passphrase, e.draw);
    assert now.vault.master == tv.vault.master;
    assert now.origins in {tv.origins, tv.origins + [o], [o], [] + [o]};
  }

  lemma ReopenKeepsMaster(p: Primitives, w: World, tv: TracedVault, e: Event, scope: Scope)
    requires OneMaster(tv) && VaultInScope(tv, scope) && e.Reopen?
    requires e.path in w.files ==>
               && OneMaster(w.files[e.path].snapshot) && VaultInScope(w.files[e.path].snapshot, scope)
               && OpensExactly(p, w.files[e.path], e.passphrase)
    ensures OneMaster(Updated(p, w, tv, e)) && VaultInScope(Updated(p, w, tv, e), scope)
  {
    if e.path in w.files {
      assert OpensAsSaved(p, tv.vault, w.files[e.path], e.passphrase);
    }
  }

  /** Where reopening is exact, one vault's update keeps its slots on its own master and in scope. */
  lemma UpdatedKeepsMaster(p: Primitives, w: World, tv: TracedVault, e: Event, scope: Scope)
    requires OneMaster(tv) && VaultInScope(tv, scope) && InScope(p, e, scope)
    requires e.Reopen? && e.path in w.files ==>
               && OneMaster(w.files[e.path].snapshot) && VaultInScope(w.files[e.path].snapshot, scope)
               && OpensExactly(p, w.files[e.path], e.passphrase)
    ensures OneMaster(Updated(p, w, tv, e)) && VaultInScope(Updated(p, w, tv, e), scope)
  {
    match e
    case SealVault(_, _, _, _) => SlotCallKeepsMaster(p, w, tv, e, scope);
    case AddToVault(_, _, _, _) => SlotCallKeepsMaster(p, w, tv, e, scope);
    case RevokeInVault(_, _) =>
    case RotateVault(_, newMaster) => RotationSucceeds(p, tv.vault, newMaster);
    case Reopen(_, _, _) => ReopenKeepsMaster(p, w, tv, e, scope);
    case _ =>
  }

  lemma MadeKeepsMaster(w: World, made: Result<Vault>, scope: Scope)
    requires WorldOneMaster(w) && WorldInScope(w, scope) && (made.Ok? ==> made.value.master in scope.masters)
    ensures WorldOneMaster(WithVault(w, made)) && WorldInScope(WithVault(w, made), scope)
  {
  }

  lemma ReplacedKeepsMaster(w: World, v: nat, tv: TracedVault, scope: Scope)
    requires WorldOneMaster(w) && WorldInScope(w, scope) && v < |w.vaults| && OneMaster(tv) && VaultInScope(tv, scope)
    ensures WorldOneMaster(w.(vaults := w.vaults[v := tv])) && WorldInScope(w.(vaults := w.vaults[v := tv]), scope)
  {
  }

  lemma WrittenKeepsMaster(w: World, path: Path, f: SavedFile, scope: Scope)
    requires WorldOneMaster(w) && WorldInScope(w, scope) && OneMaster(f.snapshot) && VaultInScope(f.snapshot, scope)
    ensures WorldOneMaster(w.(files := w.files[path := f])) && WorldInScope(w.(files := w.files[path := f]), scope)
  {
  }

  lemma NewKeepsMaster(p: Primitives, w: World, e: Event, scope: Scope)
    requires WorldOneMaster(w) && WorldInScope(w, scope) && InScope(p, e, scope) && (e.MakeVault? || e.UnlockVault?)
    ensures WorldOneMaster(Next(p, w, e)) && WorldInScope(Next(p, w, e), scope)
  {
    match e
    case MakeVault(master) =>
      NewVaultIsConsistent(p, master, [], [], 0, 0);
      MadeKeepsMaster(w, FromMasterKey(p, master), scope);
    case UnlockVault(passphrase, salt, memoryKib, iterations) =>
      NewVaultIsConsistent(p, Zeros(32), passphrase, salt, memoryKib, iterations);
      MadeKeepsMaster(w, Unlock(p, passphrase, salt, memoryKib, iterations), scope);
  }

  lemma NextKeepsMaster(p: Primitives, w: World, e: Event, scope: Scope)
    requires WorldSound(p, w) && WorldInScope(w, scope) && InScope(p, e, scope) && Guarded(p, scope)
    ensures WorldOneMaster(Next(p, w, e)) && WorldInScope(Next(p, w, e), scope)
  {
    match e
    case MakeVault(_) => NewKeepsMaster(p, w, e, scope);
    case UnlockVault(_, _, _, _) => NewKeepsMaster(p, w, e, scope);
    case Save(v, path) =>
      if v < |w.vaults| && w.vaults[v].vault.table.Some? {
        WrittenKeepsMaster(w, path, SavedFile(VaultFile(p, w.vaults[v].vault.table.value), w.vaults[v]), scope);
      }
    case EncryptWith(_, _, _, _, _) =>
    case _ =>
      if e.v < |w.vaults| {
        UpdatedKeepsMaster(p, w, w.vaults[e.v], e, scope);
        ReplacedKeepsMaster(w, e.v, Updated(p, w, w.vaults[e.v], e), scope);
      }
  }

  // Whole runs.

  /** After every run, without any hypothesis: every vault is consistent; every slot of every table
      and file is what its creating call made, or that wiped, and wraps a master whose hash is the
      table's verifier; every message decrypts in every consistent vault with its master. */
  lemma {:induction false} RunIsIntact(p: Primitives, events: seq<Event>)
    ensures WorldIntact(p, Exec(p, EMPTY_WORLD, events))
  {
    if events == [] {
    } else {
      RunIsIntact(p, events[..|events| - 1]);
      NextIsIntact(p, Exec(p, EMPTY_WORLD, events[..|events| - 1]), events[|events| - 1]);
    }
  }

  lemma {:induction false} GuardedRunIsSound(p: Primitives, events: seq<Event>, scope: Scope)
    requires Guarded(p, scope) && AllInScope(p, events, scope)
    ensures WorldSound(p, Exec(p, EMPTY_WORLD, events)) && WorldInScope(Exec(p, EMPTY_WORLD, events), scope)
  {
    if events == [] {
    } else {
      var w, e := Exec(p, EMPTY_WORLD, events[..|events| - 1]), events[|events| - 1];
      GuardedRunIsSound(p, events[..|events| - 1], scope);
      NextIsIntact(p, w, e);
      NextKeepsMaster(p, w, e, scope);
    }
  }

  /** Common master over runs, guarded by the verifier: if it tells the run's masters from those that
      the run's slots can unseal to, then after the run all slots of a table or file wrap one master,
      the one of the vault that holds or wrote it, whatever passphrases the files were opened with. */
  lemma RunIsSound(p: Primitives, events: seq<Event>, scope: Scope, known: set<Key>)
    requires CoversRecoverable(p, scope, known) && VerifierInjective(p, known) && AllInScope(p, events, scope)
    ensures WorldSound(p, Exec(p, EMPTY_WORLD, events)) && WorldInScope(Exec(p, EMPTY_WORLD, events), scope)
  {
    VerifierGuardsMaster(p, scope, known);
    GuardedRunIsSound(p, events, scope);
  }

  /** The same, guarded by key commitment on the passphrases, draws and masters of the run. */
  lemma CommittedRunIsSound(p: Primitives, events: seq<Event>, scope: Scope)
    requires KeyCommitting(p, scope) && AllInScope(p, events, scope)
    ensures WorldSound(p, Exec(p, EMPTY_WORLD, events)) && WorldInScope(Exec(p, EMPTY_WORLD, events), scope)
  {
    CommitmentGuardsMaster(p, scope);
    GuardedRunIsSound(p, events, scope);
  }

  /** The event is a call that creates a slot with this passphrase and draw. */
  predicate Creates(e: Event, o: Origin) {
    (e.SealVault? || e.AddToVault?) && e.passphrase == o.passphrase && e.draw == o.draw
  }

  ghost predicate CalledIn(o: Origin, events: seq<Event>) {
    exists k :: 0 <= k < |events| && Creates(events[k], o)
  }

  ghost predicate AllCalled(origins: seq<Origin>, events: seq<Event>) {
    forall i :: 0 <= i < |origins| ==> CalledIn(origins[i], events)
  }

  ghost predicate HistoryCalled(w: World, events: seq<Event>) {
    && (forall i :: 0 <= i < |w.vaults| ==> AllCalled(w.vaults[i].origins, events))
    && (forall path :: path in w.files ==> AllCalled(w.files[path].snapshot.origins, events))
  }

  lemma CalledEarlier(origins: seq<Origin>, events: seq<Event>, e: Event)
    requires AllCalled(origins, events)
    ensures AllCalled(origins, events + [e])
  {
    forall i | 0 <= i < |origins|
      ensures CalledIn(origins[i], events + [e])
    {
      assert CalledIn(origins[i], events);
      var k :| 0 <= k < |events| && Creates(events[k], origins[i]);
      assert Creates((events + [e])[k], origins[i]);
    }
  }

  lemma UpdatedCalled(p: Primitives, w: World, tv: TracedVault, events: seq<Event>, e: Event)
    requires AllCalled(tv.origins, events + [e])
    requires e.Reopen? && e.path in w.files ==> AllCalled(w.files[e.path].snapshot.origins, events + [e])
    ensures AllCalled(Updated(p, w, tv, e).origins, events + [e])
  {
    if e.SealVault? || e.AddToVault? {
      var now := Updated(p, w, tv, e).origins;
      var o := Origin(tv.vault.master, e.passphrase, e.draw);
      assert Creates((events + [e])[|events|], o);
      forall i | 0 <= i < |now|
        ensures CalledIn(now[i], events + [e])
      {
        if now[i] != o {
          assert i < |tv.origins| && now[i] == tv.origins[i];
        }
      }
    }
  }

  /** The recorded origins are calls of the run: each slot's creating passphrase was passed to a
      seal or an add that happened. */
  lemma {:induction false} OriginsWereCalls(p: Primitives, events: seq<Event>)
    ensures HistoryCalled(Exec(p, EMPTY_WORLD, events), events)
  {
    if events == [] {
    } else {
      var before := events[..|events| - 1];
      var w, e := Exec(p, EMPTY_WORLD, before), events[|events| - 1];
      OriginsWereCalls(p, before);
      assert events == before + [e];
      forall i | 0 <= i < |w.vaults| ensures AllCalled(w.vaults[i].origins, events) {
        CalledEarlier(w.vaults[i].origins, before, e);
      }
      forall path | path in w.files ensures AllCalled(w.files[path].snapshot.origins, events) {
        CalledEarlier(w.files[path].snapshot.origins, before, e);
      }
      NextCalled(p, w, before, e);
    }
  }

  lemma NextCalled(p: Primitives, w: World, events: seq<Event>, e: Event)
    requires HistoryCalled(w, events + [e])
    ensures HistoryCalled(Next(p, w, e), events + [e])
  {
    match e
    case MakeVault(_) =>
    case UnlockVault(_, _, _, _) =>
    case Save(_, _) =>
    case EncryptWith(_, _, _, _, _) =>
    case _ =>
      if e.v < |w.vaults| {
        UpdatedCalled(p, w, w.vaults[e.v], events, e);
      }
  }

  /** No event writes to this path. */
  predicate Untouched(events: seq<Event>, path: Path) {
    forall i :: 0 <= i < |events| && events[i].Save? ==> events[i].path != path
  }

  /** A file stays until its path is written again, and messages are only ever added. */
  lemma {:induction false} HistoryGrows(p: Primitives, w: World, events: seq<Event>, path: Path)
    requires path in w.files && Untouched(events, path)
    ensures path in Exec(p, w, events).files && Exec(p, w, events).files[path] == w.files[path]
    ensures w.messages <= Exec(p, w, events).messages
  {
    if events == [] {
    } else {
      HistoryGrows(p, w, events[..|events| - 1], path);
    }
  }

  lemma {:induction false} ExecSplits(p: Primitives, w: World, first: seq<Event>, rest: seq<Event>)
    ensures Exec(p, w, first + rest) == Exec(p, Exec(p, w, first), rest)
  {
    if rest == [] {
      assert first + rest == first;
    } else {
      var n := |rest| - 1;
      ExecSplits(p, w, first, rest[..n]);
      assert (first + rest)[..|first + rest| - 1] == first + rest[..n];
    }
  }

  /** The vault that a save in the middle of a run writes. */
  ghost predicate SavesTable(p: Primitives, before: seq<Event>, v: nat) {
    var w := Exec(p, EMPTY_WORLD, before);
    v < |w.vaults| && w.vaults[v].vault.table.Some?
  }

  /** A saved file is there at the end of the run, as written, unless its path was written again;
      whatever was at the path before is gone. */
  lemma SavedFileStays(p: Primitives, before: seq<Event>, v: nat, path: Path, after: seq<Event>)
    requires SavesTable(p, before, v) && Untouched(after, path)
    ensures var saved := Exec(p, EMPTY_WORLD, before).vaults[v];
            var end := Exec(p, EMPTY_WORLD, before + [Save(v, path)] + after);
            path in end.files && end.files[path] == SavedFile(VaultFile(p, saved.vault.table.value), saved)
  {
    assert (before + [Save(v, path)])[..|before|] == before;
    ExecSplits(p, EMPTY_WORLD, before + [Save(v, path)], after);
    HistoryGrows(p, Exec(p, EMPTY_WORLD, before + [Save(v, path)]), after, path);
  }

  /** The file that a save in the middle of a run wrote, opened at the end of the run. */
  ghost function OpenSavedAt(p: Primitives, before: seq<Event>, v: nat, path: Path, after: seq<Event>, into: Vault,
                             q: Bytes)
    : (Vault, CliResult<()>)
    requires SavesTable(p, before, v) && Untouched(after, path)
  {
    SavedFileStays(p, before, v, path, after);
    OpenInto(p, into, Exec(p, EMPTY_WORLD, before + [Save(v, path)] + after).files[path].bytes, q)
  }

  /** The vault decrypts everything in the world that was encrypted under its master. */
  ghost predicate DecryptsAll(p: Primitives, v: Vault, w: World) {
    forall k :: 0 <= k < |w.messages| && w.messages[k].master == v.master ==>
      var m := w.messages[k];
      v.Decrypt(p, m.domain, m.nonce, m.ct, m.aad, m.algo) == Ok(m.plaintext)
  }

  /** Exact recovery over whole runs, without any hypothesis. Save a vault at any point of a run and
      let the run go on in any way that does not write to the path again. Opening the file gives back
      the vault as saved exactly when the first slot that opens gives its master, is told that no
      slot opened exactly when none does, and is refused with a mismatch exactly when the first that
      opens gives a master with another verifier; no other error arises. The creating passphrase of
      every enabled slot opens some slot. The saved vault decrypts everything encrypted under its
      master at any time in the run. */
  lemma WholeRunOutcome(p: Primitives, before: seq<Event>, v: nat, path: Path, after: seq<Event>, q: Bytes, into: Vault)
    requires SavesTable(p, before, v) && Untouched(after, path)
    ensures var saved := Exec(p, EMPTY_WORLD, before).vaults[v];
            var t := saved.vault.table.value;
            var (now, r) := OpenSavedAt(p, before, v, path, after, into, q);
            && ((now, r) == (saved.vault, Ok(())) <==> FirstOpensTo(p, t, q, saved.vault.master))
            && (r == Err(CannotOpen(NoSlotUnsealed)) <==> forall i :: 0 <= i < |t.slots| ==> !t.slots[i].Opens(p, q))
            && (r == Err(CannotOpen(VolumeMismatch)) <==>
                  exists m :: FirstOpensTo(p, t, q, m) && VolumeVerifier(p, m) != VolumeVerifier(p, saved.vault.master))
            && (r.Ok? || r == Err(CannotOpen(NoSlotUnsealed)) || r == Err(CannotOpen(VolumeMismatch)))
            && (!r.Ok? ==> now == into)
            && (HasEnabledSlotOf(saved, q) ==> r != Err(CannotOpen(NoSlotUnsealed)))
            && DecryptsAll(p, saved.vault, Exec(p, EMPTY_WORLD, before + [Save(v, path)] + after))
  {
    var events := before + [Save(v, path)] + after;
    SavedFileStays(p, before, v, path, after);
    RunIsIntact(p, events);
    FileOutcome(p, into, Exec(p, EMPTY_WORLD, events).files[path], q);
  }

  /** The same of one written file. */
  lemma FileOutcome(p: Primitives, into: Vault, f: SavedFile, q: Bytes)
    requires FileIntact(p, f)
    ensures var saved := f.snapshot.vault; var t := saved.table.value;
            var (now, r) := OpenInto(p, into, f.bytes, q);
            && ((now, r) == (saved, Ok(())) <==> FirstOpensTo(p, t, q, saved.master))
            && (r == Err(CannotOpen(NoSlotUnsealed)) <==> forall i :: 0 <= i < |t.slots| ==> !t.slots[i].Opens(p, q))
            && (r == Err(CannotOpen(VolumeMismatch)) <==>
                  exists m :: FirstOpensTo(p, t, q, m) && VolumeVerifier(p, m) != VolumeVerifier(p, saved.master))
            && (r.Ok? || r == Err(CannotOpen(NoSlotUnsealed)) || r == Err(CannotOpen(VolumeMismatch)))
            && (!r.Ok? ==> now == into)
            && (HasEnabledSlotOf(f.snapshot, q) ==> r != Err(CannotOpen(NoSlotUnsealed)))
  {
    var t := f.snapshot.vault.table.value;
    OpenWrittenFile(p, into, f, q);
    RecoversExactlyWhen(p, into, f, q);
    SearchStopsAtFirst(p, t.slots, q);
    forall m ensures FirstOpensTo(p, t, q, m) <==> t.UnsealWith(p, q).Ok? && t.UnsealWith(p, q).value.1 == m {
      FirstOpensToFound(p, t, q, m);
    }
    if t.UnsealWith(p, q).Ok? {
      assert FirstOpensTo(p, t, q, t.UnsealWith(p, q).value.1);
    }
    if HasEnabledSlotOf(f.snapshot, q) {
      CreatorFinds(p, f, q);
    }
  }

  /** The creating passphrase of an enabled slot of a written file opens some slot of it. */
  lemma CreatorFinds(p: Primitives, f: SavedFile, q: Bytes)
    requires FileIntact(p, f) && HasEnabledSlotOf(f.snapshot, q)
    ensures f.snapshot.vault.table.value.UnsealWith(p, q).Ok?
  {
    var t, origins := f.snapshot.vault.table.value, f.snapshot.origins;
    var i :| 0 <= i < |origins| && i < |t.slots| && t.slots[i].IsEnabled() && origins[i].passphrase == q;
    CreatorsHaveAccess(p, t, origins, i);
  }

  /** Recovery over whole runs. Save a vault at any point of a run and let the run go on in any way
      that does not write to the path again. Whenever the file is then opened, into whatever vault,
      with the creating passphrase of any slot that was enabled when it was saved, opening succeeds
      and gives exactly the vault as saved; and that vault decrypts everything encrypted under its
      master at any time in the run, for every domain and algorithm. */
  lemma WholeRunRecovery(p: Primitives, before: seq<Event>, v: nat, path: Path, after: seq<Event>, i: nat, into: Vault,
                         scope: Scope)
    requires KeyCommitting(p, scope) && AllInScope(p, before + [Save(v, path)] + after, scope)
    requires SavesTable(p, before, v) && Untouched(after, path)
    requires var t := Exec(p, EMPTY_WORLD, before).vaults[v].vault.table.value; i < |t.slots| && t.slots[i].IsEnabled()
    ensures var saved := Exec(p, EMPTY_WORLD, before).vaults[v];
            && i < |saved.origins|
            && OpenSavedAt(p, before, v, path, after, into, saved.origins[i].passphrase) == (saved.vault, Ok(()))
            && DecryptsAll(p, saved.vault, Exec(p, EMPTY_WORLD, before + [Save(v, path)] + after))
  {
    var events := before + [Save(v, path)] + after;
    SavedFileStays(p, before, v, path, after);
    CommittedRunIsSound(p, events, scope);
    var f := Exec(p, EMPTY_WORLD, events).files[path];
    var slots := f.snapshot.vault.table.value.slots;
    EnabledIsCreated(p, slots[i], f.snapshot.origins[i]);
    assert OriginInScope(f.snapshot.origins[i], scope);
    OpenCommittedFile(p, into, f, f.snapshot.origins[i].passphrase, scope);
  }

  /** An enabled slot of a run opens under its creating passphrase and no other. */
  lemma OpensForCreatorOnly(p: Primitives, s: KeySlot, o: Origin, q: Bytes, scope: Scope)
    requires FromOrigin(p, s, o) && q in scope.passes && OriginInScope(o, scope)
    requires KeyCommitting(p, scope) && DerivationInjective(p, scope)
    ensures s.Opens(p, q) <==> s.IsEnabled() && q == o.passphrase
  {
    EnabledIsCreated(p, s, o);
    assert Commits(p, o, q);
    if s.Opens(p, q) {
      assert SameSlotKey(p, o.passphrase, q, o.draw);
    }
  }

  /** Some enabled slot of the saved vault was created with this passphrase. */
  ghost predicate HasEnabledSlotOf(tv: TracedVault, q: Bytes)
    requires tv.vault.table.Some?
  {
    exists i :: 0 <= i < |tv.origins| && i < |tv.vault.table.value.slots|
                && tv.vault.table.value.slots[i].IsEnabled() && tv.origins[i].passphrase == q
  }

  lemma AccessToFile(p: Primitives, f: SavedFile, q: Bytes, into: Vault, scope: Scope)
    requires FileSound(p, f) && VaultInScope(f.snapshot, scope) && q in scope.passes
    requires KeyCommitting(p, scope) && DerivationInjective(p, scope)
    ensures OpenInto(p, into, f.bytes, q) ==
            if HasEnabledSlotOf(f.snapshot, q) then (f.snapshot.vault, Ok(()))
            else (into, Err(CannotOpen(NoSlotUnsealed)))
  {
    var slots := f.snapshot.vault.table.value.slots;
    OpenCommittedFile(p, into, f, q, scope);
    forall i | 0 <= i < |slots|
      ensures slots[i].Opens(p, q) <==> slots[i].IsEnabled() && f.snapshot.origins[i].passphrase == q
    {
      assert FromOrigin(p, slots[i], f.snapshot.origins[i]);
      OpensForCreatorOnly(p, slots[i], f.snapshot.origins[i], q, scope);
    }
  }

  /** Exact access over whole runs: of the run's passphrases, a saved file opens under those that
      created a slot still enabled when it was saved, each time to the vault as saved, and under no
      others; a revoked user is out unless the same passphrase also made another enabled slot. */
  lemma WholeRunAccess(p: Primitives, before: seq<Event>, v: nat, path: Path, after: seq<Event>, q: Bytes, into: Vault,
                       scope: Scope)
    requires KeyCommitting(p, scope) && DerivationInjective(p, scope)
    requires AllInScope(p, before + [Save(v, path)] + after, scope) && q in scope.passes
    requires SavesTable(p, before, v) && Untouched(after, path)
    ensures var saved := Exec(p, EMPTY_WORLD, before).vaults[v];
            OpenSavedAt(p, before, v, path, after, into, q) ==
            if HasEnabledSlotOf(saved, q) then (saved.vault, Ok(())) else (into, Err(CannotOpen(NoSlotUnsealed)))
  {
    var events := before + [Save(v, path)] + after;
    SavedFileStays(p, before, v, path, after);
    CommittedRunIsSound(p, events, scope);
    AccessToFile(p, Exec(p, EMPTY_WORLD, events).files[path], q, into, scope);
  }
}
