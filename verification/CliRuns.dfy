/** The life of one vault file on the command line: `aegis init`, then any number of `aegis add`,
    with `aegis seal`, `aegis open` and `aegis verify` in between. */
module CliRuns {
  import opened Outcomes
  import opened ByteStrings
  import opened Crypto
  import opened Hierarchy
  import opened SlotModel
  import opened SlotCodec
  import opened TableRuns
  import opened VaultModel
  import opened AegisCli
  import opened WholeRuns

  /** The placeholder vault that every command unlocks first can be derived. */
  ghost predicate PlaceholderUnlocks(p: Primitives) {
    p.argon2id(IGNORED, CLI_SALT, MEM_KIB, ITERS).Some?
  }

  /** One run of `aegis add` with the values it draws. */
  datatype AddRun = AddRun(pass: Bytes, newPass: Bytes, headerSalt: Key, draw: SlotDraw)

  /** A sound file whose slots are all enabled: the command line never revokes. */
  ghost predicate MembersFile(p: Primitives, f: SavedFile) {
    && FileSound(p, f)
    && forall i :: 0 <= i < |f.snapshot.vault.table.value.slots| ==> f.snapshot.vault.table.value.slots[i].IsEnabled()
  }

  predicate IsMember(f: SavedFile, pass: Bytes) {
    exists i :: 0 <= i < |f.snapshot.origins| && f.snapshot.origins[i].passphrase == pass
  }

  /** The file `init` writes, with the vault it was written from; nothing if `init` fails. */
  ghost function AfterInit(p: Primitives, pass: Bytes, headerSalt: Key, draw: SlotDraw): Option<SavedFile> {
    match InitCommand(p, pass, headerSalt, draw)
    case Ok(bytes) =>
      var v := Unlock(p, pass, CLI_SALT, MEM_KIB, ITERS).value;
      Some(SavedFile(bytes, TracedVault(v.SealSlots(p, pass, headerSalt, draw).0, [Origin(v.master, pass, draw)])))
    case _ => None
  }

  /** The file after one `add`: a failing command does not write. */
  ghost function AfterAdd(p: Primitives, f: SavedFile, a: AddRun): SavedFile {
    match AddCommand(p, f.bytes, a.pass, a.newPass, a.headerSalt, a.draw)
    case Ok(bytes) =>
      var v := OpenVaultFile(p, f.bytes, a.pass).value;
      SavedFile(bytes, TracedVault(v.AddSlot(p, a.newPass, a.headerSalt, a.draw).0,
                                   f.snapshot.origins + [Origin(v.master, a.newPass, a.draw)]))
    case _ => f
  }

  ghost function AfterAdds(p: Primitives, f: SavedFile, adds: seq<AddRun>): SavedFile {
    if adds == [] then f else AfterAdd(p, AfterAdds(p, f, adds[..|adds| - 1]), adds[|adds| - 1])
  }

  predicate AddInScope(a: AddRun, scope: Scope) {
    a.pass in scope.passes && a.newPass in scope.passes && a.draw in scope.draws
  }

  predicate AddsInScope(adds: seq<AddRun>, scope: Scope) {
    forall i :: 0 <= i < |adds| ==> AddInScope(adds[i], scope)
  }

  /** The scope holds what `init` is given, and the master it derives. */
  predicate InitInScope(p: Primitives, pass: Bytes, draw: SlotDraw, scope: Scope) {
    var derived := p.argon2id(pass, CLI_SALT, MEM_KIB, ITERS);
    pass in scope.passes && draw in scope.draws && (derived.Some? ==> derived.value in scope.masters)
  }

  /** What the theorems need of the file and of the primitives, kept by every command. */
  ghost predicate Settled(p: Primitives, f: SavedFile, scope: Scope) {
    MembersFile(p, f) && VaultInScope(f.snapshot, scope)
  }

  ghost predicate Assumptions(p: Primitives, scope: Scope) {
    PlaceholderUnlocks(p) && KeyCommitting(p, scope)
  }

  /** Every member opens the file, to the vault it was written from. */
  lemma MemberOpens(p: Primitives, f: SavedFile, pass: Bytes, scope: Scope)
    requires Assumptions(p, scope) && Settled(p, f, scope) && IsMember(f, pass)
    ensures OpenVaultFile(p, f.bytes, pass) == Ok(f.snapshot.vault)
  {
    var i :| 0 <= i < |f.snapshot.origins| && f.snapshot.origins[i].passphrase == pass;
    var slots := f.snapshot.vault.table.value.slots;
    EnabledIsCreated(p, slots[i], f.snapshot.origins[i]);
    OpenAnyone(p, f, pass, scope);
  }

  /** Any passphrase opens the file to the vault it was written from, or is told that no slot
      opened; a member is never told so. */
  lemma OpenAnyone(p: Primitives, f: SavedFile, pass: Bytes, scope: Scope)
    requires Assumptions(p, scope) && Settled(p, f, scope) && pass in scope.passes
    ensures var slots := f.snapshot.vault.table.value.slots;
            OpenVaultFile(p, f.bytes, pass) ==
            if exists i :: 0 <= i < |slots| && slots[i].Opens(p, pass) then Ok(f.snapshot.vault)
            else Err(CannotOpen(NoSlotUnsealed))
  {
    var t := f.snapshot.vault.table.value;
    FileRoundTrip(f.bytes, Printed(p, t), t.headerSalt);
    NewVaultIsConsistent(p, Zeros(32), IGNORED, CLI_SALT, MEM_KIB, ITERS);
    OpenCommittedFile(p, Unlock(p, IGNORED, CLI_SALT, MEM_KIB, ITERS).value, f, pass, scope);
  }

  /** Where no foreign master can be restored, whoever opens the file gets the vault it was written
      from or one of two refusals. */
  lemma OpenGuarded(p: Primitives, f: SavedFile, pass: Bytes, scope: Scope)
    requires Guarded(p, scope) && Settled(p, f, scope) && pass in scope.passes
    ensures var r := OpenVaultFile(p, f.bytes, pass);
            && (r.Ok? ==> r.value == f.snapshot.vault)
            && (PlaceholderUnlocks(p) && !r.Ok? ==> IsRefusal(r.PropagateFailure()))
  {
    var t := f.snapshot.vault.table.value;
    FileRoundTrip(f.bytes, Printed(p, t), t.headerSalt);
    NewVaultIsConsistent(p, Zeros(32), IGNORED, CLI_SALT, MEM_KIB, ITERS);
    if PlaceholderUnlocks(p) {
      var placeholder := Unlock(p, IGNORED, CLI_SALT, MEM_KIB, ITERS).value;
      OpenWrittenFile(p, placeholder, f, pass);
      assert OpensExactly(p, f, pass);
      assert OpensAsSaved(p, placeholder, f, pass);
    }
  }

  /** No slot opened, or the first that did gave a master that the verifier rejects. */
  predicate IsRefusal(r: CliResult<Bytes>) {
    r == Err(CannotOpen(NoSlotUnsealed)) || r == Err(CannotOpen(VolumeMismatch))
  }

  /** With injective derivation as well, the file opens for its members and for nobody else. */
  lemma OpensForMembersOnly(p: Primitives, f: SavedFile, pass: Bytes, scope: Scope)
    requires Assumptions(p, scope) && DerivationInjective(p, scope) && Settled(p, f, scope) && pass in scope.passes
    ensures OpenVaultFile(p, f.bytes, pass) ==
            if IsMember(f, pass) then Ok(f.snapshot.vault) else Err(CannotOpen(NoSlotUnsealed))
  {
    var slots := f.snapshot.vault.table.value.slots;
    OpenAnyone(p, f, pass, scope);
    forall i | 0 <= i < |slots|
      ensures slots[i].Opens(p, pass) <==> f.snapshot.origins[i].passphrase == pass
    {
      assert FromOrigin(p, slots[i], f.snapshot.origins[i]);
      assert OriginInScope(f.snapshot.origins[i], scope);
      OpensForCreatorOnly(p, slots[i], f.snapshot.origins[i], pass, scope);
    }
  }

  lemma InitSettles(p: Primitives, pass: Bytes, headerSalt: Key, draw: SlotDraw, scope: Scope)
    requires InitInScope(p, pass, draw, scope)
    requires AfterInit(p, pass, headerSalt, draw).Some?
    ensures Settled(p, AfterInit(p, pass, headerSalt, draw).value, scope)
    ensures InitCommand(p, pass, headerSalt, draw) == Ok(AfterInit(p, pass, headerSalt, draw).value.bytes)
    ensures forall q :: IsMember(AfterInit(p, pass, headerSalt, draw).value, q) <==> q == pass
  {
    var v := Unlock(p, pass, CLI_SALT, MEM_KIB, ITERS).value;
    var f := AfterInit(p, pass, headerSalt, draw).value;
    NewVaultIsConsistent(p, v.master, pass, CLI_SALT, MEM_KIB, ITERS);
    SealedIsIntact(p, Origin(v.master, pass, draw), headerSalt);
    SealingLaw(p, v.master, pass, SLOT_M_COST, SLOT_T_COST, draw);
    assert f.snapshot.origins[0].passphrase == pass;
  }

  /** What `add` does to a file that its passphrase opens to `v`. */
  lemma AddOnOpened(p: Primitives, f: SavedFile, a: AddRun, v: Vault, t: Table)
    requires OpenVaultFile(p, f.bytes, a.pass) == Ok(v) && v.table == Some(t)
    ensures var (after, r) := t.AddSlot(p, v.master, a.newPass, a.draw);
            && (AddCommand(p, f.bytes, a.pass, a.newPass, a.headerSalt, a.draw).Ok? <==> r.Ok?)
            && AfterAdd(p, f, a) ==
               if r.Ok? then
                 SavedFile(VaultFile(p, after),
                           TracedVault(v.(table := Some(after)),
                                       f.snapshot.origins + [Origin(v.master, a.newPass, a.draw)]))
               else f
  {
  }

  /** Adding under the vault's master keeps a file sound, with all slots enabled. */
  lemma AppendedIsSettled(p: Primitives, f: SavedFile, o: Origin, after: Table, scope: Scope)
    requires Settled(p, f, scope)
    requires o.master == f.snapshot.vault.master && OriginInScope(o, scope)
    requires f.snapshot.vault.table.value.AddSlot(p, o.master, o.passphrase, o.draw).0 == after
    requires f.snapshot.vault.table.value.AddSlot(p, o.master, o.passphrase, o.draw).1.Ok?
    ensures var now := TracedVault(f.snapshot.vault.(table := Some(after)), f.snapshot.origins + [o]);
            Settled(p, SavedFile(VaultFile(p, after), now), scope)
  {
    var t := f.snapshot.vault.table.value;
    AddKeepsIntact(p, t, f.snapshot.origins, o);
    SealingLaw(p, o.master, o.passphrase, SLOT_M_COST, SLOT_T_COST, o.draw);
  }

  /** The earlier file's vault has the same master, and its slots' origins come first. */
  ghost predicate Continues(f: SavedFile, g: SavedFile) {
    g.snapshot.vault.master == f.snapshot.vault.master && f.snapshot.origins <= g.snapshot.origins
  }

  /** One `add`: the members keep their places and their master, and the new passphrase becomes
      one of them exactly if the command wrote the file. */
  lemma AddSettles(p: Primitives, f: SavedFile, a: AddRun, scope: Scope)
    requires Guarded(p, scope) && Settled(p, f, scope) && AddInScope(a, scope)
    ensures Settled(p, AfterAdd(p, f, a), scope) && Continues(f, AfterAdd(p, f, a))
    ensures var command := AddCommand(p, f.bytes, a.pass, a.newPass, a.headerSalt, a.draw);
            AfterAdd(p, f, a).bytes == if command.Ok? then command.value else f.bytes
    ensures var wrote := AddCommand(p, f.bytes, a.pass, a.newPass, a.headerSalt, a.draw).Ok?;
            forall q :: IsMember(AfterAdd(p, f, a), q) <==> IsMember(f, q) || (wrote && q == a.newPass)
  {
    OpenGuarded(p, f, a.pass, scope);
    var v := f.snapshot.vault;
    var t := v.table.value;
    if OpenVaultFile(p, f.bytes, a.pass).Ok? {
      AddOnOpened(p, f, a, v, t);
      var (after, r) := t.AddSlot(p, v.master, a.newPass, a.draw);
      if r.Ok? {
        var o := Origin(v.master, a.newPass, a.draw);
        AppendedIsSettled(p, f, o, after, scope);
        AppendedMember(f, AfterAdd(p, f, a), o);
      }
    }
  }

  lemma AppendedMember(f: SavedFile, g: SavedFile, o: Origin)
    requires g.snapshot.origins == f.snapshot.origins + [o]
    ensures forall q :: IsMember(g, q) <==> IsMember(f, q) || q == o.passphrase
  {
    assert g.snapshot.origins[|f.snapshot.origins|] == o;
    MembersContinue(f, g);
  }

  /** Only a member's passphrase adds another. */
  lemma OnlyMembersAdd(p: Primitives, f: SavedFile, a: AddRun, scope: Scope)
    requires Assumptions(p, scope) && DerivationInjective(p, scope) && Settled(p, f, scope) && AddInScope(a, scope)
    requires !IsMember(f, a.pass)
    ensures AddCommand(p, f.bytes, a.pass, a.newPass, a.headerSalt, a.draw) == Err(CannotOpen(NoSlotUnsealed))
    ensures AfterAdd(p, f, a) == f
  {
    OpensForMembersOnly(p, f, a.pass, scope);
  }

  lemma {:induction false} AddsSettle(p: Primitives, f: SavedFile, adds: seq<AddRun>, scope: Scope)
    requires Guarded(p, scope) && Settled(p, f, scope)
    requires AddsInScope(adds, scope)
    ensures Settled(p, AfterAdds(p, f, adds), scope) && Continues(f, AfterAdds(p, f, adds))
  {
    if adds == [] {
    } else {
      var n := |adds| - 1;
      AddsSettle(p, f, adds[..n], scope);
      AddSettles(p, AfterAdds(p, f, adds[..n]), adds[n], scope);
    }
  }

  lemma {:induction false} AddsSplit(p: Primitives, f: SavedFile, first: seq<AddRun>, rest: seq<AddRun>)
    ensures AfterAdds(p, f, first + rest) == AfterAdds(p, AfterAdds(p, f, first), rest)
  {
    if rest == [] {
      assert first + rest == first;
    } else {
      var n := |rest| - 1;
      AddsSplit(p, f, first, rest[..n]);
      assert (first + rest)[..|first + rest| - 1] == first + rest[..n];
    }
  }

  /** This add writes the file when it finds it so. */
  ghost predicate Writes(p: Primitives, f: SavedFile, a: AddRun) {
    AddCommand(p, f.bytes, a.pass, a.newPass, a.headerSalt, a.draw).Ok?
  }

  /** One of these adds wrote the file, with this as the new passphrase. */
  ghost predicate AddedBy(p: Primitives, f: SavedFile, adds: seq<AddRun>, pass: Bytes) {
    adds != [] &&
    var earlier, last := adds[..|adds| - 1], adds[|adds| - 1];
    AddedBy(p, f, earlier, pass) || (last.newPass == pass && Writes(p, AfterAdds(p, f, earlier), last))
  }

  /** After any adds the members are those at the start, and the new passphrases of the adds that
      wrote the file. */
  lemma {:induction false} MembersAfterAdds(p: Primitives, f: SavedFile, adds: seq<AddRun>, pass: Bytes, scope: Scope)
    requires Guarded(p, scope) && Settled(p, f, scope) && AddsInScope(adds, scope)
    ensures IsMember(AfterAdds(p, f, adds), pass) <==> IsMember(f, pass) || AddedBy(p, f, adds, pass)
  {
    if adds == [] {
    } else {
      var n := |adds| - 1;
      MembersAfterAdds(p, f, adds[..n], pass, scope);
      AddsSettle(p, f, adds[..n], scope);
      AddSettles(p, AfterAdds(p, f, adds[..n]), adds[n], scope);
    }
  }

  /** What one member seals with one file of a vault, any member opens with any file of the same
      vault, and `verify` accepts every member. Sealing fails only if the cipher refuses the data. */
  lemma SealThenOpen(p: Primitives, f: SavedFile, g: SavedFile, sealer: Bytes, opener: Bytes, data: Bytes, nonce: Bytes,
                     scope: Scope)
    requires Assumptions(p, scope) && Settled(p, f, scope) && Settled(p, g, scope)
    requires g.snapshot.vault.master == f.snapshot.vault.master
    requires IsMember(f, sealer) && IsMember(g, opener)
    requires |nonce| == NonceLen(XChaCha20Poly1305)
    ensures var blob := SealCommand(p, f.bytes, sealer, data, nonce);
            && (blob.Ok? ==> OpenCommand(p, g.bytes, opener, blob.value) == Ok(data))
            && (!blob.Ok? ==> blob == Err(EncryptFailed(AegisError.AeadSeal)))
    ensures VerifyCommand(p, g.bytes, opener) == Ok(())
  {
    MemberOpens(p, f, sealer, scope);
    MemberOpens(p, g, opener, scope);
    var v, u := f.snapshot.vault, g.snapshot.vault;
    var r := v.Encrypt(p, Enc, data, AAD, XChaCha20Poly1305, nonce);
    if r.Ok? {
      DecryptsUnderSameMaster(p, v, u, Enc, data, AAD, XChaCha20Poly1305, nonce);
      BlobRoundTrip(nonce, r.value.1);
    }
  }

  /** Whoever seals and whoever opens, member or not: where no foreign master can be restored, opening
      a sealed blob gives the data that was sealed or a refusal, never other data and never a
      decryption error. */
  lemma NeverOtherData(p: Primitives, f: SavedFile, g: SavedFile, sealer: Bytes, opener: Bytes, data: Bytes,
                       nonce: Bytes, scope: Scope)
    requires Guarded(p, scope) && Settled(p, f, scope) && Settled(p, g, scope)
    requires g.snapshot.vault.master == f.snapshot.vault.master
    requires sealer in scope.passes && opener in scope.passes
    requires |nonce| == NonceLen(XChaCha20Poly1305)
    ensures var blob := SealCommand(p, f.bytes, sealer, data, nonce);
            blob.Ok? ==>
              var r := OpenCommand(p, g.bytes, opener, blob.value);
              r == Ok(data) || IsRefusal(r)
  {
    OpenGuarded(p, f, sealer, scope);
    OpenGuarded(p, g, opener, scope);
    var v, u := f.snapshot.vault, g.snapshot.vault;
    var r := v.Encrypt(p, Enc, data, AAD, XChaCha20Poly1305, nonce);
    if SealCommand(p, f.bytes, sealer, data, nonce).Ok? {
      DecryptsUnderSameMaster(p, v, u, Enc, data, AAD, XChaCha20Poly1305, nonce);
      BlobRoundTrip(nonce, r.value.1);
    }
  }

  /** The file after init and these adds. */
  ghost function FileAfter(p: Primitives, initPass: Bytes, headerSalt: Key, draw: SlotDraw, adds: seq<AddRun>)
    : SavedFile
    requires AfterInit(p, initPass, headerSalt, draw).Some?
  {
    AfterAdds(p, AfterInit(p, initPass, headerSalt, draw).value, adds)
  }

  /** Two moments of one file's life are settled, and the later continues the earlier. */
  lemma LifeSettles(p: Primitives, initPass: Bytes, headerSalt: Key, draw: SlotDraw, earlier: seq<AddRun>,
                    later: seq<AddRun>, scope: Scope)
    requires Guarded(p, scope) && InitInScope(p, initPass, draw, scope)
    requires AddsInScope(earlier, scope) && AddsInScope(later, scope)
    requires AfterInit(p, initPass, headerSalt, draw).Some?
    ensures var start := AfterInit(p, initPass, headerSalt, draw).value;
            var f := FileAfter(p, initPass, headerSalt, draw, earlier);
            var g := FileAfter(p, initPass, headerSalt, draw, earlier + later);
            && Settled(p, f, scope) && Settled(p, g, scope)
            && Continues(start, f) && Continues(f, g) && IsMember(start, initPass)
  {
    var start := AfterInit(p, initPass, headerSalt, draw).value;
    InitSettles(p, initPass, headerSalt, draw, scope);
    AddsSettle(p, start, earlier, scope);
    AddsSplit(p, start, earlier, later);
    AddsSettle(p, AfterAdds(p, start, earlier), later, scope);
  }

  /** The life of a vault file: init, then any sequence of adds by anyone, failing or not. What a
      member of the file as it was at one time sealed, a member of the file at any later time opens,
      and the members of the earlier file are among those of the later one. */
  lemma CommandLineLifecycle(p: Primitives, initPass: Bytes, headerSalt: Key, draw: SlotDraw, earlier: seq<AddRun>,
                             later: seq<AddRun>, sealer: Bytes, opener: Bytes, data: Bytes, nonce: Bytes, scope: Scope)
    requires Assumptions(p, scope) && InitInScope(p, initPass, draw, scope)
    requires AddsInScope(earlier, scope) && AddsInScope(later, scope)
    requires AfterInit(p, initPass, headerSalt, draw).Some?
    requires |nonce| == NonceLen(XChaCha20Poly1305)
    ensures var start := AfterInit(p, initPass, headerSalt, draw).value;
            var f := FileAfter(p, initPass, headerSalt, draw, earlier);
            var g := FileAfter(p, initPass, headerSalt, draw, earlier + later);
            && IsMember(start, initPass)
            && (forall pass :: IsMember(start, pass) ==> IsMember(f, pass))
            && (forall pass :: IsMember(f, pass) ==> IsMember(g, pass))
            && (IsMember(f, sealer) && IsMember(g, opener) && SealCommand(p, f.bytes, sealer, data, nonce).Ok? ==>
                  OpenCommand(p, g.bytes, opener, SealCommand(p, f.bytes, sealer, data, nonce).value) == Ok(data))
  {
    var start := AfterInit(p, initPass, headerSalt, draw).value;
    var f := FileAfter(p, initPass, headerSalt, draw, earlier);
    var g := FileAfter(p, initPass, headerSalt, draw, earlier + later);
    CommitmentGuardsMaster(p, scope);
    LifeSettles(p, initPass, headerSalt, draw, earlier, later, scope);
    MembersContinue(start, f);
    MembersContinue(f, g);
    if IsMember(f, sealer) && IsMember(g, opener) {
      SealThenOpen(p, f, g, sealer, opener, data, nonce, scope);
    }
  }

  /** Exact access over the life of a vault file: at any time it opens, to the vault it was written
      from, for the passphrase of init and the new passphrases of the adds that wrote it, and for no
      other passphrase of the scope; nor can another add itself. */
  lemma CommandLineAccess(p: Primitives, initPass: Bytes, headerSalt: Key, draw: SlotDraw, adds: seq<AddRun>,
                          pass: Bytes, next: AddRun, scope: Scope)
    requires Assumptions(p, scope) && DerivationInjective(p, scope) && InitInScope(p, initPass, draw, scope)
    requires AddsInScope(adds, scope) && pass in scope.passes && AddInScope(next, scope)
    requires AfterInit(p, initPass, headerSalt, draw).Some?
    ensures var start := AfterInit(p, initPass, headerSalt, draw).value;
            var f := FileAfter(p, initPass, headerSalt, draw, adds);
            && OpenVaultFile(p, f.bytes, pass) ==
               (if IsMember(f, pass) then Ok(f.snapshot.vault) else Err(CannotOpen(NoSlotUnsealed)))
            && (IsMember(f, pass) <==> pass == initPass || AddedBy(p, start, adds, pass))
            && (!IsMember(f, next.pass) ==> AfterAdd(p, f, next) == f)
  {
    var f := FileAfter(p, initPass, headerSalt, draw, adds);
    CommitmentGuardsMaster(p, scope);
    LifeSettles(p, initPass, headerSalt, draw, adds, [], scope);
    InitSettles(p, initPass, headerSalt, draw, scope);
    MembersAfterAdds(p, AfterInit(p, initPass, headerSalt, draw).value, adds, pass, scope);
    OpensForMembersOnly(p, f, pass, scope);
    if !IsMember(f, next.pass) {
      OnlyMembersAdd(p, f, next, scope);
    }
  }

  /** Safety over the life of a vault file, from the verifier alone: with no assumption on the slot
      cipher, and whoever the sealer and the opener are, opening a blob that was sealed earlier gives
      the data sealed or a refusal. */
  lemma CommandLineSafety(p: Primitives, initPass: Bytes, headerSalt: Key, draw: SlotDraw, earlier: seq<AddRun>,
                          later: seq<AddRun>, sealer: Bytes, opener: Bytes, data: Bytes, nonce: Bytes,
                          scope: Scope, known: set<Key>)
    requires CoversRecoverable(p, scope, known) && VerifierInjective(p, known) && InitInScope(p, initPass, draw, scope)
    requires AddsInScope(earlier, scope) && AddsInScope(later, scope)
    requires sealer in scope.passes && opener in scope.passes && |nonce| == NonceLen(XChaCha20Poly1305)
    requires AfterInit(p, initPass, headerSalt, draw).Some?
    ensures var f := FileAfter(p, initPass, headerSalt, draw, earlier);
            var g := FileAfter(p, initPass, headerSalt, draw, earlier + later);
            var blob := SealCommand(p, f.bytes, sealer, data, nonce);
            blob.Ok? ==>
              var r := OpenCommand(p, g.bytes, opener, blob.value);
              r == Ok(data) || IsRefusal(r)
  {
    var f := FileAfter(p, initPass, headerSalt, draw, earlier);
    var g := FileAfter(p, initPass, headerSalt, draw, earlier + later);
    VerifierGuardsMaster(p, scope, known);
    LifeSettles(p, initPass, headerSalt, draw, earlier, later, scope);
    NeverOtherData(p, f, g, sealer, opener, data, nonce, scope);
  }

  lemma MembersContinue(f: SavedFile, g: SavedFile)
    requires f.snapshot.origins <= g.snapshot.origins
    ensures forall pass :: IsMember(f, pass) ==> IsMember(g, pass)
  {
    forall pass | IsMember(f, pass) ensures IsMember(g, pass) {
      var i :| 0 <= i < |f.snapshot.origins| && f.snapshot.origins[i].passphrase == pass;
      assert g.snapshot.origins[i].passphrase == pass;
    }
  }
}
