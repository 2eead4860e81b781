/** Why recovery needs key commitment: a lawful instance, with an injective verifier, on which a
    member of a vault cannot open the file, because another member's slot opens first under the
    wrong key and later slots are not tried. */
module NonCommitting {
  import opened Outcomes
  import opened ByteStrings
  import opened Crypto
  import opened SlotModel
  import opened Hierarchy
  import opened TableLaws
  import opened TableRuns
  import opened VaultModel
  import opened AegisCli
  import opened WholeRuns

  /** The bytes masked with the key, repeated. */
  function Mask(b: Bytes, key: Key): (r: Bytes)
    ensures |r| == |b|
  {
    seq(|b|, i requires 0 <= i < |b| => b[i] ^ key[i % 32])
  }

  lemma MaskTwice(b: Bytes, key: Key)
    ensures Mask(Mask(b, key), key) == b
  {
    forall i | 0 <= i < |b| ensures Mask(Mask(b, key), key)[i] == b[i] {
      XorTwice(b[i], key[i % 32]);
    }
  }

  lemma XorTwice(a: byte, k: byte)
    ensures (a ^ k) ^ k == a
  {
  }

  function MaskSeal(algo: AeadAlgo, key: Key, nonce: Bytes, plaintext: Bytes, aad: Bytes): Option<Bytes> {
    Some(Mask(plaintext, key) + Zeros(TAG_LEN))
  }

  function MaskOpen(algo: AeadAlgo, key: Key, nonce: Bytes, ciphertext: Bytes, aad: Bytes): Option<Bytes> {
    if |ciphertext| >= TAG_LEN && ciphertext[|ciphertext| - TAG_LEN..] == Zeros(TAG_LEN) then
      Some(Mask(ciphertext[..|ciphertext| - TAG_LEN], key))
    else None
  }

  const MASK := Suite(ToyArgon2id, ToyHkdf, (key, data) => ToyKeyedHash([], key, data), MaskSeal, MaskOpen)

  lemma MaskIsLawful()
    ensures Lawful(MASK)
  {
    forall a: AeadAlgo, k: Key, n: Bytes, pt: Bytes, aad: Bytes
      ensures MaskOpen(a, k, n, Mask(pt, k) + Zeros(TAG_LEN), aad) == Some(pt)
    {
      MaskedOpens(a, k, n, pt, k, aad);
      MaskTwice(pt, k);
    }
    forall a: AeadAlgo, k: Key, n: Bytes, ct: Bytes, aad: Bytes | MASK.open(a, k, n, ct, aad).Some?
      ensures MASK.seal(a, k, n, MASK.open(a, k, n, ct, aad).value, aad) == Some(ct)
    {
      MaskTwice(ct[..|ct| - TAG_LEN], k);
      assert ct == ct[..|ct| - TAG_LEN] + ct[|ct| - TAG_LEN..];
    }
  }

  /** Every key opens everything. */
  lemma MaskedOpens(algo: AeadAlgo, k: Key, nonce: Bytes, pt: Bytes, k': Key, aad: Bytes)
    ensures MaskOpen(algo, k', nonce, Mask(pt, k) + Zeros(TAG_LEN), aad) == Some(Mask(Mask(pt, k), k'))
  {
    var ct := Mask(pt, k) + Zeros(TAG_LEN);
    assert ct[..|ct| - TAG_LEN] == Mask(pt, k) && ct[|ct| - TAG_LEN..] == Zeros(TAG_LEN);
  }

  lemma SameMasterSameKey(pt: Key, k: Key, k': Key)
    requires Mask(Mask(pt, k), k') == pt
    ensures k == k'
  {
    forall i | 0 <= i < 32 ensures k[i] == k'[i] {
      assert Mask(Mask(pt, k), k')[i] == (pt[i] ^ k[i]) ^ k'[i];
      XorCancels(pt[i], k[i], k'[i]);
    }
  }

  lemma XorCancels(a: byte, b: byte, c: byte)
    ensures (a ^ b) ^ c == a <==> b == c
  {
  }

  ghost const MASK_PRIMITIVES: Primitives := (MaskIsLawful(); MASK)

  lemma MaskCreates(o: Origin)
    ensures o.Creation(MASK_PRIMITIVES).Ok?
    ensures o.Creation(MASK_PRIMITIVES).value.IsEnabled()
    ensures o.Creation(MASK_PRIMITIVES).value.ct == Mask(o.master, Fit(o.passphrase, 32)) + Zeros(TAG_LEN)
  {
    assert ENABLED & ENABLED != 0;
  }

  /** The second member's passphrase unseals the first slot, to another master. */
  lemma FirstSlotOpensWrongly(a: Origin, q: Bytes)
    requires Fit(a.passphrase, 32) != Fit(q, 32)
    ensures a.Creation(MASK_PRIMITIVES).Ok? && a.Creation(MASK_PRIMITIVES).value.Opens(MASK_PRIMITIVES, q)
    ensures a.Creation(MASK_PRIMITIVES).value.Unseal(MASK_PRIMITIVES, q).value != a.master
  {
    MaskCreates(a);
    MaskedOpens(Aes256Gcm, Fit(a.passphrase, 32), a.draw.nonce, a.master, Fit(q, 32), HEADER_MAGIC);
    if Mask(Mask(a.master, Fit(a.passphrase, 32)), Fit(q, 32)) == a.master {
      SameMasterSameKey(a.master, Fit(a.passphrase, 32), Fit(q, 32));
    }
  }

  /** The run: make a vault, seal it for one member, add another, save. */
  function TwoMemberRun(a: Origin, b: Origin, headerSalt: Key, path: Path): seq<Event> {
    BeforeSaving(a, b, headerSalt) + [Save(0, path)]
  }

  function BeforeSaving(a: Origin, b: Origin, headerSalt: Key): seq<Event> {
    Sealing(a, headerSalt) + [AddToVault(0, b.passphrase, headerSalt, b.draw)]
  }

  function Sealing(a: Origin, headerSalt: Key): seq<Event> {
    [MakeVault(a.master), SealVault(0, a.passphrase, headerSalt, a.draw)]
  }

  /** A vault whose table has the slots of these origins. */
  ghost function VaultOf(a: Origin, headerSalt: Key, origins: seq<Origin>, slots: seq<KeySlot>): TracedVault {
    var t := Table(headerSalt, slots, VolumeVerifier(MASK_PRIMITIVES, a.master));
    TracedVault(Vault(a.master, HierarchyOf(MASK_PRIMITIVES, a.master), Some(t)), origins)
  }

  /** The vault at the end of the run, with a slot for each. */
  ghost function TwoMemberVault(a: Origin, b: Origin, headerSalt: Key): TracedVault
    requires a.Creation(MASK_PRIMITIVES).Ok? && b.Creation(MASK_PRIMITIVES).Ok?
  {
    VaultOf(a, headerSalt, [a, b], [a.Creation(MASK_PRIMITIVES).value, b.Creation(MASK_PRIMITIVES).value])
  }

  ghost function SavedVault(a: Origin, b: Origin, headerSalt: Key): SavedFile
    requires a.Creation(MASK_PRIMITIVES).Ok? && b.Creation(MASK_PRIMITIVES).Ok?
  {
    var tv := TwoMemberVault(a, b, headerSalt);
    SavedFile(VaultFile(MASK_PRIMITIVES, tv.vault.table.value), tv)
  }

  lemma ExecOne(p: Primitives, w: World, events: seq<Event>, e: Event)
    ensures Exec(p, w, events + [e]) == Next(p, Exec(p, w, events), e)
  {
    assert (events + [e])[..|events|] == events;
  }

  lemma AfterSealing(a: Origin, headerSalt: Key)
    requires a.Creation(MASK_PRIMITIVES).Ok?
    ensures Exec(MASK_PRIMITIVES, EMPTY_WORLD, Sealing(a, headerSalt)) ==
            World([VaultOf(a, headerSalt, [a], [a.Creation(MASK_PRIMITIVES).value])], map[], [])
  {
    var p := MASK_PRIMITIVES;
    ExecOne(p, EMPTY_WORLD, [], MakeVault(a.master));
    ExecOne(p, EMPTY_WORLD, [MakeVault(a.master)], SealVault(0, a.passphrase, headerSalt, a.draw));
    assert [] + [MakeVault(a.master)] == [MakeVault(a.master)];
    NewVaultIsConsistent(p, a.master, [], [], 0, 0);
    SameMasterSameVault(p, FromMasterKey(p, a.master).value);
  }

  lemma AddsSecond(a: Origin, b: Origin, headerSalt: Key)
    requires a.master == b.master && a.Creation(MASK_PRIMITIVES).Ok? && b.Creation(MASK_PRIMITIVES).Ok?
    ensures var tv := VaultOf(a, headerSalt, [a], [a.Creation(MASK_PRIMITIVES).value]);
            Updated(MASK_PRIMITIVES, World([tv], map[], []), tv, AddToVault(0, b.passphrase, headerSalt, b.draw)) ==
            TwoMemberVault(a, b, headerSalt)
  {
    var p := MASK_PRIMITIVES;
    AddOutcome(p, VaultOf(a, headerSalt, [a], [a.Creation(p).value]).vault.table.value, a.master, b.passphrase, b.draw);
    assert [a] + [b] == [a, b];
    assert [a.Creation(p).value] + [b.Creation(p).value] == [a.Creation(p).value, b.Creation(p).value];
  }

  lemma AfterAdding(a: Origin, b: Origin, headerSalt: Key)
    requires a.master == b.master && a.Creation(MASK_PRIMITIVES).Ok? && b.Creation(MASK_PRIMITIVES).Ok?
    ensures Exec(MASK_PRIMITIVES, EMPTY_WORLD, BeforeSaving(a, b, headerSalt)) ==
            World([TwoMemberVault(a, b, headerSalt)], map[], [])
  {
    var p, add := MASK_PRIMITIVES, AddToVault(0, b.passphrase, headerSalt, b.draw);
    var tv := VaultOf(a, headerSalt, [a], [a.Creation(p).value]);
    AfterSealing(a, headerSalt);
    AddsSecond(a, b, headerSalt);
    ExecOne(p, EMPTY_WORLD, Sealing(a, headerSalt), add);
    NextOfVaultCall(p, World([tv], map[], []), add);
  }

  lemma AfterSave(p: Primitives, tv: TracedVault, path: Path)
    requires tv.vault.table.Some?
    ensures Next(p, World([tv], map[], []), Save(0, path)) ==
            World([tv], map[path := SavedFile(VaultFile(p, tv.vault.table.value), tv)], [])
  {
  }

  lemma RunOfTwoMembers(a: Origin, b: Origin, headerSalt: Key, path: Path)
    requires a.master == b.master && a.Creation(MASK_PRIMITIVES).Ok? && b.Creation(MASK_PRIMITIVES).Ok?
    ensures Exec(MASK_PRIMITIVES, EMPTY_WORLD, TwoMemberRun(a, b, headerSalt, path)) ==
            World([TwoMemberVault(a, b, headerSalt)], map[path := SavedVault(a, b, headerSalt)], [])
  {
    AfterAdding(a, b, headerSalt);
    AfterSave(MASK_PRIMITIVES, TwoMemberVault(a, b, headerSalt), path);
    ExecOne(MASK_PRIMITIVES, EMPTY_WORLD, BeforeSaving(a, b, headerSalt), Save(0, path));
  }

  /** The second member's own slot unseals to the vault's master. */
  lemma OwnSlotIsRight(a: Origin, b: Origin, headerSalt: Key)
    requires a.master == b.master && a.Creation(MASK_PRIMITIVES).Ok? && b.Creation(MASK_PRIMITIVES).Ok?
    ensures var tv := TwoMemberVault(a, b, headerSalt);
            && tv.vault.table.value.slots[1].Unseal(MASK_PRIMITIVES, b.passphrase) == Ok(tv.vault.master)
            && HasEnabledSlotOf(tv, b.passphrase)
  {
    SealingLaw(MASK_PRIMITIVES, b.master, b.passphrase, SLOT_M_COST, SLOT_T_COST, b.draw);
    var tv := TwoMemberVault(a, b, headerSalt);
    assert tv.vault.table.value.slots[1].IsEnabled() && tv.origins[1].passphrase == b.passphrase;
  }

  /** The saved file is refused to the second member. */
  lemma RefusedOnFirst(a: Origin, b: Origin, headerSalt: Key, into: Vault)
    requires a.master == b.master && Fit(a.passphrase, 32) != Fit(b.passphrase, 32)
    requires a.Creation(MASK_PRIMITIVES).Ok? && b.Creation(MASK_PRIMITIVES).Ok?
    requires FileIntact(MASK_PRIMITIVES, SavedVault(a, b, headerSalt))
    ensures OpenInto(MASK_PRIMITIVES, into, SavedVault(a, b, headerSalt).bytes, b.passphrase) ==
            (into, Err(CannotOpen(VolumeMismatch)))
  {
    var p, f := MASK_PRIMITIVES, SavedVault(a, b, headerSalt);
    var t := f.snapshot.vault.table.value;
    OpenWrittenFile(p, into, f, b.passphrase);
    FirstSlotOpensWrongly(a, b.passphrase);
    assert t.UnsealWith(p, b.passphrase) == Ok((0, t.slots[0].Unseal(p, b.passphrase).value));
    MaskVerifier(a.master);
    MaskVerifier(t.slots[0].Unseal(p, b.passphrase).value);
  }

  /** A refused reopening leaves the world as it is. */
  lemma RefusedReopenChangesNothing(p: Primitives, w: World, v: nat, path: Path, q: Bytes)
    requires v < |w.vaults| && path in w.files
    requires var (after, r) := OpenInto(p, w.vaults[v].vault, w.files[path].bytes, q);
             after == w.vaults[v].vault && !r.Ok?
    ensures Next(p, w, Reopen(v, path, q)) == w
  {
    NextOfVaultCall(p, w, Reopen(v, path, q));
    assert w.vaults[v := w.vaults[v]] == w.vaults;
  }

  /** At the end of this run the second member's own slot gives the right master, yet opening the
      file with that member's passphrase is refused on the verifier check of the first slot, into any
      vault: reopening leaves the world as it is. */
  lemma RecoveryFailsWithoutCommitment(a: Origin, b: Origin, headerSalt: Key, path: Path, into: Vault)
    requires a.master == b.master && Fit(a.passphrase, 32) != Fit(b.passphrase, 32)
    ensures var p := MASK_PRIMITIVES;
            var end := Exec(p, EMPTY_WORLD, TwoMemberRun(a, b, headerSalt, path));
            && |end.vaults| == 1 && path in end.files && end.vaults[0].vault.table.Some?
            && HasEnabledSlotOf(end.vaults[0], b.passphrase)
            && |end.vaults[0].vault.table.value.slots| == 2
            && end.vaults[0].vault.table.value.slots[1].Unseal(p, b.passphrase) == Ok(end.vaults[0].vault.master)
            && OpenInto(p, into, end.files[path].bytes, b.passphrase) == (into, Err(CannotOpen(VolumeMismatch)))
            && Exec(p, EMPTY_WORLD, TwoMemberRun(a, b, headerSalt, path) + [Reopen(0, path, b.passphrase)]) == end
  {
    var p, run := MASK_PRIMITIVES, TwoMemberRun(a, b, headerSalt, path);
    MaskCreates(a);
    MaskCreates(b);
    RunOfTwoMembers(a, b, headerSalt, path);
    RunIsIntact(p, run);
    var w := Exec(p, EMPTY_WORLD, run);
    assert FileIntact(p, w.files[path]);
    OwnSlotIsRight(a, b, headerSalt);
    RefusedOnFirst(a, b, headerSalt, into);
    RefusedOnFirst(a, b, headerSalt, w.vaults[0].vault);
    RefusedReopenChangesNothing(p, w, 0, path, b.passphrase);
    ExecOne(p, EMPTY_WORLD, run, Reopen(0, path, b.passphrase));
  }

  /** The verifier of this instance is injective: only key commitment is missing. */
  lemma MaskVerifierInjective(known: set<Key>)
    ensures VerifierInjective(MASK_PRIMITIVES, known)
  {
    forall m, m' | && m in known && m' in known
                   && VolumeVerifier(MASK_PRIMITIVES, m) == VolumeVerifier(MASK_PRIMITIVES, m')
      ensures m == m'
    {
      MaskVerifier(m);
      MaskVerifier(m');
    }
  }

  lemma MaskVerifier(m: Key)
    ensures VolumeVerifier(MASK_PRIMITIVES, m) == m
  {
  }
}
