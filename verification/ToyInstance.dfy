/** The hypotheses that the theorems name hold together, of one lawful instance on runs that do
    something: they contradict neither each other nor the laws of the primitives. */
module ToyInstance {
  import opened ByteStrings
  import opened Crypto
  import opened SlotModel
  import opened SlotCodec
  import CodecLaws
  import opened TableRuns
  import opened VaultModel
  import opened AegisCli
  import opened WholeRuns
  import opened CliRuns

  ghost function ToyPrimitives(marked: Bytes): Primitives {
    ToyIsLawful(marked);
    Toy(marked)
  }

  lemma ToyVerifier(marked: Bytes, m: Key)
    ensures VolumeVerifier(ToyPrimitives(marked), m) == m
  {
  }

  lemma ToyVerifierInjective(marked: Bytes, known: set<Key>)
    ensures VerifierInjective(ToyPrimitives(marked), known)
  {
    forall m, m' | && m in known && m' in known
                   && VolumeVerifier(ToyPrimitives(marked), m) == VolumeVerifier(ToyPrimitives(marked), m')
      ensures m == m'
    {
      ToyVerifier(marked, m);
      ToyVerifier(marked, m');
    }
  }

  lemma ToyCommits(marked: Bytes, o: Origin, q: Bytes)
    requires |o.passphrase| == 16 && |q| == 16
    ensures Commits(ToyPrimitives(marked), o, q)
  {
    var a := o.passphrase;
    var k, k' := Fit(a, 32), Fit(q, 32);
    assert k == a + Zeros(16) && k' == q + Zeros(16);
    assert k[..TAG_LEN] == a && k'[..TAG_LEN] == q;
    var ct := o.master + k[..TAG_LEN];
    assert ct[|ct| - TAG_LEN..] == a;
  }

  lemma ToyDerives(a: Bytes, b: Bytes)
    requires |a| == 16 && |b| == 16 && Fit(a, 32) == Fit(b, 32)
    ensures a == b
  {
    assert Fit(a, 32)[..16] == a && Fit(b, 32)[..16] == b;
  }

  lemma ToyAssumptions(marked: Bytes, scope: Scope)
    requires forall a :: a in scope.passes ==> |a| == 16
    ensures Assumptions(ToyPrimitives(marked), scope) && DerivationInjective(ToyPrimitives(marked), scope)
  {
    var p := ToyPrimitives(marked);
    forall o: Origin, q | OriginInScope(o, scope) && q in scope.passes
      ensures Commits(p, o, q)
    {
      ToyCommits(marked, o, q);
    }
    forall a, b, d | a in scope.passes && b in scope.passes && d in scope.draws && SameSlotKey(p, a, b, d)
      ensures a == b
    {
      ToyDerives(a, b);
    }
  }

  /** The toy MAC tells the marked body from every other. */
  lemma ToyMacs(t: Table, u: Table, headerSalt: Key)
    requires Body(t) != Body(u)
    ensures CodecLaws.MacCollisionFree(ToyPrimitives(Body(t)), headerSalt, {Body(t), Body(u)})
  {
    var p := ToyPrimitives(Body(t));
    assert p.keyedHash(headerSalt, Body(t)) == Zeros(31) + [1];
    assert p.keyedHash(headerSalt, Body(u)) == Zeros(32);
    assert (Zeros(31) + [1])[31] == 1 && Zeros(32)[31] == 0;
  }

  /** Every hypothesis at once, of one lawful suite: for every scope of 16-byte passphrases with any
      draws and masters, and for every two tables that differ in any slot field or the verifier. */
  lemma HypothesesAreSatisfiable(scope: Scope, t: Table, u: Table)
    requires forall a :: a in scope.passes ==> |a| == 16
    requires Body(t) != Body(u)
    ensures var p := ToyPrimitives(Body(t));
            && KeyCommitting(p, scope) && DerivationInjective(p, scope) && PlaceholderUnlocks(p)
            && CoversRecoverable(p, scope, scope.masters) && VerifierInjective(p, scope.masters)
            && CodecLaws.MacCollisionFree(p, t.headerSalt, {Body(t), Body(u)})
  {
    ToyVerifierInjective(Body(t), scope.masters);
    ToyAssumptions(Body(t), scope);
    CommitmentCovers(ToyPrimitives(Body(t)), scope);
    ToyMacs(t, u, t.headerSalt);
  }

  lemma InitSucceeds(marked: Bytes, pass: Bytes, headerSalt: Key, draw: SlotDraw)
    ensures AfterInit(ToyPrimitives(marked), pass, headerSalt, draw).Some?
  {
    var p := ToyPrimitives(marked);
    NewVaultIsConsistent(p, Zeros(32), pass, CLI_SALT, MEM_KIB, ITERS);
    var v := Unlock(p, pass, CLI_SALT, MEM_KIB, ITERS).value;
    assert CreateSlot(p, v.master, pass, SLOT_M_COST, SLOT_T_COST, draw).Ok?;
  }

  /** On this suite the commands that the theorems speak about succeed: a vault file is made, and
      a member seals data with it. */
  lemma CommandsSucceed(marked: Bytes, pass: Bytes, headerSalt: Key, draw: SlotDraw, data: Bytes, nonce: Bytes)
    requires |pass| == 16 && |nonce| == NonceLen(XChaCha20Poly1305)
    ensures var p := ToyPrimitives(marked);
            && AfterInit(p, pass, headerSalt, draw).Some?
            && SealCommand(p, AfterInit(p, pass, headerSalt, draw).value.bytes, pass, data, nonce).Ok?
  {
    var p := ToyPrimitives(marked);
    var scope := Scope({pass}, {draw}, {Fit(pass, 32)});
    InitSucceeds(marked, pass, headerSalt, draw);
    ToyAssumptions(marked, scope);
    InitSettles(p, pass, headerSalt, draw, scope);
    MemberOpens(p, AfterInit(p, pass, headerSalt, draw).value, pass, scope);
  }
}
