/** Whole runs of a key-slot table: any sequence of adds, revocations and print-parse cycles,
    with the creation behind each slot and the successful calls recorded beside the table. */
module TableRuns {
  import opened Outcomes
  import opened ByteStrings
  import opened Crypto
  import opened SlotModel
  import opened SlotCodec
  import CodecLaws
  import opened TableLaws

  /** The call that created a slot. */
  datatype Origin = Origin(master: Key, passphrase: Bytes, draw: SlotDraw)
  {
    function Creation(p: Primitives): Result<KeySlot> {
      CreateSlot(p, master, passphrase, SLOT_M_COST, SLOT_T_COST, draw)
    }
  }

  datatype TableOp =
    | Add(master: Key, passphrase: Bytes, draw: SlotDraw)
    | Revoke(idx: nat)
    | Reprint

  /** A table, the origins of its slots, and how many adds and effective revocations succeeded. */
  datatype TracedTable = TracedTable(table: Table, origins: seq<Origin>, adds: nat, revocations: nat)

  ghost function Step(p: Primitives, s: TracedTable, op: TableOp): TracedTable {
    match op
    case Add(master, passphrase, draw) =>
      var (after, r) := s.table.AddSlot(p, master, passphrase, draw);
      if r.Ok? then TracedTable(after, s.origins + [Origin(master, passphrase, draw)], s.adds + 1, s.revocations)
      else s.(table := after)
    case Revoke(idx) =>
      var (after, r) := s.table.RevokeSlot(idx);
      s.(table := after, revocations := s.revocations + if r.Ok? && s.table.slots[idx].IsEnabled() then 1 else 0)
    case Reprint =>
      match Parsed(p, Printed(p, s.table), s.table.headerSalt)
      case Ok(after) => s.(table := after)
      case _ => s
  }

  ghost function Run(p: Primitives, s: TracedTable, ops: seq<TableOp>): TracedTable {
    if ops == [] then s
    else Step(p, Run(p, s, ops[..|ops| - 1]), ops[|ops| - 1])
  }

  /** A table that was parsed or passed in, with nothing recorded yet. */
  function Untraced(t: Table): TracedTable {
    TracedTable(t, [], 0, 0)
  }

  /** The slot is what its origin created, or that slot wiped. */
  predicate FromOrigin(p: Primitives, s: KeySlot, o: Origin) {
    var created := o.Creation(p);
    created.Ok? && (s == created.value || s == created.value.Wiped())
  }

  ghost predicate OriginsMatch(p: Primitives, slots: seq<KeySlot>, origins: seq<Origin>) {
    |origins| == |slots| && forall i :: 0 <= i < |slots| ==> FromOrigin(p, slots[i], origins[i])
  }

  function Max(a: nat, b: nat): nat {
    if a >= b then a else b
  }

  /** What a run may do to the slots it started with: slots never move, and each is unchanged, or
      was enabled and is now wiped. */
  ghost predicate SlotsKept(before: Table, after: Table) {
    && after.headerSalt == before.headerSalt && after.verifier == before.verifier
    && |before.slots| <= |after.slots|
    && forall i :: 0 <= i < |before.slots| ==> SlotKept(before.slots[i], after.slots[i])
  }

  predicate SlotKept(before: KeySlot, after: KeySlot) {
    after == before || (before.IsEnabled() && after == before.Wiped())
  }

  lemma SlotKeptTransitive(a: KeySlot, b: KeySlot, c: KeySlot)
    requires SlotKept(a, b) && SlotKept(b, c)
    ensures SlotKept(a, c)
  {
    WipedIsDisabled(a);
  }

  /** A successful add appends one enabled slot. */
  lemma AddEffect(p: Primitives, t: Table, master: Key, passphrase: Bytes, draw: SlotDraw)
    requires t.AddSlot(p, master, passphrase, draw).1.Ok?
    ensures var u := t.AddSlot(p, master, passphrase, draw).0;
            && SlotsKept(t, u)
            && |u.slots| == |t.slots| + 1 <= MAX_SLOTS
            && EnabledCount(u.slots) == EnabledCount(t.slots) + 1
  {
    AddOutcome(p, t, master, passphrase, draw);
    EnabledCountAppended(t.slots, CreateSlot(p, master, passphrase, SLOT_M_COST, SLOT_T_COST, draw).value);
    CreateOutcome(p, master, passphrase, SLOT_M_COST, SLOT_T_COST, draw);
  }

  /** A revocation keeps the slots in place, and one of them enabled. */
  lemma RevokeEffect(t: Table, idx: nat)
    ensures var (u, r) := t.RevokeSlot(idx);
            && SlotsKept(t, u)
            && |u.slots| == |t.slots|
            && EnabledCount(u.slots) == EnabledCount(t.slots) - (if r.Ok? && t.slots[idx].IsEnabled() then 1 else 0)
            && (EnabledCount(t.slots) >= 1 ==> EnabledCount(u.slots) >= 1)
  {
    if idx < |t.slots| {
      WipedIsDisabled(t.slots[idx]);
      EnabledCountUpdated(t.slots, idx, t.slots[idx].Wiped());
    }
  }

  /** The steps are the calls: each leaves the table that its call leaves, and is counted exactly if
      the call succeeded and had an effect; printing and parsing gives the same table back. */
  lemma StepIsCall(p: Primitives, s: TracedTable, o: Origin, idx: nat)
    requires |s.table.slots| <= MAX_COUNT
    ensures var u := Step(p, s, Add(o.master, o.passphrase, o.draw));
            var (after, r) := s.table.AddSlot(p, o.master, o.passphrase, o.draw);
            && u.table == after && u.revocations == s.revocations
            && u.adds == (if r.Ok? then s.adds + 1 else s.adds)
            && u.origins == (if r.Ok? then s.origins + [o] else s.origins)
    ensures var u := Step(p, s, Revoke(idx)); var (after, r) := s.table.RevokeSlot(idx);
            && u.table == after && u.adds == s.adds && u.origins == s.origins
            && u.revocations == (if after != s.table then s.revocations + 1 else s.revocations)
    ensures Step(p, s, Reprint) == s
  {
    RevokeOutcome(s.table, idx);
    CodecLaws.RoundTrip(p, s.table);
  }

  /** One step grows, counts and keeps as promised. */
  lemma StepEffect(p: Primitives, s: TracedTable, op: TableOp)
    requires |s.table.slots| <= MAX_COUNT
    ensures var t := s.table; var u := Step(p, s, op).table; var s' := Step(p, s, op);
            && SlotsKept(t, u)
            && |t.slots| <= |u.slots| <= Max(MAX_SLOTS, |t.slots|)
            && |u.slots| - |t.slots| == s'.adds - s.adds
            && EnabledCount(u.slots) - EnabledCount(t.slots) == (s'.adds - s.adds) - (s'.revocations - s.revocations)
            && (EnabledCount(t.slots) >= 1 ==> EnabledCount(u.slots) >= 1)
  {
    match op
    case Add(master, passphrase, draw) =>
      if s.table.AddSlot(p, master, passphrase, draw).1.Ok? {
        AddEffect(p, s.table, master, passphrase, draw);
      }
    case Revoke(idx) =>
      RevokeEffect(s.table, idx);
    case Reprint =>
      CodecLaws.RoundTrip(p, s.table);
  }

  /** Conservation over runs from any table: the length grows by the successful adds and never
      past max(16, its start), the enabled count by the adds less the effective revocations, and
      no slot moves or changes except to be wiped once. The length always fits the count byte. */
  lemma {:induction false} RunConserves(p: Primitives, start: Table, ops: seq<TableOp>)
    requires |start.slots| <= MAX_COUNT
    ensures var s := Run(p, Untraced(start), ops);
            && |s.table.slots| == |start.slots| + s.adds <= Max(MAX_SLOTS, |start.slots|) <= MAX_COUNT
            && EnabledCount(s.table.slots) == EnabledCount(start.slots) + s.adds - s.revocations
            && (EnabledCount(start.slots) >= 1 ==> EnabledCount(s.table.slots) >= 1)
            && SlotsKept(start, s.table)
  {
    if ops == [] {
    } else {
      var before := Run(p, Untraced(start), ops[..|ops| - 1]);
      RunConserves(p, start, ops[..|ops| - 1]);
      StepEffect(p, before, ops[|ops| - 1]);
      var after := Run(p, Untraced(start), ops).table;
      forall i | 0 <= i < |start.slots|
        ensures SlotKept(start.slots[i], after.slots[i])
      {
        SlotKeptTransitive(start.slots[i], before.table.slots[i], after.slots[i]);
      }
    }
  }

  /** Revoking one slot any number of times in a row is revoking it once: the table, and the count of
      revocations that took effect, are the same. */
  lemma {:induction false} RepeatedRevokesCountOnce(p: Primitives, s: TracedTable, idx: nat, n: nat)
    ensures Run(p, s, seq(n + 1, _ => Revoke(idx))) == Step(p, s, Revoke(idx))
  {
    var ops := seq(n + 1, _ => Revoke(idx));
    if n == 0 {
      assert ops[..0] == [];
    } else {
      assert ops[..n] == seq(n, _ => Revoke(idx));
      RepeatedRevokesCountOnce(p, s, idx, n - 1);
      if s.table.RevokeSlot(idx).1.Ok? {
        RevokeTwice(s.table, idx);
        RevokeOutcome(s.table, idx);
      }
    }
  }

  /** A table read from any accepted bytes stays within max(16, its count byte) slots, so every later
      state of it prints and parses without loss. */
  lemma ReopenedRunStaysPrintable(p: Primitives, data: Bytes, headerSalt: Key, ops: seq<TableOp>)
    requires Parsed(p, data, headerSalt).Ok?
    ensures var start := Parsed(p, data, headerSalt).value; var t := Run(p, Untraced(start), ops).table;
            && |t.slots| <= Max(MAX_SLOTS, |start.slots|) <= MAX_COUNT
            && Parsed(p, Printed(p, t), t.headerSalt) == Ok(t)
  {
    var start := Parsed(p, data, headerSalt).value;
    CodecLaws.ReverseRoundTrip(p, data, headerSalt);
    RunConserves(p, start, ops);
    CodecLaws.RoundTrip(p, Run(p, Untraced(start), ops).table);
  }

  /** A revoked slot stays revoked: whatever happens next, it is disabled with a zero ciphertext
      and no passphrase is ever answered with its index. */
  lemma RevocationIsPermanent(p: Primitives, t: Table, idx: nat, ops: seq<TableOp>, q: Bytes)
    requires |t.slots| <= MAX_COUNT && idx < |t.slots|
    requires t.slots[idx].IsEnabled() && t.RevokeSlot(idx).1.Ok?
    ensures var later := Run(p, Untraced(t.RevokeSlot(idx).0), ops).table;
            && idx < |later.slots| && later.slots[idx] == t.slots[idx].Wiped()
            && !later.slots[idx].IsEnabled() && later.slots[idx].ct == Zeros(CT_LEN)
            && (later.UnsealWith(p, q).Ok? ==> later.UnsealWith(p, q).value.0 != idx)
  {
    var revoked := t.RevokeSlot(idx).0;
    WipedIsDisabled(t.slots[idx]);
    RunConserves(p, revoked, ops);
    var later := Run(p, Untraced(revoked), ops).table;
    assert SlotKept(revoked.slots[idx], later.slots[idx]);
    SearchFindsLeast(p, later.slots, q, {}, 0);
  }

  lemma {:induction false} RunSplits(p: Primitives, s: TracedTable, first: seq<TableOp>, rest: seq<TableOp>)
    ensures Run(p, s, first + rest) == Run(p, Run(p, s, first), rest)
  {
    if rest == [] {
      assert first + rest == first;
    } else {
      var n := |rest| - 1;
      RunSplits(p, s, first, rest[..n]);
      assert (first + rest)[..|first + rest| - 1] == first + rest[..n];
    }
  }

  /** A revocation that takes effect anywhere in a run from any start, `new_initial` among them, is
      final: at the end of the run the slot is still the one revoked, disabled and with a zero
      ciphertext, and no passphrase is answered with its index. */
  lemma RevocationInRunIsPermanent(p: Primitives, start: TracedTable, earlier: seq<TableOp>, idx: nat,
                                   later: seq<TableOp>, q: Bytes)
    requires |start.table.slots| <= MAX_COUNT
    requires var t := Run(p, start, earlier).table;
             idx < |t.slots| && t.slots[idx].IsEnabled() && t.RevokeSlot(idx).1.Ok?
    ensures var t := Run(p, start, earlier).table;
            var end := Run(p, start, earlier + [Revoke(idx)] + later).table;
            && idx < |end.slots| && end.slots[idx] == t.slots[idx].Wiped()
            && !end.slots[idx].IsEnabled() && end.slots[idx].ct == Zeros(CT_LEN)
            && (end.UnsealWith(p, q).Ok? ==> end.UnsealWith(p, q).value.0 != idx)
  {
    var s := Run(p, start, earlier);
    assert (earlier + [Revoke(idx)])[..|earlier|] == earlier;
    var revoked := Run(p, start, earlier + [Revoke(idx)]);
    assert revoked.table == s.table.RevokeSlot(idx).0;
    RunSplits(p, start, earlier + [Revoke(idx)], later);
    RunIgnoresTrace(p, revoked, later);
    RunIgnoresTrace(p, start, earlier);
    RunConserves(p, start.table, earlier);
    RevocationIsPermanent(p, s.table, idx, later, q);
  }

  /** The table `new_initial` returns, with its first slot's origin. */
  function Started(t: Table, o: Origin): TracedTable {
    TracedTable(t, [o], 0, 0)
  }

  lemma {:induction false} RunKeepsOrigins(p: Primitives, start: TracedTable, ops: seq<TableOp>)
    requires TraceMatches(p, start)
    ensures TraceMatches(p, Run(p, start, ops))
  {
    if ops == [] {
    } else {
      RunKeepsOrigins(p, start, ops[..|ops| - 1]);
      StepKeepsOrigins(p, Run(p, start, ops[..|ops| - 1]), ops[|ops| - 1]);
    }
  }

  /** Slots of which none is out of place: each is what its origin made, or that wiped. */
  ghost predicate TraceMatches(p: Primitives, s: TracedTable) {
    |s.table.slots| <= MAX_COUNT && OriginsMatch(p, s.table.slots, s.origins)
  }

  lemma AddKeepsTrace(p: Primitives, s: TracedTable, o: Origin)
    requires TraceMatches(p, s)
    ensures TraceMatches(p, Step(p, s, Add(o.master, o.passphrase, o.draw)))
  {
    if s.table.AddSlot(p, o.master, o.passphrase, o.draw).1.Ok? {
      AppendKeepsOrigins(p, s.table.slots, s.origins, o);
    }
  }

  lemma RevokeKeepsTrace(p: Primitives, s: TracedTable, idx: nat)
    requires TraceMatches(p, s)
    ensures TraceMatches(p, Step(p, s, Revoke(idx)))
  {
    if idx < |s.table.slots| {
      WipeKeepsOrigins(p, s.table.slots, s.origins, idx);
    }
  }

  lemma StepKeepsOrigins(p: Primitives, s: TracedTable, op: TableOp)
    requires TraceMatches(p, s)
    ensures TraceMatches(p, Step(p, s, op))
  {
    match op
    case Add(master, passphrase, draw) => AddKeepsTrace(p, s, Origin(master, passphrase, draw));
    case Revoke(idx) => RevokeKeepsTrace(p, s, idx);
    case Reprint => CodecLaws.RoundTrip(p, s.table);
  }

  lemma AppendKeepsOrigins(p: Primitives, slots: seq<KeySlot>, origins: seq<Origin>, o: Origin)
    requires OriginsMatch(p, slots, origins) && o.Creation(p).Ok?
    ensures OriginsMatch(p, slots + [o.Creation(p).value], origins + [o])
  {
  }

  lemma WipeKeepsOrigins(p: Primitives, slots: seq<KeySlot>, origins: seq<Origin>, idx: nat)
    requires OriginsMatch(p, slots, origins) && idx < |slots|
    ensures OriginsMatch(p, slots[idx := slots[idx].Wiped()], origins)
  {
    assert FromOrigin(p, slots[idx], origins[idx]);
    WipedIsDisabled(origins[idx].Creation(p).value);
  }

  /** An enabled slot is exactly what its origin created, and opens under that passphrase. */
  lemma EnabledIsCreated(p: Primitives, s: KeySlot, o: Origin)
    requires FromOrigin(p, s, o)
    ensures o.Creation(p).Ok?
    ensures s.IsEnabled() <==> s == o.Creation(p).value
    ensures s.IsEnabled() ==> s.Opens(p, o.passphrase) && s.Unseal(p, o.passphrase) == Ok(o.master)
    ensures !s.IsEnabled() ==> s.ct == Zeros(CT_LEN)
  {
    SealingLaw(p, o.master, o.passphrase, SLOT_M_COST, SLOT_T_COST, o.draw);
    WipedIsDisabled(o.Creation(p).value);
  }

  /** The counters only count: the table of a run does not depend on them or on the origins. */
  lemma {:induction false} RunIgnoresTrace(p: Primitives, start: TracedTable, ops: seq<TableOp>)
    ensures var s := Run(p, start, ops); var u := Run(p, Untraced(start.table), ops);
            s.table == u.table && s.adds == start.adds + u.adds && s.revocations == start.revocations + u.revocations
  {
    if ops == [] {
    } else {
      RunIgnoresTrace(p, start, ops[..|ops| - 1]);
    }
  }

  /** The first table: one enabled slot, as its origin made it. */
  lemma InitialTable(p: Primitives, o: Origin, headerSalt: Key)
    requires NewInitial(p, o.master, o.passphrase, headerSalt, o.draw).Ok?
    ensures var t := NewInitial(p, o.master, o.passphrase, headerSalt, o.draw).value;
            |t.slots| == 1 == EnabledCount(t.slots) && OriginsMatch(p, t.slots, [o])
  {
    SealingLaw(p, o.master, o.passphrase, SLOT_M_COST, SLOT_T_COST, o.draw);
    EnabledCountAppended([], o.Creation(p).value);
    assert [] + [o.Creation(p).value] == [o.Creation(p).value];
  }

  /** The creating passphrase of every enabled slot opens the table; disabled slots are zeroed. */
  lemma CreatorsHaveAccess(p: Primitives, t: Table, origins: seq<Origin>, i: nat)
    requires OriginsMatch(p, t.slots, origins) && i < |t.slots|
    ensures if t.slots[i].IsEnabled() then t.UnsealWith(p, origins[i].passphrase).Ok?
            else t.slots[i].ct == Zeros(CT_LEN)
  {
    assert FromOrigin(p, t.slots[i], origins[i]);
    EnabledIsCreated(p, t.slots[i], origins[i]);
    if t.slots[i].IsEnabled() {
      SearchSucceeds(p, t.slots, origins[i].passphrase, i);
    }
  }

  /** Conservation from `new_initial`: every sequence of calls keeps between one and sixteen slots,
      at least one of them enabled, and at most fifteen revocations ever take effect. */
  lemma InitialRunConserves(p: Primitives, o: Origin, headerSalt: Key, ops: seq<TableOp>)
    requires NewInitial(p, o.master, o.passphrase, headerSalt, o.draw).Ok?
    ensures var s := Run(p, Started(NewInitial(p, o.master, o.passphrase, headerSalt, o.draw).value, o), ops);
            && |s.table.slots| == 1 + s.adds <= MAX_SLOTS
            && 1 <= EnabledCount(s.table.slots) == 1 + s.adds - s.revocations
            && s.revocations <= 15
            && OriginsMatch(p, s.table.slots, s.origins)
  {
    var t := NewInitial(p, o.master, o.passphrase, headerSalt, o.draw).value;
    InitialTable(p, o, headerSalt);
    RunConserves(p, t, ops);
    RunIgnoresTrace(p, Started(t, o), ops);
    RunKeepsOrigins(p, Started(t, o), ops);
  }

  /** No lock-out: after every sequence of calls from `new_initial`, some slot is enabled, and the
      creating passphrase of every enabled slot opens the table. */
  lemma NoLockOut(p: Primitives, o: Origin, headerSalt: Key, ops: seq<TableOp>)
    requires NewInitial(p, o.master, o.passphrase, headerSalt, o.draw).Ok?
    ensures var s := Run(p, Started(NewInitial(p, o.master, o.passphrase, headerSalt, o.draw).value, o), ops);
            && |s.origins| == |s.table.slots|
            && (exists i :: 0 <= i < |s.table.slots| && s.table.slots[i].IsEnabled())
            && forall i :: 0 <= i < |s.table.slots| ==>
                 if s.table.slots[i].IsEnabled() then s.table.UnsealWith(p, s.origins[i].passphrase).Ok?
                 else s.table.slots[i].ct == Zeros(CT_LEN)
  {
    var s := Run(p, Started(NewInitial(p, o.master, o.passphrase, headerSalt, o.draw).value, o), ops);
    InitialRunConserves(p, o, headerSalt, ops);
    var enabled := SomeEnabled(s.table.slots);
    forall i | 0 <= i < |s.table.slots|
      ensures if s.table.slots[i].IsEnabled() then s.table.UnsealWith(p, s.origins[i].passphrase).Ok?
              else s.table.slots[i].ct == Zeros(CT_LEN)
    {
      CreatorsHaveAccess(p, s.table, s.origins, i);
    }
  }
}
