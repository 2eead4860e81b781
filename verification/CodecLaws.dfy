/** Laws of the SOTK format: which inputs the parser accepts and as what, the round trips in both
    directions, and the unambiguity of the MACed bytes. */
module CodecLaws {
  import opened Outcomes
  import opened ByteStrings
  import opened Crypto
  import opened SlotModel
  import opened SlotCodec

  /** Record i of the printed slots is slot i. */
  lemma {:induction false} RecordOfEncoded(slots: seq<KeySlot>, i: nat)
    requires i < |slots|
    ensures EncodeSlots(slots)[SLOT_LEN * i..SLOT_LEN * i + SLOT_LEN] == EncodeSlot(slots[i])
  {
    var front := slots[..|slots| - 1];
    if i == |front| {
    } else {
      RecordOfEncoded(front, i);
      assert EncodeSlots(slots)[..SLOT_LEN * |front|] == EncodeSlots(front);
      assert EncodeSlots(slots)[SLOT_LEN * i..SLOT_LEN * i + SLOT_LEN] ==
          EncodeSlots(front)[SLOT_LEN * i..SLOT_LEN * i + SLOT_LEN];
    }
  }

  /** The fixed positions of a printed body, whatever follows it. */
  lemma BodyLayout(t: Table, extra: Bytes)
    ensures var b := Body(t) + extra; var n := |t.slots|;
            && b[..4] == HEADER_MAGIC && b[4] == HEADER_VERSION && b[5] == CountByte(n)
            && (forall i :: 0 <= i < n ==> b[RecordAt(i)..RecordAt(i) + SLOT_LEN] == EncodeSlot(t.slots[i]))
            && b[RecordAt(n)..RecordAt(n) + HASH_LEN] == t.verifier
  {
    var b, n := Body(t) + extra, |t.slots|;
    var records := EncodeSlots(t.slots);
    assert b[PREFIX_LEN..RecordAt(n)] == records;
    forall i | 0 <= i < n
      ensures b[RecordAt(i)..RecordAt(i) + SLOT_LEN] == EncodeSlot(t.slots[i])
    {
      RecordOfEncoded(t.slots, i);
      assert b[RecordAt(i)..RecordAt(i) + SLOT_LEN] == records[SLOT_LEN * i..SLOT_LEN * i + SLOT_LEN];
    }
  }

  /** Decoding record i of a printed body gives its slot i. */
  lemma DecodedSlotAt(t: Table, extra: Bytes, i: nat)
    requires i < |t.slots|
    ensures DecodeSlot((Body(t) + extra)[RecordAt(i)..RecordAt(i) + SLOT_LEN]) == t.slots[i]
  {
    BodyLayout(t, extra);
    SlotRoundTrip(t.slots[i]);
  }

  /** Decoding k records of a printed body gives its first k slots. */
  lemma DecodedSlots(t: Table, extra: Bytes, k: nat)
    requires k <= |t.slots|
    ensures SlotsAt(Body(t) + extra, k) == t.slots[..k]
  {
    var slots := SlotsAt(Body(t) + extra, k);
    forall i | 0 <= i < k
      ensures slots[i] == t.slots[i]
    {
      DecodedSlotAt(t, extra, i);
    }
  }

  /** Printing k decoded records gives their bytes back. */
  lemma {:induction false} EncodedSlots(body: Bytes, k: nat)
    requires RecordAt(k) <= |body|
    ensures EncodeSlots(SlotsAt(body, k)) == body[PREFIX_LEN..RecordAt(k)]
  {
    if k == 0 {
    } else {
      var last := RecordAt(k - 1);
      EncodedSlots(body, k - 1);
      EncodedLast(body, k);
      SlotReverseRoundTrip(body[last..last + SLOT_LEN]);
      JoinSlices(body, PREFIX_LEN, last, RecordAt(k));
    }
  }

  lemma EncodedLast(body: Bytes, k: nat)
    requires k > 0 && RecordAt(k) <= |body|
    ensures EncodeSlots(SlotsAt(body, k)) ==
            EncodeSlots(SlotsAt(body, k - 1)) +
            EncodeSlot(DecodeSlot(body[RecordAt(k - 1)..RecordAt(k - 1) + SLOT_LEN]))
  {
    assert SlotsAt(body, k)[..k - 1] == SlotsAt(body, k - 1);
  }

  /** A body under its own MAC, with the right magic and version, is parsed as a body. */
  lemma AuthenticBody(p: Primitives, body: Bytes, headerSalt: Key)
    requires |body| >= 5 && body[..4] == HEADER_MAGIC && body[4] == HEADER_VERSION
    ensures Parsed(p, body + p.keyedHash(headerSalt, body), headerSalt) == ParsedBody(body, headerSalt)
  {
    var data := body + p.keyedHash(headerSalt, body);
    assert data[..|data| - HASH_LEN] == body && data[|data| - HASH_LEN..] == p.keyedHash(headerSalt, body);
  }

  lemma CountOfBody(t: Table, extra: Bytes)
    ensures (Body(t) + extra)[5] as nat == |t.slots| % 256 <= |t.slots|
  {
    BodyLayout(t, extra);
    CountByteValue(|t.slots|);
    ModAtMost(|t.slots|);
  }

  lemma ModAtMost(n: nat)
    ensures n % 256 <= n
  {
  }

  /** A body with bytes after its verifier: MACed as a whole, it reads as the table that its
      count byte announces. */
  lemma ParseWithTrailing(p: Primitives, t: Table, extra: Bytes)
    ensures var body := Body(t) + extra; var n := |t.slots| % 256;
            && n <= |t.slots|
            && Parsed(p, body + p.keyedHash(t.headerSalt, body), t.headerSalt) ==
               Ok(Table(t.headerSalt, t.slots[..n], body[RecordAt(n)..RecordAt(n) + HASH_LEN]))
  {
    var body := Body(t) + extra;
    CountOfBody(t, extra);
    BodyLayout(t, extra);
    AuthenticBody(p, body, t.headerSalt);
    DecodedSlots(t, extra, body[5] as nat);
  }

  /** Bytes after the verifier are authenticated but otherwise ignored. */
  lemma TrailingIgnored(p: Primitives, t: Table, extra: Bytes)
    requires |t.slots| <= MAX_COUNT
    ensures Parsed(p, Body(t) + extra + p.keyedHash(t.headerSalt, Body(t) + extra), t.headerSalt) == Ok(t)
  {
    ParseWithTrailing(p, t, extra);
    BodyLayout(t, extra);
    SmallMod(|t.slots|);
    assert t.slots[..|t.slots|] == t.slots;
  }

  /** Print then parse returns the table exactly when the count fits its byte. */
  lemma RoundTrip(p: Primitives, t: Table)
    ensures Parsed(p, Printed(p, t), t.headerSalt) == Ok(t) <==> |t.slots| <= MAX_COUNT
  {
    assert Body(t) + [] == Body(t);
    ParseWithTrailing(p, t, []);
    if |t.slots| <= MAX_COUNT {
      TrailingIgnored(p, t, []);
    }
  }

  /** The smallest table that does not come back: 256 slots are announced as none. */
  lemma RoundTripLosesSlots(p: Primitives, t: Table)
    requires |t.slots| == 256
    ensures Parsed(p, Printed(p, t), t.headerSalt).Ok?
    ensures Parsed(p, Printed(p, t), t.headerSalt).value.slots == []
  {
    assert 256 % 256 == 0;
    assert t.slots[..0] == [];
    ParseWithTrailing(p, t, []);
    assert Body(t) + [] == Body(t);
  }

  /** The body of what was decoded from a well-headed body is the used part of it. */
  lemma BodyOfDecoded(body: Bytes, n: nat, headerSalt: Key)
    requires RecordAt(n) + HASH_LEN <= |body|
    requires body[..PREFIX_LEN] == Prefix(n)
    ensures Body(Table(headerSalt, SlotsAt(body, n), body[RecordAt(n)..RecordAt(n) + HASH_LEN])) ==
            body[..RecordAt(n) + HASH_LEN]
  {
    EncodedSlots(body, n);
    var used := RecordAt(n) + HASH_LEN;
    assert body[..used] == body[..PREFIX_LEN] + body[PREFIX_LEN..RecordAt(n)] + body[RecordAt(n)..used];
  }

  /** A prefix is recognised by its magic, its version and its count byte. */
  lemma PrefixBytes(b: Bytes)
    requires |b| == PREFIX_LEN && b[..4] == HEADER_MAGIC && b[4] == HEADER_VERSION
    ensures b == Prefix(b[5] as nat)
  {
    CountByteOf(b[5] as nat, b[5]);
    assert b == b[..4] + [b[4], b[5]];
  }

  /** A created slot still gives its master back after it was printed and parsed at any position of
      a table. */
  lemma SealingSurvivesPrinting(p: Primitives, t: Table, i: nat, master: Key, passphrase: Bytes, mCost: u32,
                                tCost: u32, draw: SlotDraw)
    requires i < |t.slots| <= MAX_COUNT
    requires CreateSlot(p, master, passphrase, mCost, tCost, draw) == Ok(t.slots[i])
    ensures Parsed(p, Printed(p, t), t.headerSalt).Ok?
    ensures var parsed := Parsed(p, Printed(p, t), t.headerSalt).value;
            && i < |parsed.slots| && parsed.slots[i].Opens(p, passphrase)
            && parsed.slots[i].Unseal(p, passphrase) == Ok(master)
  {
    RoundTrip(p, t);
    SealingLaw(p, master, passphrase, mCost, tCost, draw);
  }

  /** Reprinting what was parsed: the announced bytes of the body, MACed anew; the input itself
      exactly when nothing followed its verifier. */
  lemma ReverseRoundTrip(p: Primitives, data: Bytes, headerSalt: Key)
    requires Parsed(p, data, headerSalt).Ok?
    ensures var t := Parsed(p, data, headerSalt).value; var body := data[..|data| - HASH_LEN];
            var used := RecordAt(body[5] as nat) + HASH_LEN;
            && t.headerSalt == headerSalt && |t.slots| == body[5] as nat <= MAX_COUNT
            && used <= |body|
            && Body(t) == body[..used]
            && Printed(p, t) == body[..used] + p.keyedHash(headerSalt, body[..used])
            && (Printed(p, t) == data <==> |body| == used)
  {
    var body := data[..|data| - HASH_LEN];
    var n := body[5] as nat;
    assert body[..PREFIX_LEN][..4] == body[..4];
    PrefixBytes(body[..PREFIX_LEN]);
    BodyOfDecoded(body, n, headerSalt);
    assert data == body + data[|data| - HASH_LEN..];
    if |body| == RecordAt(n) + HASH_LEN {
      assert body[..RecordAt(n) + HASH_LEN] == body;
    }
  }

  /** `data` is a printed body, any further bytes, and the MAC of both. */
  ghost predicate IsPrintedWith(p: Primitives, data: Bytes, t: Table, extra: Bytes) {
    data == Body(t) + extra + p.keyedHash(t.headerSalt, Body(t) + extra)
  }

  lemma AcceptedWasPrinted(p: Primitives, data: Bytes, headerSalt: Key) returns (extra: Bytes)
    requires Parsed(p, data, headerSalt).Ok?
    ensures IsPrintedWith(p, data, Parsed(p, data, headerSalt).value, extra)
  {
    ReverseRoundTrip(p, data, headerSalt);
    var body := data[..|data| - HASH_LEN];
    var used := RecordAt(body[5] as nat) + HASH_LEN;
    extra := body[used..];
    var t := Parsed(p, data, headerSalt).value;
    assert Body(t) + extra == body by {
      JoinSlices(body, 0, used, |body|);
    }
    assert data == body + p.keyedHash(t.headerSalt, body) by {
      JoinSlices(data, 0, |data| - HASH_LEN, |data|);
    }
  }

  /** The accepted inputs, and the table each is read as: a printed body of at most 255 slots,
      any further bytes, and the MAC of both. */
  lemma AcceptedInputs(p: Primitives, data: Bytes, t: Table)
    ensures Parsed(p, data, t.headerSalt) == Ok(t) <==>
            |t.slots| <= MAX_COUNT && exists extra :: IsPrintedWith(p, data, t, extra)
  {
    if Parsed(p, data, t.headerSalt) == Ok(t) {
      ReverseRoundTrip(p, data, t.headerSalt);
      var extra := AcceptedWasPrinted(p, data, t.headerSalt);
    } else if |t.slots| <= MAX_COUNT {
      forall extra ensures !IsPrintedWith(p, data, t, extra) {
        TrailingIgnored(p, t, extra);
      }
    }
  }

  /** The three outcomes of an authenticated body, as conditions on its length that exclude one
      another and leave nothing out. */
  lemma OutcomesPartition(body: Bytes, headerSalt: Key)
    requires |body| >= 5
    ensures var r := ParsedBody(body, headerSalt);
            && (r.Panic? <==> |body| == 5 || exists k :: 0 <= k < body[5] as nat && EndsAtRawIndex(|body|, k))
            && (r.Ok? <==> |body| > 5 && |body| >= 38 + 110 * body[5] as nat)
            && (r.Err? ==> r == Err(Serialization))
    ensures forall k: nat :: EndsAtRawIndex(|body|, k) <==> |body| == 22 + 110 * k || |body| == 107 + 110 * k
  {
  }

  /** The data carries a table header under its own MAC. */
  predicate IsAuthentic(p: Primitives, data: Bytes, headerSalt: Key) {
    && |data| >= 5 + HASH_LEN
    && p.keyedHash(headerSalt, data[..|data| - HASH_LEN]) == data[|data| - HASH_LEN..]
    && data[..4] == HEADER_MAGIC && data[4] == HEADER_VERSION
  }

  /** The body ends where the count byte, or a raw index of an announced record, is read. */
  ghost predicate EndsAtRawRead(body: Bytes) {
    |body| == 5 || (|body| > 5 && exists k :: 0 <= k < body[5] as nat && EndsAtRawIndex(|body|, k))
  }

  /** When `from_bytes` stops the run instead of answering, for every input. */
  lemma StopsExactlyWhen(p: Primitives, data: Bytes, headerSalt: Key)
    ensures Parsed(p, data, headerSalt).Panic? <==>
            IsAuthentic(p, data, headerSalt) && EndsAtRawRead(data[..|data| - HASH_LEN])
  {
    if |data| >= 5 + HASH_LEN {
      var body := data[..|data| - HASH_LEN];
      assert body[..4] == data[..4];
      OutcomesPartition(body, headerSalt);
    }
  }

  /** An input on which it does: the magic and the version under their MAC, and nothing else. */
  lemma StopsWithoutCount(p: Primitives, headerSalt: Key)
    ensures var body := HEADER_MAGIC + [HEADER_VERSION];
            Parsed(p, body + p.keyedHash(headerSalt, body), headerSalt) == Panic
  {
    var body := HEADER_MAGIC + [HEADER_VERSION];
    assert body[..4] == HEADER_MAGIC;
    AuthenticBody(p, body, headerSalt);
  }

  /** And another: one record announced, and the body cut after its slot id. */
  lemma StopsInRecord(p: Primitives, headerSalt: Key, slotId: Bytes16)
    ensures var body := Prefix(1) + slotId;
            Parsed(p, body + p.keyedHash(headerSalt, body), headerSalt) == Panic
  {
    var body := Prefix(1) + slotId;
    CountByteValue(1);
    assert body[..4] == HEADER_MAGIC && body[5] == CountByte(1);
    AuthenticBody(p, body, headerSalt);
    assert EndsAtRawIndex(|body|, 0);
  }

  /** Every refusal of `from_bytes`, for every input. The MAC is checked before anything in the body,
      so an altered header is an integrity error; the other refusals are of input too short for a
      MAC, or of authentic input with another magic or version or a body that ends too early. */
  lemma RefusesExactlyWhen(p: Primitives, data: Bytes, headerSalt: Key)
    ensures var r := Parsed(p, data, headerSalt);
            && (r == Err(HeaderIntegrity) <==>
                  |data| >= 37 && p.keyedHash(headerSalt, data[..|data| - 32]) != data[|data| - 32..])
            && (r == Err(Serialization) <==>
                  || |data| < 37
                  || (&& p.keyedHash(headerSalt, data[..|data| - 32]) == data[|data| - 32..]
                      && var body := data[..|data| - 32];
                         || body[..4] != [0x53, 0x4F, 0x54, 0x4B] || body[4] != 1
                         || (5 < |body| < 38 + 110 * body[5] as nat && !EndsAtRawRead(body))))
            && (r.Err? ==> r == Err(HeaderIntegrity) || r == Err(Serialization))
  {
    if |data| >= 5 + HASH_LEN {
      OutcomesPartition(data[..|data| - HASH_LEN], headerSalt);
    }
  }

  /** A body starts with another only if both announce and hold the same number of slots. */
  lemma PrefixHasSameCount(t: Table, u: Table)
    requires |t.slots| <= MAX_COUNT && |u.slots| <= MAX_COUNT && Body(t) <= Body(u)
    ensures |t.slots| == |u.slots| && Body(t) == Body(u)
  {
    assert Body(t) + [] == Body(t) && Body(u) + [] == Body(u);
    CountOfBody(t, []);
    CountOfBody(u, []);
    SmallMod(|t.slots|);
    SmallMod(|u.slots|);
    assert Body(t)[5] == Body(u)[5];
  }

  /** The MACed bytes are prefix-free: only a table's own body starts with its body. */
  lemma BodyPrefixFree(t: Table, u: Table)
    requires |t.slots| <= MAX_COUNT && |u.slots| <= MAX_COUNT
    ensures Body(t) <= Body(u) <==> t.slots == u.slots && t.verifier == u.verifier
  {
    if Body(t) <= Body(u) {
      PrefixHasSameCount(t, u);
      TablesOfOneBody(t, u);
    }
  }

  lemma TablesOfOneBody(t: Table, u: Table)
    requires Body(t) == Body(u) && |t.slots| == |u.slots|
    ensures t.slots == u.slots && t.verifier == u.verifier
  {
    var n := |t.slots|;
    DecodedSlots(t, [], n);
    DecodedSlots(u, [], n);
    assert t.slots == t.slots[..n] && u.slots == u.slots[..n];
    assert t.verifier == Body(t)[RecordAt(n)..];
    assert u.verifier == Body(u)[RecordAt(n)..];
  }

  /** No two of these bodies share a MAC under this salt. */
  ghost predicate MacCollisionFree(p: Primitives, headerSalt: Key, bodies: set<Bytes>) {
    forall b, c :: b in bodies && c in bodies && p.keyedHash(headerSalt, b) == p.keyedHash(headerSalt, c) ==> b == c
  }

  /** A table whose printed bytes keep their MAC while any slot field, the slot order or the
      verifier is changed is refused as tampered, and only such a table is. */
  lemma MetadataChangeDetected(p: Primitives, t: Table, edited: Table)
    requires |t.slots| <= MAX_COUNT && |edited.slots| <= MAX_COUNT && t.headerSalt == edited.headerSalt
    requires MacCollisionFree(p, t.headerSalt, {Body(t), Body(edited)})
    ensures Parsed(p, Body(edited) + p.keyedHash(t.headerSalt, Body(t)), t.headerSalt) ==
            if edited == t then Ok(t) else Err(HeaderIntegrity)
  {
    var data := Body(edited) + p.keyedHash(t.headerSalt, Body(t));
    assert data[..|data| - HASH_LEN] == Body(edited);
    assert data[|data| - HASH_LEN..] == p.keyedHash(t.headerSalt, Body(t));
    BodyPrefixFree(edited, t);
    RoundTrip(p, t);
  }
}
