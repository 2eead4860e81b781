/** The SOTK byte format: what the printer writes, what the parser answers to every input, and
    how the two undo each other. */
module SlotCodec {
  import opened Outcomes
  import opened ByteStrings
  import opened Crypto
  import opened SlotModel

  const SLOT_LEN: nat := 110
  const PREFIX_LEN: nat := 6
  const HASH_LEN: nat := 32
  const MAX_COUNT: nat := 255

  // Layout of one record and of the body.

  function EncodeSlot(s: KeySlot): (b: Bytes)
    ensures |b| == SLOT_LEN
  {
    s.slotId + [s.kdfId] + U32ToLe(s.mCost) + U32ToLe(s.tCost) + s.salt + s.nonce + s.ct + [s.flags] +
    U64ToLe(s.createdAt)
  }

  function DecodeSlot(b: Bytes): KeySlot
    requires |b| == SLOT_LEN
  {
    KeySlot(b[..16], b[16], U32FromLe(b[17..21]), U32FromLe(b[21..25]), b[25..41], b[41..53], b[53..101], b[101],
            U64FromLe(b[102..]))
  }

  lemma SlotRoundTrip(s: KeySlot)
    ensures DecodeSlot(EncodeSlot(s)) == s
  {
    var b := EncodeSlot(s);
    assert b[..16] == s.slotId;
    assert b[17..21] == U32ToLe(s.mCost);
    assert b[21..25] == U32ToLe(s.tCost);
    assert b[25..41] == s.salt;
    assert b[41..53] == s.nonce;
    assert b[53..101] == s.ct;
    assert b[102..] == U64ToLe(s.createdAt);
    U32RoundTrip(s.mCost);
    U32RoundTrip(s.tCost);
    U64RoundTrip(s.createdAt);
  }

  lemma SlotReverseRoundTrip(b: Bytes)
    requires |b| == SLOT_LEN
    ensures EncodeSlot(DecodeSlot(b)) == b
  {
    U32ReverseRoundTrip(b[17..21]);
    U32ReverseRoundTrip(b[21..25]);
    U64ReverseRoundTrip(b[102..]);
    assert b == b[..16] + [b[16]] + b[17..21] + b[21..25] + b[25..41] + b[41..53] + b[53..101] + [b[101]] + b[102..];
  }

  function EncodeSlots(slots: seq<KeySlot>): (b: Bytes)
    ensures |b| == SLOT_LEN * |slots|
  {
    if slots == [] then []
    else EncodeSlots(slots[..|slots| - 1]) + EncodeSlot(slots[|slots| - 1])
  }

  function Prefix(count: nat): (b: Bytes)
    ensures |b| == PREFIX_LEN
  {
    HEADER_MAGIC + [HEADER_VERSION, CountByte(count)]
  }

  /** The bytes the MAC covers. */
  function Body(t: Table): (b: Bytes)
    ensures |b| == PREFIX_LEN + SLOT_LEN * |t.slots| + HASH_LEN
  {
    Prefix(|t.slots|) + EncodeSlots(t.slots) + t.verifier
  }

  /** Appending a slot's fields one by one appends its record. */
  lemma AppendedFields(body: Bytes, s: KeySlot)
    ensures body + s.slotId + [s.kdfId] + U32ToLe(s.mCost) + U32ToLe(s.tCost) + s.salt + s.nonce + s.ct +
            [s.flags] + U64ToLe(s.createdAt)
            == body + EncodeSlot(s)
  {
    var f1 := s.slotId + [s.kdfId];
    Regroup(body, s.slotId, [s.kdfId]);
    var f2 := f1 + U32ToLe(s.mCost);
    Regroup(body, f1, U32ToLe(s.mCost));
    var f3 := f2 + U32ToLe(s.tCost);
    Regroup(body, f2, U32ToLe(s.tCost));
    var f4 := f3 + s.salt;
    Regroup(body, f3, s.salt);
    var f5 := f4 + s.nonce;
    Regroup(body, f4, s.nonce);
    var f6 := f5 + s.ct;
    Regroup(body, f5, s.ct);
    var f7 := f6 + [s.flags];
    Regroup(body, f6, [s.flags]);
    Regroup(body, f7, U64ToLe(s.createdAt));
  }

  /** What `to_bytes` returns. */
  function Printed(p: Primitives, t: Table): Bytes {
    Body(t) + p.keyedHash(t.headerSalt, Body(t))
  }

  // What from_bytes answers, stated on lengths and offsets alone.

  /** The first byte of record k. */
  function RecordAt(k: nat): nat {
    PREFIX_LEN + SLOT_LEN * k
  }

  /** The first k records of a body that holds them. */
  function SlotsAt(body: Bytes, k: nat): (slots: seq<KeySlot>)
    requires RecordAt(k) <= |body|
    ensures |slots| == k
  {
    seq(k, i requires 0 <= i < k => DecodeSlot(body[RecordAt(i)..RecordAt(i) + SLOT_LEN]))
  }

  /** The body ends exactly where record k's `kdf_id` or `flags` byte is read by a raw index. */
  predicate EndsAtRawIndex(length: nat, k: nat) {
    length == RecordAt(k) + 16 || length == RecordAt(k) + 101
  }

  /** The outcome for one record that starts at `start`. */
  function SlotAt(body: Bytes, start: nat): Result<KeySlot>
    requires start <= |body|
  {
    if |body| >= start + SLOT_LEN then Ok(DecodeSlot(body[start..start + SLOT_LEN]))
    else if |body| == start + 16 || |body| == start + 101 then Panic
    else Err(Serialization)
  }

  /** The outcome for a body whose MAC, magic and version are right. */
  ghost function ParsedBody(body: Bytes, headerSalt: Key): Result<Table>
    requires |body| >= 5
  {
    if |body| == 5 then Panic
    else
      var n := body[5] as nat;
      if |body| >= RecordAt(n) + HASH_LEN then
        Ok(Table(headerSalt, SlotsAt(body, n), body[RecordAt(n)..RecordAt(n) + HASH_LEN]))
      else if exists k :: 0 <= k < n && EndsAtRawIndex(|body|, k) then Panic
      else Err(Serialization)
  }

  /** The outcome of `from_bytes` for every input. */
  ghost function Parsed(p: Primitives, data: Bytes, headerSalt: Key): Result<Table> {
    if |data| < 5 + HASH_LEN then Err(Serialization)
    else
      var body := data[..|data| - HASH_LEN];
      if p.keyedHash(headerSalt, body) != data[|data| - HASH_LEN..] then Err(HeaderIntegrity)
      else if body[..4] != HEADER_MAGIC || body[4] != HEADER_VERSION then Err(Serialization)
      else ParsedBody(body, headerSalt)
  }

  // The parser: bounds-checked slices and raw indexes over one cursor.

  /** `slice_at`: the next n bytes and the advanced cursor, or an error and the cursor as it was. */
  method SliceAt(buf: Bytes, pos: nat, n: nat) returns (r: Result<Bytes>, next: nat)
    requires pos <= |buf|
    ensures r == if pos + n > |buf| then Err(Serialization) else Ok(buf[pos..pos + n])
    ensures next == if r.Ok? then pos + n else pos
    ensures next <= |buf|
  {
    next := pos;
    if pos + n > |buf| {
      return Err(Serialization), next;
    }
    var s := buf[pos..pos + n];
    next := next + n;
    return Ok(s), next;
  }

  /** `buf[pos]`: a raw index, which stops the run when it is out of range. */
  function ByteAt(buf: Bytes, pos: nat): Result<byte> {
    if pos < |buf| then Ok(buf[pos]) else Panic
  }

  /** The fields of the record at `start`, by their offsets in the body. */
  lemma DecodedFields(body: Bytes, start: nat)
    requires start + SLOT_LEN <= |body|
    ensures DecodeSlot(body[start..start + SLOT_LEN]) ==
            KeySlot(body[start..start + 16], body[start + 16], U32FromLe(body[start + 17..start + 21]),
                    U32FromLe(body[start + 21..start + 25]), body[start + 25..start + 41], body[start + 41..start + 53],
                    body[start + 53..start + 101], body[start + 101], U64FromLe(body[start + 102..start + 110]))
  {
    var end := start + SLOT_LEN;
    SubSlice(body, start, end, 0, 16);
    SubSlice(body, start, end, 17, 21);
    SubSlice(body, start, end, 21, 25);
    SubSlice(body, start, end, 25, 41);
    SubSlice(body, start, end, 41, 53);
    SubSlice(body, start, end, 53, 101);
    SubSlice(body, start, end, 102, 110);
  }

  /** One turn of the record loop. */
  method ReadSlot(body: Bytes, start: nat) returns (r: Result<KeySlot>, pos: nat)
    requires start <= |body|
    ensures r == SlotAt(body, start)
    ensures start <= pos <= |body|
    ensures r.Ok? ==> pos == start + SLOT_LEN
  {
    pos := start;
    var slotId, mCost, tCost, salt, nonce, ct, createdAt;
    slotId, pos :- SliceAt(body, pos, 16);
    var kdfId :- ByteAt(body, pos);
    pos := pos + 1;
    mCost, pos :- SliceAt(body, pos, 4);
    tCost, pos :- SliceAt(body, pos, 4);
    salt, pos :- SliceAt(body, pos, 16);
    nonce, pos :- SliceAt(body, pos, NonceLen(Aes256Gcm));
    ct, pos :- SliceAt(body, pos, CT_LEN);
    var flags :- ByteAt(body, pos);
    pos := pos + 1;
    createdAt, pos :- SliceAt(body, pos, 8);
    var slot := KeySlot(slotId, kdfId, U32FromLe(mCost), U32FromLe(tCost), salt, nonce, ct, flags,
                        U64FromLe(createdAt));
    DecodedFields(body, start);
    return Ok(slot), pos;
  }

  /** A record that cannot be read decides the outcome of the whole body. */
  lemma RecordDecides(body: Bytes, headerSalt: Key, k: nat)
    requires |body| > 5 && k < body[5] as nat && RecordAt(k) <= |body|
    ensures var r := SlotAt(body, RecordAt(k)); !r.Ok? ==> ParsedBody(body, headerSalt) == r.PropagateFailure()
  {
    if SlotAt(body, RecordAt(k)).Panic? {
      assert EndsAtRawIndex(|body|, k);
    }
  }

  lemma SlotsExtend(body: Bytes, k: nat)
    requires RecordAt(k) <= |body| && SlotAt(body, RecordAt(k)).Ok?
    ensures RecordAt(k + 1) <= |body| && SlotsAt(body, k + 1) == SlotsAt(body, k) + [SlotAt(body, RecordAt(k)).value]
  {
  }

  /** With all records read, the verifier decides. */
  lemma VerifierDecides(body: Bytes, headerSalt: Key)
    requires |body| > 5 && RecordAt(body[5] as nat) <= |body|
    ensures var n := body[5] as nat;
            ParsedBody(body, headerSalt) ==
            if RecordAt(n) + HASH_LEN > |body| then Err(Serialization)
            else Ok(Table(headerSalt, SlotsAt(body, n), body[RecordAt(n)..RecordAt(n) + HASH_LEN]))
  {
  }

  /** The second half of `from_bytes`: the count, the record loop and the verifier. */
  method ParseBody(body: Bytes, headerSalt: Key) returns (r: Result<Table>)
    requires |body| >= 5
    ensures r == ParsedBody(body, headerSalt)
  {
    var count :- ByteAt(body, 5);
    var slotCount := count as nat;
    var pos := PREFIX_LEN;
    var slots: seq<KeySlot> := [];
    for k := 0 to slotCount
      invariant pos == RecordAt(k) <= |body|
      invariant slots == SlotsAt(body, k)
    {
      RecordDecides(body, headerSalt, k);
      var slot;
      slot, pos :- ReadSlot(body, pos);
      SlotsExtend(body, k);
      slots := slots + [slot];
    }
    VerifierDecides(body, headerSalt);
    var verifier;
    verifier, pos :- SliceAt(body, pos, HASH_LEN);
    return Ok(Table(headerSalt, slots, verifier));
  }

  /** `from_bytes` */
  method ParseTable(p: Primitives, data: Bytes, headerSalt: Key) returns (r: Result<Table>)
    ensures r == Parsed(p, data, headerSalt)
  {
    if |data| < 5 + HASH_LEN {
      return Err(Serialization);
    }
    var split := |data| - HASH_LEN;
    var body := data[..split];
    var mac := data[split..];
    var expected := p.keyedHash(headerSalt, body);
    if expected != mac {
      return Err(HeaderIntegrity);
    }
    if body[..4] != HEADER_MAGIC || body[4] != HEADER_VERSION {
      return Err(Serialization);
    }
    r := ParseBody(body, headerSalt);
  }
}
