/** Byte strings, fixed-length arrays and the little-endian integers of the SOTK format. */
module ByteStrings {

  type byte = bv8
  type u32 = bv32
  type u64 = bv64
  type Bytes = seq<byte>

  function Zeros(n: nat): (z: Bytes)
    ensures |z| == n
  {
    seq(n, _ => 0)
  }

  type Bytes12 = b: Bytes | |b| == 12 witness Zeros(12)
  type Bytes16 = b: Bytes | |b| == 16 witness Zeros(16)
  type Bytes48 = b: Bytes | |b| == 48 witness Zeros(48)

  /** A 256-bit key, hash or salt. */
  type Key = b: Bytes | |b| == 32 witness Zeros(32)

  /** `n as u8`: counting up to n in a byte that wraps around. */
  function CountByte(n: nat): byte {
    if n == 0 then 0 else CountByte(n - 1) + 1
  }

  /** The count byte is the count's low eight bits. */
  lemma {:induction false} CountByteValue(n: nat)
    ensures CountByte(n) as nat == n % 256
  {
    if n == 0 {
    } else {
      CountByteValue(n - 1);
      ByteIncrement(CountByte(n - 1));
      ModIncrement(n - 1);
    }
  }

  /** The bytes of a byte-string literal. */
  function Ascii(s: string): (b: Bytes)
    ensures |b| == |s|
  {
    seq(|s|, i requires 0 <= i < |s| => CountByte(s[i] as nat))
  }

  /** Each byte is its character's code. */
  lemma AsciiAt(s: string, i: nat)
    requires i < |s|
    ensures Ascii(s)[i] as nat == s[i] as nat % 256
  {
    CountByteValue(s[i] as nat);
  }

  lemma ByteIncrement(b: byte)
    ensures (b + 1) as nat == if b as nat == 255 then 0 else b as nat + 1
  {
  }

  lemma ModIncrement(n: nat)
    ensures (n + 1) % 256 == if n % 256 == 255 then 0 else n % 256 + 1
  {
  }

  lemma ByteIsItsValue(b: byte, c: byte)
    requires b as nat == c as nat
    ensures b == c
  {
  }

  lemma CountByteOf(n: nat, b: byte)
    requires b as nat == n < 256
    ensures CountByte(n) == b
  {
    var c := CountByte(n);
    assert c as nat == n by {
      CountByteValue(n);
      SmallMod(n);
    }
    ByteIsItsValue(b, c);
  }

  lemma SmallMod(n: nat)
    requires n < 256
    ensures n % 256 == n
  {
  }

  lemma SubSlice(b: Bytes, lo: nat, hi: nat, i: nat, j: nat)
    requires lo <= hi <= |b| && i <= j <= hi - lo
    ensures b[lo..hi][i..j] == b[lo + i..lo + j]
  {
    var s, r := b[lo..hi][i..j], b[lo + i..lo + j];
    assert |s| == |r|;
    forall k | 0 <= k < j - i ensures s[k] == r[k] {
      assert b[lo..hi][i + k] == b[lo + (i + k)];
    }
  }

  lemma JoinSlices(b: Bytes, lo: nat, mid: nat, hi: nat)
    requires lo <= mid <= hi <= |b|
    ensures b[lo..hi] == b[lo..mid] + b[mid..hi]
  {
  }

  lemma Regroup(a: Bytes, b: Bytes, c: Bytes)
    ensures a + b + c == a + (b + c)
  {
  }

  function U32ToLe(x: u32): (b: Bytes)
    ensures |b| == 4
  {
    [(x & 0xFF) as byte, ((x >> 8) & 0xFF) as byte, ((x >> 16) & 0xFF) as byte, ((x >> 24) & 0xFF) as byte]
  }

  function U32FromLe(b: Bytes): u32
    requires |b| == 4
  {
    (b[0] as u32) | ((b[1] as u32) << 8) | ((b[2] as u32) << 16) | ((b[3] as u32) << 24)
  }

  function U64ToLe(x: u64): (b: Bytes)
    ensures |b| == 8
  {
    [(x & 0xFF) as byte, ((x >> 8) & 0xFF) as byte, ((x >> 16) & 0xFF) as byte, ((x >> 24) & 0xFF) as byte,
     ((x >> 32) & 0xFF) as byte, ((x >> 40) & 0xFF) as byte, ((x >> 48) & 0xFF) as byte, ((x >> 56) & 0xFF) as byte]
  }

  function U64FromLe(b: Bytes): u64
    requires |b| == 8
  {
    (b[0] as u64) | ((b[1] as u64) << 8) | ((b[2] as u64) << 16) | ((b[3] as u64) << 24) |
    ((b[4] as u64) << 32) | ((b[5] as u64) << 40) | ((b[6] as u64) << 48) | ((b[7] as u64) << 56)
  }

  /** The least significant byte comes first, and the rest is the value without it. */
  lemma U32LowByteFirst(x: u32)
    ensures U32ToLe(x)[0] as u32 == x & 0xFF
    ensures U32ToLe(x)[1..] + [0] == U32ToLe(x >> 8)
  {
  }

  lemma U64LowByteFirst(x: u64)
    ensures U64ToLe(x)[0] as u64 == x & 0xFF
    ensures U64ToLe(x)[1..] + [0] == U64ToLe(x >> 8)
  {
  }

  lemma U32RoundTrip(x: u32)
    ensures U32FromLe(U32ToLe(x)) == x
  {
  }

  lemma U32ReverseRoundTrip(b: Bytes)
    requires |b| == 4
    ensures U32ToLe(U32FromLe(b)) == b
  {
  }

  lemma U64RoundTrip(x: u64)
    ensures U64FromLe(U64ToLe(x)) == x
  {
  }

  lemma U64ReverseRoundTrip(b: Bytes)
    requires |b| == 8
    ensures U64ToLe(U64FromLe(b)) == b
  {
  }
}
