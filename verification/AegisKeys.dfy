/** The container every key lives in: an owned buffer, compared by a fold without early exit. */
module AegisKeys {
  import opened ByteStrings

  class AegisKey {
    const data: array<byte>

    /** `new`: allocate a zeroed buffer and copy the material into it. */
    constructor (material: Bytes)
      ensures fresh(data)
      ensures data[..] == material
    {
      var buffer := new byte[|material|](_ => 0);
      for i := 0 to |material|
        invariant buffer[..i] == material[..i]
      {
        buffer[i] := material[i];
      }
      assert buffer[..] == material;
      data := buffer;
    }

    /** `expose`: the bytes of the key. */
    function Expose(): Bytes
      reads data
    {
      data[..]
    }

    /** `ct_eq`: the XOR-OR accumulator decides equality. */
    method CtEq(other: AegisKey) returns (equal: bool)
      ensures equal <==> Expose() == other.Expose()
    {
      if data.Length != other.data.Length {
        return false;
      }
      var acc: byte := 0;
      for i := 0 to data.Length
        invariant acc == 0 <==> data[..i] == other.data[..i]
      {
        var differing := data[i] ^ other.data[i];
        XorZero(data[i], other.data[i]);
        OrKeepsBits(acc, differing);
        assert data[..i + 1] == data[..i] + [data[i]];
        assert other.data[..i + 1] == other.data[..i] + [other.data[i]];
        acc := acc | differing;
      }
      assert data[..] == data[..data.Length] && other.data[..] == other.data[..other.data.Length];
      return acc == 0;
    }

    /** `burn`: the buffer is overwritten in place. */
    method Burn()
      modifies data
      ensures Expose() == Zeros(data.Length)
    {
      for i := 0 to data.Length
        invariant forall k :: 0 <= k < i ==> data[k] == 0
      {
        data[i] := 0;
      }
    }
  }

  lemma XorZero(a: byte, b: byte)
    ensures a ^ b == 0 <==> a == b
  {
  }

  /** A bit once set in the accumulator stays set. */
  lemma OrKeepsBits(acc: byte, more: byte)
    ensures (acc | more) & acc == acc
    ensures acc | more == 0 <==> acc == 0 && more == 0
  {
  }
}
