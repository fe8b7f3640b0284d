/** CRC-32 as section 5.5 of the W3C PNG Specification (Second Edition)
    defines it for the last field of every chunk: the reflected polynomial
    0xEDB88320, register preset to all ones and complemented at the end. The
    encoder obtains it from the `crc32fast` crate; this is a bitwise reference
    definition of the same function, not a model of that crate. */
module Crc32 {
  import opened Bytes

  const POLYNOMIAL: bv32 := 0xEDB8_8320

  /** `k` rounds of the shift register, one per bit, least significant first. */
  function ShiftBits(c: bv32, k: nat): bv32
    decreases k
  {
    if k == 0 then c
    else ShiftBits(if c & 1 == 1 then POLYNOMIAL ^ (c >> 1) else c >> 1, k - 1)
  }

  /** The register after one byte: the byte enters the low eight bits and
      eight rounds shift it through. */
  function ByteStep(c: bv32, b: byte): bv32
  {
    ShiftBits(c ^ (b as bv32), 8)
  }

  /** The register after feeding it `data`, one byte at a time. */
  function Update(c: bv32, data: seq<byte>): bv32
    decreases |data|
  {
    if |data| == 0 then c else Update(ByteStep(c, data[0]), data[1..])
  }

  /** The register a new hasher starts from. */
  const INITIAL: bv32 := 0xFFFF_FFFF

  /** `finalize`: the register complemented. */
  function Finalize(c: bv32): u32
  {
    (c ^ 0xFFFF_FFFF) as int
  }

  /** The CRC-32 of `data`. */
  function Checksum(data: seq<byte>): u32
  {
    Finalize(Update(INITIAL, data))
  }

  /** Feeding two pieces one after the other is feeding their concatenation,
      so `crc.update(chunk_type); crc.update(data)` computes the CRC-32 of the
      type followed by the data. */
  lemma {:induction false} UpdateAppend(c: bv32, s: seq<byte>, t: seq<byte>)
    ensures Update(Update(c, s), t) == Update(c, s + t)
    decreases |s|
  {
    if |s| > 0 {
      assert (s + t)[1..] == s[1..] + t;
      UpdateAppend(ByteStep(c, s[0]), s[1..], t);
    } else {
      assert s + t == t;
    }
  }

  /** The CRC of an empty IEND chunk, the well-known last four bytes of
      every PNG file. */
  lemma IendValue()
    ensures Checksum([73, 69, 78, 68]) == 0xAE42_6082
  {
    IendSteps([73, 69, 78, 68]);
  }

  /** The four register values while the type `IEND` goes through. */
  lemma IendSteps(s: seq<byte>)
    requires |s| == 4 && s[0] == 73 && s[1] == 69 && s[2] == 78 && s[3] == 68
    ensures Checksum(s) == 0xAE42_6082
  {
    var t1, t2, t3 := s[1..], s[1..][1..], s[1..][1..][1..];
    assert ByteStep(INITIAL, 73) == 0x22FD_E946;
    assert Update(INITIAL, s) == Update(0x22FD_E946, t1);
    assert ByteStep(0x22FD_E946, 69) == 0x992B_AC53;
    assert Update(0x22FD_E946, t1) == Update(0x992B_AC53, t2);
    assert ByteStep(0x992B_AC53, 78) == 0x639F_4775;
    assert Update(0x992B_AC53, t2) == Update(0x639F_4775, t3);
    assert ByteStep(0x639F_4775, 68) == 0x51BD_9F7D;
    assert t3[1..] == [];
    assert Update(0x639F_4775, t3) == 0x51BD_9F7D;
    assert Finalize(0x51BD_9F7D) == 0xAE42_6082;
  }
}
