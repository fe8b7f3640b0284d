/** The Adler-32 checksum that `PngEncoder::adler32` computes for the trailer
    of the compressed stream (the checksum of RFC 1950, section 8.2). */
module Adler32 {
  import opened Bytes

  const MOD_ADLER := 65521

  /** The running sum `a` after the bytes of `data`, reduced modulo 65521
      after every byte, as the source's loop keeps it. */
  function SumA(data: seq<byte>): (a: nat)
    ensures 1 <= |data| ==> a < MOD_ADLER
    ensures |data| == 0 ==> a == 1
    decreases |data|
  {
    if |data| == 0 then 1 else (SumA(data[..|data| - 1]) + data[|data| - 1]) % MOD_ADLER
  }

  /** The running sum `b`: after each byte the new `a` is added, and the sum
      reduced modulo 65521. */
  function SumB(data: seq<byte>): (b: nat)
    ensures b < MOD_ADLER
    decreases |data|
  {
    if |data| == 0 then 0 else (SumB(data[..|data| - 1]) + SumA(data)) % MOD_ADLER
  }

  /** The checksum `(b << 16) | a`; since `a < 2^16` the or is an addition. */
  function Checksum(data: seq<byte>): (r: u32)
  {
    SumB(data) * 0x1_0000 + SumA(data)
  }

  /** The unreduced sum `A` of RFC 1950: one plus the sum of the bytes. */
  function RawA(data: seq<byte>): nat
    decreases |data|
  {
    if |data| == 0 then 1 else RawA(data[..|data| - 1]) + data[|data| - 1]
  }

  /** The unreduced sum `B` of RFC 1950: the sum of `A` over every non-empty
      prefix of `data`. */
  function RawB(data: seq<byte>): nat
    decreases |data|
  {
    if |data| == 0 then 0 else RawB(data[..|data| - 1]) + RawA(data)
  }

  /** Reducing after every byte, as the source does, gives the same sums as
      reducing once at the end: the loop computes the checksum RFC 1950
      defines. */
  lemma {:induction false} SumsAreReducedRawSums(data: seq<byte>)
    ensures SumA(data) == RawA(data) % MOD_ADLER
    ensures SumB(data) == RawB(data) % MOD_ADLER
    decreases |data|
  {
    if |data| > 0 {
      var prefix := data[..|data| - 1];
      SumsAreReducedRawSums(prefix);
      ModAddLeft(RawA(prefix), data[|data| - 1]);
      ModAddLeft(RawB(prefix), RawA(data));
      ModAddRight(RawB(prefix) % MOD_ADLER, RawA(data));
    }
  }

  lemma ModAddLeft(x: nat, y: nat)
    ensures (x % MOD_ADLER + y) % MOD_ADLER == (x + y) % MOD_ADLER
  {
  }

  lemma ModAddRight(x: nat, y: nat)
    ensures (x + y % MOD_ADLER) % MOD_ADLER == (x + y) % MOD_ADLER
  {
  }

  /** `PngEncoder::adler32`: the loop over the bytes, with both sums below
      65521 after every byte. */
  method ComputeAdler32(data: seq<byte>) returns (r: u32)
    ensures r == Checksum(data)
  {
    var a: nat := 1;
    var b: nat := 0;
    for i := 0 to |data|
      invariant a == SumA(data[..i]) && b == SumB(data[..i])
      invariant a < MOD_ADLER && b < MOD_ADLER
    {
      assert data[..i + 1][..i] == data[..i];
      a := (a + data[i]) % MOD_ADLER;
      b := (b + a) % MOD_ADLER;
    }
    assert data[..|data|] == data;
    r := b * 0x1_0000 + a;
  }

  /** One more byte: the step of the source's loop. */
  lemma SumsAppend(data: seq<byte>, x: byte, a: nat, b: nat)
    requires SumA(data) == a && SumB(data) == b
    ensures SumA(data + [x]) == (a + x) % MOD_ADLER
    ensures SumB(data + [x]) == (b + (a + x) % MOD_ADLER) % MOD_ADLER
  {
    assert (data + [x])[..|data|] == data;
  }

  /** The step of the loop at byte `i` of `d`. */
  lemma SumsStep(d: seq<byte>, i: nat, a: nat, b: nat)
    requires i < |d| && SumA(d[..i]) == a && SumB(d[..i]) == b
    ensures SumA(d[..i + 1]) == (a + d[i]) % MOD_ADLER
    ensures SumB(d[..i + 1]) == (b + (a + d[i]) % MOD_ADLER) % MOD_ADLER
  {
    SumsAppend(d[..i], d[i], a, b);
    assert d[..i] + [d[i]] == d[..i + 1];
  }

  /** The checksums the source's own test expects. */
  lemma KnownValues()
    ensures Checksum([]) == 1
    ensures Checksum([97]) == 0x0062_0062
    ensures Checksum([97, 98, 99]) == 0x024d_0127
  {
    AbcSteps([97]);
    AbcSteps([97, 98, 99]);
  }

  lemma AbcSteps(d: seq<byte>)
    requires 1 <= |d| <= 3 && d[0] == 97
    requires |d| == 3 ==> d[1] == 98 && d[2] == 99
    ensures |d| == 1 ==> Checksum(d) == 0x0062_0062
    ensures |d| == 3 ==> Checksum(d) == 0x024d_0127
  {
    TakeAll(d);
    SumsStep(d, 0, 1, 0);
    if |d| == 3 {
      SumsStep(d, 1, 98, 98);
      SumsStep(d, 2, 196, 294);
    }
  }

  /** The checksum of "message digest" that the source's own test expects. */
  lemma MessageDigestValue()
    ensures Checksum([109, 101, 115, 115, 97, 103, 101, 32, 100, 105, 103, 101, 115, 116]) == 0x2975_0586
  {
    MessageDigestSteps([109, 101, 115, 115, 97, 103, 101, 32, 100, 105, 103, 101, 115, 116]);
  }

  /** The fourteen steps of the loop over "message digest", one byte at a
      time, with the sums after each written out. */
  lemma MessageDigestSteps(d: seq<byte>)
    requires |d| == 14
    requires d[0] == 109 && d[1] == 101 && d[2] == 115 && d[3] == 115 && d[4] == 97 && d[5] == 103 && d[6] == 101
    requires d[7] == 32 && d[8] == 100 && d[9] == 105 && d[10] == 103 && d[11] == 101 && d[12] == 115 && d[13] == 116
    ensures Checksum(d) == 0x2975_0586
  {
    MessageDigestFirstSteps(d);
    SumsAppend(d[..7], d[7], 742, 3009);
    assert d[..7] + [d[7]] == d[..8];
    SumsAppend(d[..8], d[8], 774, 3783);
    assert d[..8] + [d[8]] == d[..9];
    SumsAppend(d[..9], d[9], 874, 4657);
    assert d[..9] + [d[9]] == d[..10];
    SumsAppend(d[..10], d[10], 979, 5636);
    assert d[..10] + [d[10]] == d[..11];
    SumsAppend(d[..11], d[11], 1082, 6718);
    assert d[..11] + [d[11]] == d[..12];
    SumsAppend(d[..12], d[12], 1183, 7901);
    assert d[..12] + [d[12]] == d[..13];
    SumsAppend(d[..13], d[13], 1298, 9199);
    assert d[..13] + [d[13]] == d[..14];
    assert d[..14] == d;
  }

  /** The first seven steps: the sums after "message". */
  lemma MessageDigestFirstSteps(d: seq<byte>)
    requires |d| == 14
    requires d[0] == 109 && d[1] == 101 && d[2] == 115 && d[3] == 115 && d[4] == 97 && d[5] == 103 && d[6] == 101
    requires d[7] == 32 && d[8] == 100 && d[9] == 105 && d[10] == 103 && d[11] == 101 && d[12] == 115 && d[13] == 116
    ensures SumA(d[..7]) == 742 && SumB(d[..7]) == 3009
  {
    SumsAppend(d[..0], d[0], 1, 0);
    assert d[..0] + [d[0]] == d[..1];
    SumsAppend(d[..1], d[1], 110, 110);
    assert d[..1] + [d[1]] == d[..2];
    SumsAppend(d[..2], d[2], 211, 321);
    assert d[..2] + [d[2]] == d[..3];
    SumsAppend(d[..3], d[3], 326, 647);
    assert d[..3] + [d[3]] == d[..4];
    SumsAppend(d[..4], d[4], 441, 1088);
    assert d[..4] + [d[4]] == d[..5];
    SumsAppend(d[..5], d[5], 538, 1626);
    assert d[..5] + [d[5]] == d[..6];
    SumsAppend(d[..6], d[6], 641, 2267);
    assert d[..6] + [d[6]] == d[..7];
  }
}
