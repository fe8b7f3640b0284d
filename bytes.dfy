/** Byte-level vocabulary shared by the encoder: bytes, 32-bit unsigned
    integers and their big-endian serialisation (`u32::to_be_bytes` and
    `u32::from_be_bytes`). */
module Bytes {

  datatype Option<T> = None | Some(value: T)

  /** A `u8`. */
  type byte = x: int | 0 <= x < 256

  /** A `u32`. */
  type u32 = x: int | 0 <= x < 0x1_0000_0000

  function Min(a: int, b: int): int
  {
    if a < b then a else b
  }

  /** `n as u32`: the low 32 bits, so a number that fits is unchanged. */
  function AsU32(n: nat): (r: u32)
    ensures n < 0x1_0000_0000 ==> r == n
  {
    n % 0x1_0000_0000
  }

  /** `x.to_be_bytes()`: most significant byte first. */
  function BE32(x: u32): (r: seq<byte>)
    ensures |r| == 4
  {
    var x1 := x / 0x100;
    var x2 := x1 / 0x100;
    [x2 / 0x100, x2 % 0x100, x1 % 0x100, x % 0x100]
  }

  /** `u32::from_be_bytes`: reads four bytes, most significant first. */
  function FromBE32(s: seq<byte>): (x: u32)
    requires |s| == 4
  {
    (((s[0] as int) * 0x100 + s[1]) * 0x100 + s[2]) * 0x100 + s[3]
  }

  /** Division by 256 has a unique quotient and remainder. */
  lemma DivMod256(x: nat, q: nat, r: nat)
    requires r < 0x100 && x == q * 0x100 + r
    ensures x / 0x100 == q && x % 0x100 == r
  {
  }

  /** Reading back what `BE32` wrote gives the number again. */
  lemma FromBE32OfBE32(x: u32)
    ensures FromBE32(BE32(x)) == x
  {
    var x1 := x / 0x100;
    var x2 := x1 / 0x100;
    assert x == x1 * 0x100 + x % 0x100;
    assert x1 == x2 * 0x100 + x1 % 0x100;
    assert x2 == (x2 / 0x100) * 0x100 + x2 % 0x100;
  }

  /** Every four bytes are the big-endian form of the number they spell, so
      two different numbers never share a serialisation. */
  lemma BE32OfFromBE32(s: seq<byte>)
    requires |s| == 4
    ensures BE32(FromBE32(s)) == s
  {
    var hi := (s[0] as int) * 0x100 + s[1];
    var mid := hi * 0x100 + s[2];
    DivMod256(FromBE32(s), mid, s[3]);
    DivMod256(mid, hi, s[2]);
    DivMod256(hi, s[0], s[1]);
  }

  /** Multiplying by the same non-negative number keeps the order. */
  lemma MulMonotone(a: int, b: int, c: nat)
    requires a <= b
    ensures a * c <= b * c
  {
  }

  // Facts about concatenation and slicing, stated once so that the proofs
  // that need them call them instead of rediscovering them in a larger context.

  lemma TakeAll(s: seq<byte>)
    ensures s[..|s|] == s
  {
  }

  lemma DropPrefix(a: seq<byte>, b: seq<byte>)
    ensures (a + b)[|a|..] == b
  {
  }

  lemma PrefixAppend(s: seq<byte>, i: nat, j: nat)
    requires i <= j <= |s|
    ensures s[..i] + s[i..j] == s[..j]
  {
  }

  lemma SliceOfPrefix(a: seq<byte>, b: seq<byte>, i: nat, j: nat)
    requires i <= j <= |a|
    ensures (a + b)[i..j] == a[i..j]
  {
  }

  lemma AppendAssoc(a: seq<byte>, b: seq<byte>, c: seq<byte>)
    ensures (a + b) + c == a + (b + c)
  {
  }

  lemma Reassociate(before: seq<byte>, a: seq<byte>, b: seq<byte>, c: seq<byte>, d: seq<byte>)
    ensures before + a + b + c + d == before + (a + b + c + d)
  {
  }

  lemma PushedBytes(prefix: seq<byte>, a: byte, b: byte, c: byte, d: byte, e: byte)
    ensures prefix + [a] + [b] + [c] + [d] + [e] == prefix + [a, b, c, d, e]
  {
  }
}
