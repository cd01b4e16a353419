/** Bytes, and the 4-byte length that stands before every header and every response. */
module Bytes {
  type byte = x: int | 0 <= x < 256

  type bytes = seq<byte>

  const TWO32 := 0x1_0000_0000

  type uint32 = x: int | 0 <= x < TWO32

  /** A size kept in 32 bits. */
  function Low32(n: nat): uint32 {
    n % TWO32
  }

  predicate Is32(x: int) {
    -0x8000_0000 <= x < 0x8000_0000
  }

  /** A number kept in 32 bits, read as a signed number. */
  function Wrap(x: int): (r: int)
    ensures Is32(r)
  {
    (x + 0x8000_0000) % TWO32 - 0x8000_0000
  }

  /** Wrapping changes exactly the numbers that 32 bits do not hold. */
  lemma WrapFits(x: int)
    ensures (Wrap(x) == x <==> Is32(x)) && Is32(Wrap(x))
  {
  }

  /** The four bytes of a length, lowest first. */
  function Prefix(n: uint32): (p: bytes)
    ensures |p| == 4
  {
    [n % 256, n / 0x100 % 256, n / 0x1_0000 % 256, n / 0x100_0000]
  }

  function Length(p: bytes): uint32
    requires |p| == 4
  {
    var b0: int, b1: int, b2: int, b3: int := p[0], p[1], p[2], p[3];
    b0 + 0x100 * b1 + 0x1_0000 * b2 + 0x100_0000 * b3
  }

  /** What is left of a number without its `i` lowest bytes. */
  function Shifted(n: nat, i: nat): nat {
    if i == 0 then n else Shifted(n, i - 1) / 256
  }

  /** Byte `i` of the length is the `i`-th lowest of the number. */
  lemma LowestFirst(n: uint32, i: nat)
    requires i < 4
    ensures Prefix(n)[i] == Shifted(n, i) % 256
  {
    assert Shifted(n, 1) == n / 256;
    assert Shifted(n, 2) == n / 256 / 256 == n / 0x1_0000;
    assert Shifted(n, 3) == n / 0x1_0000 / 256 == n / 0x100_0000 < 256;
  }

  lemma LengthOfPrefix(n: uint32)
    ensures Length(Prefix(n)) == n
  {
    assert n / 0x1_0000 == n / 0x100 / 256;
    assert n / 0x100_0000 == n / 0x1_0000 / 256;
  }
}
