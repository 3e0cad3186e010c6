/** Bytes, and numbers written most or least significant byte first. */
module Endian {

  type byte = x: int | 0 <= x < 256

  const TWO32 := 0x1_0000_0000
  const TWO64 := 0x1_0000_0000_0000_0000

  type u32 = x: int | 0 <= x < TWO32
  type u64 = x: int | 0 <= x < TWO64

  /** Unsigned 64-bit addition, with wrap-around. */
  function Add64(a: int, b: int): u64 {
    (a + b) % TWO64
  }

  /** Conversion of an unsigned word to a 32-bit signed `int`. */
  function ToInt32(x: int): int {
    (x + 0x8000_0000) % TWO32 - 0x8000_0000
  }

  /** An `int` of 32 bits, two's complement. */
  lemma ToInt32Is(x: int)
    ensures -0x8000_0000 <= ToInt32(x) < 0x8000_0000 && (x - ToInt32(x)) % 0x1_0000_0000 == 0
    ensures -0x8000_0000 <= x < 0x8000_0000 ==> ToInt32(x) == x
  {
  }

  function Pow256(n: nat): (p: nat)
    ensures p >= 1
  {
    if n == 0 then 1 else 256 * Pow256(n - 1)
  }

  /** The low `n` bytes of `x`, most significant first (network order). */
  function BytesBE(x: nat, n: nat): (b: seq<byte>)
    ensures |b| == n
  {
    if n == 0 then [] else BytesBE(x / 256, n - 1) + [x % 256]
  }

  function NatBE(b: seq<byte>): nat {
    if b == [] then 0 else 256 * NatBE(b[..|b| - 1]) + b[|b| - 1]
  }

  /** What a little-endian host makes of the same bytes. */
  function NatLE(b: seq<byte>): nat {
    if b == [] then 0 else b[0] + 256 * NatLE(b[1..])
  }

  function BytesLE(x: nat, n: nat): (b: seq<byte>)
    ensures |b| == n
  {
    if n == 0 then [] else [x % 256] + BytesLE(x / 256, n - 1)
  }

  lemma {:induction false} NatBytesBE(x: nat, n: nat)
    requires x < Pow256(n)
    ensures NatBE(BytesBE(x, n)) == x
  {
    if n > 0 {
      NatBytesBE(x / 256, n - 1);
      assert BytesBE(x, n)[..n - 1] == BytesBE(x / 256, n - 1);
    }
  }

  lemma {:induction false} BytesNatBE(b: seq<byte>)
    ensures NatBE(b) < Pow256(|b|)
    ensures BytesBE(NatBE(b), |b|) == b
  {
    if b != [] {
      BytesNatBE(b[..|b| - 1]);
      assert NatBE(b) / 256 == NatBE(b[..|b| - 1]);
    }
  }

  lemma {:induction false} NatBytesLE(x: nat, n: nat)
    requires x < Pow256(n)
    ensures NatLE(BytesLE(x, n)) == x
  {
    if n > 0 {
      NatBytesLE(x / 256, n - 1);
      assert BytesLE(x, n)[1..] == BytesLE(x / 256, n - 1);
    }
  }

  lemma {:induction false} BytesNatLE(b: seq<byte>)
    ensures NatLE(b) < Pow256(|b|)
    ensures BytesLE(NatLE(b), |b|) == b
  {
    if b != [] {
      BytesNatLE(b[1..]);
      assert NatLE(b) / 256 == NatLE(b[1..]);
    }
  }

  lemma Pow256Widths()
    ensures Pow256(2) == 0x1_0000 && Pow256(4) == TWO32 && Pow256(8) == TWO64
  {
    assert Pow256(2) == 256 * Pow256(1);
    assert Pow256(4) == 256 * (256 * Pow256(2));
    assert Pow256(6) == 256 * (256 * Pow256(4));
    assert Pow256(8) == 256 * (256 * Pow256(6));
  }

  /** Distinct byte strings of one length are distinct numbers, in either order. */
  lemma FourBytes(b: seq<byte>, w: int, x: int, y: int, z: int)
    requires |b| == 4 && w == b[0] && x == b[1] && y == b[2] && z == b[3]
    ensures NatBE(b) == 0x100_0000 * w + 0x1_0000 * x + 0x100 * y + z
    ensures NatLE(b) == 0x100_0000 * z + 0x1_0000 * y + 0x100 * x + w
  {
    assert b[..3][..2] == b[..2] && b[..2][..1] == b[..1] && b[..1][..0] == [];
    assert NatBE(b[..1]) == w;
    assert NatBE(b[..2]) == 256 * NatBE(b[..2][..1]) + x;
    assert NatBE(b[..3]) == 256 * NatBE(b[..3][..2]) + y;
    assert b[1..][1..] == b[2..] && b[2..][1..] == b[3..] && b[3..][1..] == [];
    assert NatLE(b[3..]) == z;
    assert NatLE(b[2..]) == y + 256 * NatLE(b[2..][1..]);
    assert NatLE(b[1..]) == x + 256 * NatLE(b[1..][1..]);
  }

  lemma SameNumberSameBytes(a: seq<byte>, b: seq<byte>)
    requires |a| == |b|
    ensures NatLE(a) == NatLE(b) <==> a == b
    ensures NatBE(a) == NatBE(b) <==> a == b
  {
    BytesNatLE(a);
    BytesNatLE(b);
    BytesNatBE(a);
    BytesNatBE(b);
  }

  /** A number stored in network order, as a little-endian host reads it:
  `htonl` for `n == 4`, `htonll` for `n == 8`. */
  function HostToNet(x: nat, n: nat): nat {
    NatLE(BytesBE(x, n))
  }

  /** Comparing raw memory with a converted key is comparing values. */
  lemma HostToNetFinds(b: seq<byte>, x: nat)
    requires x < Pow256(|b|)
    ensures NatLE(b) == HostToNet(x, |b|) <==> NatBE(b) == x
  {
    SameNumberSameBytes(b, BytesBE(x, |b|));
    NatBytesBE(x, |b|);
  }
}
