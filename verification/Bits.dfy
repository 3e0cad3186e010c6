/** Bitwise operations on unbounded naturals.

The C sources work on 32- and 64-bit words with `&`, `|`, `~`, `<<` and `>>`.
Here a word is a `nat`, each operation is defined one bit at a time, and each is
characterised by what it does to every single bit. `SameBits` turns bit-by-bit
agreement back into equality. */
module Bits {

  function Pow2(n: nat): (p: nat)
    ensures p >= 1
  {
    if n == 0 then 1 else 2 * Pow2(n - 1)
  }

  function And(a: nat, b: nat): nat {
    if a == 0 || b == 0 then 0 else 2 * And(a / 2, b / 2) + (if a % 2 == 1 && b % 2 == 1 then 1 else 0)
  }

  function Or(a: nat, b: nat): nat {
    if a == 0 then b else if b == 0 then a
    else 2 * Or(a / 2, b / 2) + (if a % 2 == 1 || b % 2 == 1 then 1 else 0)
  }

  function Shl(x: nat, n: nat): nat {
    if n == 0 then x else 2 * Shl(x, n - 1)
  }

  function Shr(x: nat, n: nat): nat {
    if n == 0 then x else Shr(x / 2, n - 1)
  }

  /** The low `n` bits of `x`. */
  function Low(x: nat, n: nat): nat {
    if n == 0 then 0 else 2 * Low(x / 2, n - 1) + x % 2
  }

  /** One's complement in a word of `w` bits. */
  function Not(x: nat, w: nat): nat
    requires x < Pow2(w)
  {
    Pow2(w) - 1 - x
  }

  predicate Bit(x: nat, i: nat) {
    if i == 0 then x % 2 == 1 else Bit(x / 2, i - 1)
  }

  lemma {:induction false} BitAnd(a: nat, b: nat, i: nat)
    ensures Bit(And(a, b), i) == (Bit(a, i) && Bit(b, i))
    decreases i
  {
    if a == 0 || b == 0 {
      BitZero(i);
    } else if i > 0 {
      BitAnd(a / 2, b / 2, i - 1);
    }
  }

  lemma {:induction false} BitOr(a: nat, b: nat, i: nat)
    ensures Bit(Or(a, b), i) == (Bit(a, i) || Bit(b, i))
    decreases i
  {
    if a == 0 || b == 0 {
      BitZero(i);
    } else if i > 0 {
      BitOr(a / 2, b / 2, i - 1);
    }
  }

  lemma {:induction false} BitShl(x: nat, n: nat, i: nat)
    ensures Bit(Shl(x, n), i) == (i >= n && Bit(x, i - n))
    decreases n
  {
    if n > 0 {
      assert Shl(x, n) / 2 == Shl(x, n - 1);
      if i > 0 {
        BitShl(x, n - 1, i - 1);
      }
    }
  }

  lemma {:induction false} BitShr(x: nat, n: nat, i: nat)
    ensures Bit(Shr(x, n), i) == Bit(x, i + n)
    decreases n
  {
    if n > 0 {
      BitShr(x / 2, n - 1, i);
    }
  }

  lemma {:induction false} BitLow(x: nat, n: nat, i: nat)
    ensures Bit(Low(x, n), i) == (i < n && Bit(x, i))
    decreases n
  {
    if n == 0 {
      BitZero(i);
    } else if i > 0 {
      assert Low(x, n) / 2 == Low(x / 2, n - 1);
      BitLow(x / 2, n - 1, i - 1);
    }
  }

  lemma {:induction false} BitNot(x: nat, w: nat, i: nat)
    requires x < Pow2(w)
    ensures Bit(Not(x, w), i) == (i < w && !Bit(x, i))
    decreases w
  {
    if w == 0 {
      BitZero(i);
    } else {
      assert Not(x, w) / 2 == Not(x / 2, w - 1);
      if i > 0 {
        BitNot(x / 2, w - 1, i - 1);
      }
    }
  }

  lemma {:induction false} BitZero(i: nat)
    ensures !Bit(0, i)
  {
    if i > 0 {
      BitZero(i - 1);
    }
  }

  /** No bit is set at or above the width of a word. */
  lemma {:induction false} BitAbove(x: nat, w: nat, i: nat)
    requires x < Pow2(w) && i >= w
    ensures !Bit(x, i)
    decreases w
  {
    if w == 0 {
      BitZero(i);
    } else {
      BitAbove(x / 2, w - 1, i - 1);
    }
  }

  /** Words that agree on every bit are equal. */
  lemma {:induction false} SameBits(a: nat, b: nat)
    requires forall i: nat :: Bit(a, i) == Bit(b, i)
    ensures a == b
    decreases a + b
  {
    assert Bit(a, 0) == Bit(b, 0);
    if a + b > 0 {
      forall i: nat
        ensures Bit(a / 2, i) == Bit(b / 2, i)
      {
        assert Bit(a, i + 1) == Bit(b, i + 1);
      }
      SameBits(a / 2, b / 2);
    }
  }

  lemma {:induction false} LowIsMod(x: nat, n: nat)
    ensures Low(x, n) == x % Pow2(n)
    ensures Low(x, n) < Pow2(n)
    decreases n
  {
    if n > 0 {
      LowIsMod(x / 2, n - 1);
      HalfMod(x, Pow2(n - 1));
    }
  }

  lemma HalfMod(x: nat, p: nat)
    requires p >= 1
    ensures x % (2 * p) == 2 * ((x / 2) % p) + x % 2
  {
    var q, r := (x / 2) / p, (x / 2) % p;
    assert x / 2 == p * q + r;
    assert x == (2 * p) * q + (2 * r + x % 2);
    ModOf(x, 2 * p, q, 2 * r + x % 2);
  }

  lemma Scaled(m: int, d: int)
    requires m > 0
    ensures d >= 1 ==> m * d >= m
    ensures d <= -1 ==> m * d <= -m
  {
  }

  /** Euclidean remainders are unique. */
  lemma ModOf(x: int, m: int, q: int, r: int)
    requires m > 0 && x == m * q + r && 0 <= r < m
    ensures x % m == r && x / m == q
  {
    var d := x / m - q;
    assert m * d == r - x % m by {
      assert m * (x / m) + x % m == x;
      assert m * d == m * (x / m) - m * q;
    }
    Scaled(m, d);
    assert d == 0;
  }

  lemma {:induction false} Pow2Monotone(k: nat, n: nat)
    requires k <= n
    ensures Pow2(k) <= Pow2(n)
    ensures k < n ==> Pow2(k) < Pow2(n)
  {
    if k < n {
      Pow2Monotone(k, n - 1);
    }
  }

  /** Masking with the bits `k..w` keeps exactly those bits: it drops the low
  `k` bits and everything from bit `w` up. */
  lemma {:induction false} AndHighMask(y: nat, k: nat, w: nat)
    requires k <= w
    ensures Pow2(k) <= Pow2(w)
    ensures And(y, Pow2(w) - Pow2(k)) == Low(y, w) - Low(y, k)
    decreases w
  {
    Pow2Monotone(k, w);
    var m := Pow2(w) - Pow2(k);
    if y == 0 {
      LowZero(w);
      LowZero(k);
    } else if k == w {
    } else {
      if k == 0 {
        AndHighMask(y / 2, 0, w - 1);
        assert m / 2 == Pow2(w - 1) - 1;
      } else {
        AndHighMask(y / 2, k - 1, w - 1);
        assert m / 2 == Pow2(w - 1) - Pow2(k - 1);
      }
    }
  }

  lemma {:induction false} LowZero(n: nat)
    ensures Low(0, n) == 0
  {
    if n > 0 {
      LowZero(n - 1);
    }
  }

  /** OR adds exactly what the two words do not have in common. */
  lemma {:induction false} OrPlusAnd(a: nat, b: nat)
    ensures Or(a, b) + And(a, b) == a + b
  {
    if a != 0 && b != 0 {
      OrPlusAnd(a / 2, b / 2);
    }
  }

  /** A number without bits from `w` up is below 2^w. */
  lemma {:induction false} BelowBits(x: nat, w: nat)
    requires forall i: nat | i >= w :: !Bit(x, i)
    ensures x < Pow2(w)
    decreases w
  {
    if w == 0 {
      forall i: nat
        ensures Bit(x, i) == Bit(0, i)
      {
        BitZero(i);
      }
      SameBits(x, 0);
    } else {
      forall i: nat | i >= w - 1
        ensures !Bit(x / 2, i)
      {
        assert Bit(x, i + 1) == Bit(x / 2, i);
      }
      BelowBits(x / 2, w - 1);
    }
  }

  lemma OrBelow(a: nat, b: nat, w: nat)
    requires a < Pow2(w) && b < Pow2(w)
    ensures Or(a, b) < Pow2(w)
  {
    hide Or, Pow2, Bit;
    forall i: nat | i >= w
      ensures !Bit(Or(a, b), i)
    {
      BitOr(a, b, i);
      BitAbove(a, w, i);
      BitAbove(b, w, i);
    }
    BelowBits(Or(a, b), w);
  }

  /** The low `n` bits set. */
  function Ones(n: nat): nat {
    Pow2(n) - 1
  }

  lemma BitOnes(n: nat, i: nat)
    ensures Bit(Ones(n), i) == (i < n)
  {
    BitNot(0, n, i);
    BitZero(i);
  }

  lemma Pow2Widths()
    ensures Pow2(32) == 0x1_0000_0000
    ensures Pow2(64) == 0x1_0000_0000_0000_0000
  {
    assert Pow2(8) == 256;
    assert Pow2(16) == 256 * Pow2(8);
    assert Pow2(24) == 256 * Pow2(16);
    assert Pow2(32) == 256 * Pow2(24);
    assert Pow2(40) == 256 * Pow2(32);
    assert Pow2(48) == 256 * Pow2(40);
    assert Pow2(56) == 256 * Pow2(48);
    assert Pow2(64) == 256 * Pow2(56);
  }
}
