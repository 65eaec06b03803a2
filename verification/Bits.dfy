/** Bits of natural numbers, and the C operators `<<`, `>>`, `&` and `|` on them.

    The decoders modelled in this project work on unsigned machine words.  Here a word is a natural number, the
    operators are `Shl`, `Shr`, `And` and `Or`, `1 << n` is `Pow2(n)`, and truncation to `s` bits is `Low(_, s)`.  All
    are defined bit by bit, so that every proof about them is an induction over bits. */
module Bits {

  function Pow2(n: nat): (r: nat)
    ensures r >= 1
  {
    if n == 0 then 1 else 2 * Pow2(n - 1)
  }

  /** Bit `j` of `x`, the least significant bit being bit 0. */
  function Bit(x: nat, j: nat): (b: nat)
    ensures b <= 1
  {
    if j == 0 then x % 2 else Bit(x / 2, j - 1)
  }

  function Shl(x: nat, k: nat): nat {
    if k == 0 then x else 2 * Shl(x, k - 1)
  }

  function Shr(x: nat, k: nat): nat {
    if k == 0 then x else Shr(x / 2, k - 1)
  }

  function Low(x: nat, s: nat): (r: nat)
    ensures r < Pow2(s)
  {
    if s == 0 then 0 else x % 2 + 2 * Low(x / 2, s - 1)
  }

  function And(x: nat, y: nat): nat
    decreases x
  {
    if x == 0 then 0 else (if x % 2 == 1 && y % 2 == 1 then 1 else 0) + 2 * And(x / 2, y / 2)
  }

  function Or(x: nat, y: nat): nat
    decreases x + y
  {
    if x + y == 0 then 0 else (if x % 2 + y % 2 == 0 then 0 else 1) + 2 * Or(x / 2, y / 2)
  }

  // ---------- powers and shifts ----------

  lemma {:induction false} Pow2Monotone(a: nat, b: nat)
    requires a <= b
    ensures Pow2(a) <= Pow2(b)
  {
    if a == b {
    } else {
      Pow2Monotone(a, b - 1);
    }
  }

  lemma Pow2Literals()
    ensures Pow2(5) == 32 && Pow2(8) == 256 && Pow2(9) == 512 && Pow2(15) == 32768 && Pow2(16) == 65536
    ensures Pow2(32) == 0x1_0000_0000
  {
    assert Pow2(4) == 16;
    assert Pow2(8) == 16 * Pow2(4);
    assert Pow2(12) == 16 * Pow2(8);
    assert Pow2(16) == 16 * Pow2(12);
    assert Pow2(20) == 16 * Pow2(16);
    assert Pow2(24) == 16 * Pow2(20);
    assert Pow2(28) == 16 * Pow2(24);
    assert Pow2(32) == 16 * Pow2(28);
  }

  lemma {:induction false} ShlZero(k: nat)
    ensures Shl(0, k) == 0
  {
    if k == 0 {
    } else {
      ShlZero(k - 1);
    }
  }

  lemma {:induction false} ShlPow2(a: nat, k: nat)
    ensures Shl(Pow2(a), k) == Pow2(a + k)
  {
    if k == 0 {
    } else {
      ShlPow2(a, k - 1);
    }
  }

  lemma {:induction false} ShlMonotone(a: nat, b: nat, k: nat)
    ensures Shl(a, k) <= Shl(b, k) <==> a <= b
  {
    if k == 0 {
    } else {
      ShlMonotone(a, b, k - 1);
    }
  }

  lemma {:induction false} ShlAgain(a: nat, j: nat, k: nat)
    ensures Shl(Shl(a, j), k) == Shl(a, j + k)
  {
    if k == 0 {
    } else {
      ShlAgain(a, j, k - 1);
    }
  }

  lemma {:induction false} ShlAdds(a: nat, b: nat, k: nat)
    ensures Shl(a + b, k) == Shl(a, k) + Shl(b, k)
  {
    if k == 0 {
    } else {
      ShlAdds(a, b, k - 1);
    }
  }

  /** `x >> k` is below `l` exactly when `x` is below `l << k`. */
  lemma {:induction false} ShrBelow(x: nat, k: nat, l: nat)
    ensures Shr(x, k) < l <==> x < Shl(l, k)
  {
    if k == 0 {
    } else {
      ShrBelow(x / 2, k - 1, l);
    }
  }

  lemma ShrBound(x: nat, a: nat, b: nat)
    requires x < Pow2(a + b)
    ensures Shr(x, b) < Pow2(a)
  {
    ShlPow2(a, b);
    ShrBelow(x, b, Pow2(a));
  }

  lemma {:induction false} LowOfSmall(x: nat, s: nat)
    requires x < Pow2(s)
    ensures Low(x, s) == x
  {
    if s == 0 {
    } else {
      LowOfSmall(x / 2, s - 1);
    }
  }

  /** Truncation to `s` bits has period `1 << s` ... */
  lemma {:induction false} LowPeriod(x: nat, s: nat)
    ensures Low(x + Pow2(s), s) == Low(x, s)
  {
    if s == 0 {
    } else {
      LowPeriod(x / 2, s - 1);
      assert (x + Pow2(s)) / 2 == x / 2 + Pow2(s - 1);
    }
  }

  /** ... and repeats nothing within a period. */
  lemma {:induction false} LowInjective(x: nat, y: nat, s: nat)
    requires x <= y < x + Pow2(s) && Low(x, s) == Low(y, s)
    ensures x == y
  {
    if s == 0 {
    } else {
      assert x % 2 == y % 2;
      LowInjective(x / 2, y / 2, s - 1);
    }
  }

  // ---------- bits of the operators ----------

  lemma {:induction false} BitOfZero(j: nat)
    ensures Bit(0, j) == 0
  {
    if j == 0 {
    } else {
      BitOfZero(j - 1);
    }
  }

  lemma {:induction false} BitByDivision(m: nat, j: nat)
    requires j < 16
    ensures Bit(m, j) == m / [1, 2, 4, 8, 16, 32, 64, 128, 256, 512, 1024, 2048, 4096, 8192, 16384, 32768][j] % 2
    ensures j in {0, 1, 2, 3, 4, 5, 6, 7, 8, 9, 10, 11, 12, 13, 14, 15}
  {
    if j == 0 {
    } else {
      BitByDivision(m / 2, j - 1);
    }
  }

  lemma {:induction false} BitAnd(x: nat, y: nat, j: nat)
    ensures Bit(And(x, y), j) == if Bit(x, j) == 1 && Bit(y, j) == 1 then 1 else 0
    decreases j
  {
    if x == 0 {
      BitOfZero(j);
    } else if j > 0 {
      BitAnd(x / 2, y / 2, j - 1);
    }
  }

  lemma {:induction false} BitOr(x: nat, y: nat, j: nat)
    ensures Bit(Or(x, y), j) == if Bit(x, j) + Bit(y, j) == 0 then 0 else 1
    decreases j
  {
    if x + y == 0 {
      BitOfZero(j);
    } else if j > 0 {
      BitOr(x / 2, y / 2, j - 1);
    }
  }

  lemma {:induction false} BitShr(x: nat, k: nat, j: nat)
    ensures Bit(Shr(x, k), j) == Bit(x, j + k)
    decreases k
  {
    if k == 0 {
    } else {
      BitShr(x / 2, k - 1, j);
    }
  }

  lemma {:induction false} BitShl(x: nat, k: nat, j: nat)
    ensures Bit(Shl(x, k), j) == if j < k then 0 else Bit(x, j - k)
    decreases k
  {
    if k == 0 {
    } else {
      assert Shl(x, k) / 2 == Shl(x, k - 1) && Shl(x, k) % 2 == 0;
      if j > 0 {
        BitShl(x, k - 1, j - 1);
      }
    }
  }

  lemma {:induction false} BitLow(x: nat, s: nat, j: nat)
    ensures Bit(Low(x, s), j) == if j < s then Bit(x, j) else 0
    decreases s
  {
    if s == 0 {
      BitOfZero(j);
    } else if j > 0 {
      BitLow(x / 2, s - 1, j - 1);
    }
  }

  lemma {:induction false} BitBeyond(x: nat, s: nat, j: nat)
    requires x < Pow2(s) && s <= j
    ensures Bit(x, j) == 0
  {
    if s == 0 {
      BitOfZero(j);
    } else {
      BitBeyond(x / 2, s - 1, j - 1);
    }
  }

  /** A number below `Pow2(s)` is determined by its low `s` bits. */
  /** All bits of an `s`-bit word turned over. */
  function Not(x: nat, s: nat): (r: nat)
    requires x < Pow2(s)
  {
    Pow2(s) - 1 - x
  }

  lemma {:induction false} BitNot(x: nat, s: nat, j: nat)
    requires x < Pow2(s) && j < s
    ensures Bit(Not(x, s), j) == 1 - Bit(x, j)
  {
    if j == 0 {
    } else {
      BitNot(x / 2, s - 1, j - 1);
      assert Not(x, s) / 2 == Not(x / 2, s - 1);
    }
  }

  lemma {:induction false} SameBits(x: nat, y: nat, s: nat)
    requires x < Pow2(s) && y < Pow2(s)
    requires forall j :: 0 <= j < s ==> Bit(x, j) == Bit(y, j)
    ensures x == y
  {
    if s == 0 {
    } else {
      assert Bit(x, 0) == Bit(y, 0);
      forall j | 0 <= j < s - 1 ensures Bit(x / 2, j) == Bit(y / 2, j) {
        assert Bit(x, j + 1) == Bit(y, j + 1);
      }
      SameBits(x / 2, y / 2, s - 1);
    }
  }

  // ---------- masks and disjoint words ----------

  /** Masking with `(1 << s) - 1` truncates to `s` bits. */
  lemma {:induction false} AndMask(x: nat, s: nat)
    ensures And(x, Pow2(s) - 1) == Low(x, s)
    decreases s
  {
    if s == 0 {
      AndZero(x);
    } else {
      AndMask(x / 2, s - 1);
      AndOdd(x, Pow2(s - 1) - 1);
    }
  }

  lemma AndOdd(x: nat, y: nat)
    ensures And(x, 2 * y + 1) == x % 2 + 2 * And(x / 2, y)
  {
    var z := 2 * y + 1;
    assert z % 2 == 1 && z / 2 == y;
  }

  lemma AndEven(x: nat, y: nat)
    ensures And(x, 2 * y) == 2 * And(x / 2, y)
  {
    var z := 2 * y;
    assert z % 2 == 0 && z / 2 == y;
  }

  lemma {:induction false} AndShl(x: nat, m: nat, k: nat)
    ensures And(x, Shl(m, k)) == Shl(And(Shr(x, k), m), k)
    decreases k
  {
    if k == 0 {
    } else {
      AndEven(x, Shl(m, k - 1));
      AndShl(x / 2, m, k - 1);
    }
  }

  lemma {:induction false} AndZero(x: nat)
    ensures And(x, 0) == 0
  {
    if x == 0 {
    } else {
      AndZero(x / 2);
    }
  }

  lemma {:induction false} AndBound(x: nat, y: nat)
    ensures And(x, y) <= y
    decreases x
  {
    if x == 0 {
    } else {
      AndBound(x / 2, y / 2);
    }
  }

  /** `|` of words without common bits is their sum. */
  lemma {:induction false} OrDisjoint(x: nat, y: nat, k: nat)
    requires x < Pow2(k)
    ensures Or(x, Shl(y, k)) == x + Shl(y, k)
    decreases k
  {
    if k == 0 {
      OrZero(y);
    } else {
      OrDisjoint(x / 2, y, k - 1);
      OrEven(x, Shl(y, k - 1));
    }
  }

  lemma OrEven(x: nat, z: nat)
    ensures Or(x, 2 * z) == x % 2 + 2 * Or(x / 2, z)
  {
    var y := 2 * z;
    assert y % 2 == 0 && y / 2 == z;
  }

  lemma {:induction false} OrZero(y: nat)
    ensures Or(0, y) == y
  {
    if y == 0 {
    } else {
      OrZero(y / 2);
    }
  }

  lemma {:induction false} OrBound(x: nat, y: nat, s: nat)
    requires x < Pow2(s) && y < Pow2(s)
    ensures Or(x, y) < Pow2(s)
    decreases s
  {
    if s == 0 {
    } else {
      OrBound(x / 2, y / 2, s - 1);
    }
  }

  /** `(high << b) | low`, for a `low` of `b` bits: the bits of `low` below those of `high`. */
  lemma JoinedBit(high: nat, low: nat, b: nat, j: nat)
    requires low < Pow2(b)
    ensures Bit(Or(low, Shl(high, b)), j) == if j < b then Bit(low, j) else Bit(high, j - b)
  {
    BitOr(low, Shl(high, b), j);
    BitShl(high, b, j);
    if j >= b {
      BitBeyond(low, b, j);
    }
  }

  lemma JoinedBound(high: nat, low: nat, a: nat, b: nat)
    requires high < Pow2(a) && low < Pow2(b)
    ensures Or(low, Shl(high, b)) == Shl(high, b) + low < Pow2(a + b)
  {
    OrDisjoint(low, high, b);
    ShlAdds(high, 1, b);
    ShlPow2(0, b);
    ShlPow2(a, b);
    ShlMonotone(high + 1, Pow2(a), b);
  }

  // ---------- reversal ----------

  /** The low `s` bits of `x` read in reverse: bit 0 of `x` becomes the most significant of `s` bits. */
  function Top(x: nat, s: nat): (r: nat)
    ensures r < Pow2(s)
  {
    if s == 0 then 0 else 2 * Top(x, s - 1) + Bit(x, s - 1)
  }

  lemma {:induction false} TopOfBits(x: nat, n: nat, s: nat)
    requires x < Pow2(s)
    requires forall j :: 0 <= j < s ==> Bit(x, j) == Bit(n, s - 1 - j)
    ensures x == Top(n, s)
  {
    if s == 0 {
    } else {
      assert Bit(x, 0) == Bit(n, s - 1);
      forall j | 0 <= j < s - 1 ensures Bit(x / 2, j) == Bit(n, s - 2 - j) {
        assert Bit(x, j + 1) == Bit(n, s - 1 - (j + 1));
      }
      TopOfBits(x / 2, n, s - 1);
    }
  }

  lemma {:induction false} BitOfTop(n: nat, s: nat, j: nat)
    requires j < s
    ensures Bit(Top(n, s), j) == Bit(n, s - 1 - j)
  {
    if j == 0 {
    } else {
      BitOfTop(n, s - 1, j - 1);
    }
  }

  /** Reversing `s` bits twice gives the low `s` bits back, so `Top(_, s)` is a bijection on them. */
  lemma TopInvolution(x: nat, s: nat)
    ensures Top(Top(x, s), s) == Low(x, s)
  {
    forall j | 0 <= j < s ensures Bit(Low(x, s), j) == Bit(Top(x, s), s - 1 - j) {
      BitLow(x, s, j);
      BitOfTop(x, s, s - 1 - j);
    }
    TopOfBits(Low(x, s), Top(x, s), s);
  }

  lemma {:induction false} TopPrefix(x: nat, s: nat, t: nat)
    requires s <= t
    ensures Shr(Top(x, t), t - s) == Top(x, s)
    decreases t - s
  {
    if s == t {
    } else {
      TopPrefix(x, s, t - 1);
      assert Top(x, t) / 2 == Top(x, t - 1);
    }
  }

  lemma {:induction false} TopIgnoresHighBits(x: nat, y: nat, s: nat)
    requires forall j :: 0 <= j < s ==> Bit(x, j) == Bit(y, j)
    ensures Top(x, s) == Top(y, s)
  {
    if s == 0 {
    } else {
      TopIgnoresHighBits(x, y, s - 1);
    }
  }

  lemma TopOfLow(x: nat, s: nat)
    ensures Top(Low(x, s), s) == Top(x, s)
  {
    forall j | 0 <= j < s ensures Bit(Low(x, s), j) == Bit(x, j) {
      BitLow(x, s, j);
    }
    TopIgnoresHighBits(Low(x, s), x, s);
  }
}
