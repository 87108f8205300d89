/** Bitwise operations on machine words, as functions of the natural numbers they hold. */
module Bits {
  import opened Arithmetic

  function Pow2(k: nat): (r: nat)
    ensures r > 0
  {
    if k == 0 then 1 else 2 * Pow2(k - 1)
  }

  predicate Bit(x: nat, k: nat) {
    if k == 0 then x % 2 == 1 else Bit(x / 2, k - 1)
  }

  function Or(a: nat, b: nat): nat {
    if a == 0 && b == 0 then 0
    else (if a % 2 == 1 || b % 2 == 1 then 1 else 0) + 2 * Or(a / 2, b / 2)
  }

  function And(a: nat, b: nat): nat {
    if a == 0 || b == 0 then 0
    else (if a % 2 == 1 && b % 2 == 1 then 1 else 0) + 2 * And(a / 2, b / 2)
  }

  function Xor(a: nat, b: nat): nat {
    if a == 0 && b == 0 then 0
    else (if (a % 2 == 1) != (b % 2 == 1) then 1 else 0) + 2 * Xor(a / 2, b / 2)
  }

  lemma OrHalf(a: nat, b: nat)
    ensures Or(a, b) / 2 == Or(a / 2, b / 2)
    ensures Or(a, b) % 2 == 1 <==> a % 2 == 1 || b % 2 == 1
  {
  }

  lemma {:induction false} BitOfOr(a: nat, b: nat, k: nat)
    ensures Bit(Or(a, b), k) <==> Bit(a, k) || Bit(b, k)
  {
    OrHalf(a, b);
    if k > 0 {
      BitOfOr(a / 2, b / 2, k - 1);
    }
  }

  lemma {:induction false} BitOfPow2(j: nat, k: nat)
    ensures Bit(Pow2(j), k) <==> j == k
  {
    if k == 0 {
    } else if j == 0 {
      BitOfZero(k - 1);
    } else {
      BitOfPow2(j - 1, k - 1);
    }
  }

  lemma {:induction false} BitOfZero(k: nat)
    ensures !Bit(0, k)
  {
    if k > 0 {
      BitOfZero(k - 1);
    }
  }

  lemma {:induction false} BitOfXor(a: nat, b: nat, k: nat)
    ensures Bit(Xor(a, b), k) <==> Bit(a, k) != Bit(b, k)
  {
    XorHalf(a, b);
    if k > 0 {
      BitOfXor(a / 2, b / 2, k - 1);
    }
  }

  lemma XorHalf(a: nat, b: nat)
    ensures Xor(a, b) / 2 == Xor(a / 2, b / 2)
    ensures Xor(a, b) % 2 == 1 <==> (a % 2 == 1) != (b % 2 == 1)
  {
  }

  /** A bit is the parity of the number shifted down to it. */
  lemma {:induction false} BitIsParity(x: nat, k: nat)
    ensures 0 <= x / Pow2(k) && (Bit(x, k) <==> x / Pow2(k) % 2 == 1)
  {
    DivNat(x, Pow2(k));
    if k > 0 {
      BitIsParity(x / 2, k - 1);
      var q, r := DivMod(x / 2, Pow2(k - 1));
      Doubled(Pow2(k - 1), q);
      UniqueRemainder(x, Pow2(k), q, 2 * r + x % 2);
    }
  }

  /** The sum of the powers of two at which the lowest n flags are set. */
  function FlagSum(flags: nat -> bool, n: nat): nat {
    if n == 0 then 0 else FlagSum(flags, n - 1) + (if flags(n - 1) then Pow2(n - 1) else 0)
  }

  lemma {:induction false} LowBits(x: nat, flags: nat -> bool, n: nat)
    requires forall k :: 0 <= k < n ==> (Bit(x, k) <==> flags(k))
    ensures x % Pow2(n) == FlagSum(flags, n)
  {
    if n > 0 {
      var p := Pow2(n - 1);
      LowBits(x, flags, n - 1);
      BitIsParity(x, n - 1);
      var q, r := DivMod(x, p);
      TopBit(x, p, q, r);
    }
  }

  lemma TopBit(x: nat, p: nat, q: nat, r: nat)
    requires r < p && x == p * q + r
    ensures x % (2 * p) == r + (if q % 2 == 1 then p else 0)
  {
    assert p * q == p * (2 * (q / 2) + q % 2) == (2 * p) * (q / 2) + p * (q % 2);
    UniqueRemainder(x, 2 * p, q / 2, p * (q % 2) + r);
  }

  /** A number below 2^n is determined by its lowest n bits. */
  lemma {:induction false} SameBits(a: nat, b: nat, n: nat)
    requires a < Pow2(n) && b < Pow2(n)
    requires forall k :: 0 <= k < n ==> Bit(a, k) == Bit(b, k)
    ensures a == b
  {
    if n > 0 {
      assert Bit(a, 0) == Bit(b, 0);
      forall k | 0 <= k < n - 1 ensures Bit(a / 2, k) == Bit(b / 2, k) {
        assert Bit(a, k + 1) == Bit(b, k + 1);
      }
      SameBits(a / 2, b / 2, n - 1);
    }
  }

  lemma {:induction false} OrBound(a: nat, b: nat, n: nat)
    requires a < Pow2(n) && b < Pow2(n)
    ensures Or(a, b) < Pow2(n)
  {
    if n > 0 {
      OrBound(a / 2, b / 2, n - 1);
    }
  }

  lemma {:induction false} XorBound(a: nat, b: nat, n: nat)
    requires a < Pow2(n) && b < Pow2(n)
    ensures Xor(a, b) < Pow2(n)
  {
    if n > 0 {
      XorBound(a / 2, b / 2, n - 1);
    }
  }

  lemma {:induction false} XorCancels(a: nat, b: nat)
    ensures Xor(Xor(a, b), b) == a
    decreases a + b
  {
    if a != 0 || b != 0 {
      XorCancels(a / 2, b / 2);
    }
  }

  /** Fields that do not overlap are combined by OR as by addition. */
  lemma {:induction false} OrDisjoint(a: nat, b: nat, k: nat)
    requires a < Pow2(k)
    ensures Or(a, b * Pow2(k)) == a + b * Pow2(k)
  {
    if k == 0 {
      OrZero(b);
    } else {
      assert b * Pow2(k) == 2 * (b * Pow2(k - 1));
      OrDisjoint(a / 2, b, k - 1);
    }
  }

  lemma {:induction false} OrZero(b: nat)
    ensures Or(0, b) == b
  {
    if b != 0 {
      OrZero(b / 2);
    }
  }

  /** Masking with k ones keeps the k lowest bits. */
  lemma {:induction false} AndMask(x: nat, k: nat)
    ensures And(x, Pow2(k) - 1) == x % Pow2(k)
  {
    if k > 0 {
      AndMask(x / 2, k - 1);
      AndOnes(x, Pow2(k - 1));
      ModHalf(x, Pow2(k - 1));
    }
  }

  lemma AndOnes(x: nat, m: nat)
    requires m > 0
    ensures And(x, 2 * m - 1) == x % 2 + 2 * And(x / 2, m - 1)
  {
    assert (2 * m - 1) / 2 == m - 1 && (2 * m - 1) % 2 == 1;
  }

  lemma ModHalf(x: nat, m: nat)
    requires m > 0
    ensures x % (2 * m) == x % 2 + 2 * (x / 2 % m)
  {
    var q := x / 2 / m;
    assert x == 2 * (x / 2) + x % 2;
    assert x / 2 == q * m + x / 2 % m;
    assert x == (2 * m) * q + (x % 2 + 2 * (x / 2 % m));
    UniqueRemainder(x, 2 * m, q, x % 2 + 2 * (x / 2 % m));
  }

  lemma {:induction false} OrCommutes(a: nat, b: nat)
    ensures Or(a, b) == Or(b, a)
    decreases a + b
  {
    if a != 0 || b != 0 {
      OrCommutes(a / 2, b / 2);
    }
  }

  lemma {:induction false} Pow2Add(a: nat, b: nat)
    ensures Pow2(a + b) == Pow2(a) * Pow2(b)
  {
    if a > 0 {
      Pow2Add(a - 1, b);
      Doubled(Pow2(a - 1), Pow2(b));
    }
  }

  lemma Doubled(x: nat, y: nat)
    ensures 2 * (x * y) == (2 * x) * y
  {
  }

  /** The powers at which the words of the source are cut. */
  lemma Pow2Values()
    ensures Pow2(1) == 2 && Pow2(2) == 4 && Pow2(4) == 16 && Pow2(7) == 128 && Pow2(8) == 256
    ensures Pow2(32) == 0x1_0000_0000 && Pow2(48) == 0x1_0000_0000_0000
    ensures Pow2(52) == 0x10_0000_0000_0000 && Pow2(53) == 0x20_0000_0000_0000
    ensures Pow2(60) == 0x1000_0000_0000_0000 && Pow2(62) == 0x4000_0000_0000_0000
  {
    assert Pow2(4) == 16;
    assert Pow2(7) == 128 by { Pow2Add(4, 3); }
    assert Pow2(8) == 256 by { Pow2Add(4, 4); }
    assert Pow2(16) == 0x1_0000 by { Pow2Add(8, 8); }
    assert Pow2(32) == 0x1_0000_0000 by { Pow2Add(16, 16); }
    assert Pow2(48) == 0x1_0000_0000_0000 by { Pow2Add(32, 16); }
    FlagPowers();
  }

  lemma FlagPowers()
    requires Pow2(48) == 0x1_0000_0000_0000 && Pow2(8) == 256
    ensures Pow2(52) == 0x10_0000_0000_0000 && Pow2(53) == 0x20_0000_0000_0000
    ensures Pow2(60) == 0x1000_0000_0000_0000 && Pow2(62) == 0x4000_0000_0000_0000
  {
    assert Pow2(52) == 0x10_0000_0000_0000 by { Pow2Add(48, 4); }
    assert Pow2(53) == 0x20_0000_0000_0000 by { Pow2Add(52, 1); }
    assert Pow2(60) == 0x1000_0000_0000_0000 by { Pow2Add(52, 8); }
    assert Pow2(62) == 0x4000_0000_0000_0000 by { Pow2Add(60, 2); }
  }

  /** `x << k`, for a word wide enough. */
  function Shl(x: nat, k: nat): nat {
    x * Pow2(k)
  }

  /** `x >> k`. */
  function Shr(x: nat, k: nat): nat {
    DivisionBounds(x, Pow2(k));
    x / Pow2(k)
  }
}
