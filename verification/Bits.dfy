/** Bitwise operators of the source, as functions on natural numbers. */
module Bits {
  import opened Machine

  function Pow2(k: nat): (p: nat)
    ensures p >= 1
  {
    if k == 0 then 1 else 2 * Pow2(k - 1)
  }

  /** `n >> k` */
  function Shr(n: nat, k: nat): nat
    decreases k
  {
    if k == 0 then n else Shr(n / 2, k - 1)
  }

  /** Bit `k` of `n`, as `(n >> k) & 1 == 1` tests it. */
  predicate Bit(n: nat, k: nat) {
    Shr(n, k) % 2 == 1
  }

  /** `a ^ b` */
  function Xor(a: nat, b: nat): nat
    decreases a + b
  {
    if a == 0 && b == 0 then 0 else (a + b) % 2 + 2 * Xor(a / 2, b / 2)
  }

  lemma XorDigits(a: nat, p: nat, b: nat, q: nat)
    requires p < 2 && q < 2
    ensures Xor(2 * a + p, 2 * b + q) == 2 * Xor(a, b) + if p == q then 0 else 1
  {
    var x, y := 2 * a + p, 2 * b + q;
    assert x / 2 == a && y / 2 == b;
    assert (x + y) % 2 == if p == q then 0 else 1 by {
      assert x + y == 2 * (a + b) + (p + q);
    }
    if x == 0 && y == 0 {
    } else {
      assert Xor(x, y) == (x + y) % 2 + 2 * Xor(a, b);
    }
  }

  lemma XorCancelsDigits(a: nat, p: nat, b: nat, q: nat)
    requires p < 2 && q < 2
    requires Xor(Xor(a, b), b) == a
    ensures Xor(Xor(2 * a + p, 2 * b + q), 2 * b + q) == 2 * a + p
  {
    var r := if p == q then 0 else 1;
    XorDigits(a, p, b, q);
    XorDigits(Xor(a, b), r, b, q);
  }

  lemma {:induction false} XorCancels(a: nat, b: nat)
    ensures Xor(Xor(a, b), b) == a
    decreases a + b
  {
    if a == 0 && b == 0 {
    } else {
      XorCancels(a / 2, b / 2);
      XorCancelsDigits(a / 2, a % 2, b / 2, b % 2);
    }
  }

  lemma {:induction false} XorCommutes(a: nat, b: nat)
    ensures Xor(a, b) == Xor(b, a)
    decreases a + b
  {
    if a == 0 && b == 0 {
    } else {
      XorCommutes(a / 2, b / 2);
    }
  }

  lemma {:induction false} XorZero(a: nat)
    ensures Xor(a, 0) == a
  {
    if a == 0 {
    } else {
      XorZero(a / 2);
    }
  }

  lemma {:induction false} XorBelow(a: nat, b: nat, k: nat)
    requires a < Pow2(k) && b < Pow2(k)
    ensures Xor(a, b) < Pow2(k)
    decreases k
  {
    if k == 0 || (a == 0 && b == 0) {
    } else {
      XorBelow(a / 2, b / 2, k - 1);
    }
  }

  lemma {:induction false} ShrOfXor(a: nat, b: nat, k: nat)
    ensures Shr(Xor(a, b), k) == Xor(Shr(a, k), Shr(b, k))
    decreases k
  {
    if k == 0 {
    } else {
      assert Xor(a, b) / 2 == Xor(a / 2, b / 2);
      ShrOfXor(a / 2, b / 2, k - 1);
    }
  }

  lemma {:induction false} ShrTwice(n: nat, j: nat, k: nat)
    ensures Shr(Shr(n, j), k) == Shr(n, j + k)
    decreases j
  {
    if j == 0 {
    } else {
      ShrTwice(n / 2, j - 1, k);
    }
  }

  lemma {:induction false} ShrBelow(n: nat, j: nat, k: nat)
    requires n < Pow2(j + k)
    ensures Shr(n, j) < Pow2(k)
    decreases j
  {
    if j == 0 {
    } else {
      ShrBelow(n / 2, j - 1, k);
    }
  }

  /** Shifting right is dividing by the power of two. */
  lemma {:induction false} ShrIsDivision(n: nat, k: nat)
    ensures Pow2(k) * Shr(n, k) <= n < Pow2(k) * (Shr(n, k) + 1)
    decreases k
  {
    if k == 0 {
    } else {
      var p, h := Pow2(k - 1), Shr(n / 2, k - 1);
      assert Pow2(k) == 2 * p && Shr(n, k) == h;
      hide Pow2, Shr;
      ShrIsDivision(n / 2, k - 1);
      Doubled(p, h);
      Doubled(p, h + 1);
      assert n == 2 * (n / 2) + n % 2;
    }
  }

  lemma Doubled(p: nat, h: nat)
    ensures 2 * p * h == 2 * (p * h)
  {
  }

  lemma XorParity(a: nat, b: nat)
    ensures Xor(a, b) % 2 == (a + b) % 2
  {
    if a == 0 && b == 0 {
    } else {
      var x := Xor(a / 2, b / 2);
      assert Xor(a, b) == (a + b) % 2 + 2 * x;
      hide Xor;
      LastDigit((a + b) % 2, x);
    }
  }

  lemma LastDigit(s: nat, x: nat)
    requires s < 2
    ensures (s + 2 * x) % 2 == s
  {
  }

  /** Bit by bit, the exclusive or is the inequality of the bits. */
  lemma XorBits(a: nat, b: nat, k: nat)
    ensures Bit(Xor(a, b), k) <==> Bit(a, k) != Bit(b, k)
  {
    hide Shr, Xor;
    ShrOfXor(a, b, k);
    XorParity(Shr(a, k), Shr(b, k));
  }

  lemma {:induction false} XorSelf(a: nat)
    ensures Xor(a, a) == 0
  {
    if a == 0 {
    } else {
      XorSelf(a / 2);
      assert (a + a) % 2 == 0;
    }
  }

  lemma XorPairs(a: nat, p: nat, b: nat, q: nat)
    requires p < 4 && q < 4
    ensures Xor(4 * a + p, 4 * b + q) == 4 * Xor(a, b) + Xor(p, q)
  {
    hide Xor;
    XorDigits(2 * a + p / 2, p % 2, 2 * b + q / 2, q % 2);
    XorDigits(a, p / 2, b, q / 2);
    XorDigits(p / 2, p % 2, q / 2, q % 2);
    XorBit(p / 2, q / 2);
  }

  lemma XorBit(p: nat, q: nat)
    requires p < 2 && q < 2
    ensures Xor(p, q) == if p == q then 0 else 1
  {
    XorDigits(0, p, 0, q);
  }

  /** Exclusive or digit by hexadecimal digit. */
  lemma XorNibbles(a: nat, p: nat, b: nat, q: nat)
    requires p < 16 && q < 16
    ensures Xor(16 * a + p, 16 * b + q) == 16 * Xor(a, b) + Xor(p, q)
  {
    hide Xor;
    XorPairs(4 * a + p / 4, p % 4, 4 * b + q / 4, q % 4);
    XorPairs(a, p / 4, b, q / 4);
    XorPairs(p / 4, p % 4, q / 4, q % 4);
  }

  lemma Pow2Plus8(k: nat)
    ensures Pow2(k + 8) == 0x100 * Pow2(k)
  {
    assert Pow2(k + 2) == 4 * Pow2(k);
    assert Pow2(k + 4) == 16 * Pow2(k);
    assert Pow2(k + 6) == 64 * Pow2(k);
  }

  lemma Pow2Plus32(k: nat)
    ensures Pow2(k + 32) == 0x1_0000_0000 * Pow2(k)
  {
    Pow2Plus8(k);
    Pow2Plus8(k + 8);
    Pow2Plus8(k + 16);
    Pow2Plus8(k + 24);
  }

  lemma Pow2Plus64(k: nat)
    ensures Pow2(k + 64) == (U64_MAX + 1) * Pow2(k)
  {
    Pow2Plus32(k);
    Pow2Plus32(k + 32);
  }

  lemma Pow2Of64()
    ensures Pow2(64) == U64_MAX + 1
  {
    Pow2Plus64(0);
  }
}
