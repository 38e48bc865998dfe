/** Bitwise AND on natural numbers, and its use as a mask. */
module Bitwise {
  import opened Bytes

  function And(a: nat, b: nat): nat {
    if a == 0 || b == 0 then 0 else (a % 2) * (b % 2) + 2 * And(a / 2, b / 2)
  }

  ghost predicate PowerOfTwo(n: nat) {
    exists k: nat :: n == Pow(2, k)
  }

  lemma {:induction false} Pow2Positive(k: nat)
    ensures Pow(2, k) >= 1
  {
    if k > 0 { Pow2Positive(k - 1); }
  }

  /** Masking with 2^k - 1 keeps the remainder modulo 2^k. */
  lemma {:induction false} MaskIsMod(a: nat, k: nat)
    ensures Pow(2, k) >= 1 && And(a, Pow(2, k) - 1) == a % Pow(2, k)
  {
    hide Pow, And;
    Pow2Positive(k);
    if k == 0 {
      PowZero();
      AndZero(a);
    } else if a == 0 {
      AndZero(Pow(2, k) - 1);
    } else {
      Pow2Step(k);
      MaskIsMod(a / 2, k - 1);
      MaskStep(a, Pow(2, k - 1), Pow(2, k));
    }
  }

  lemma MaskStep(a: nat, p: nat, q: nat)
    requires a > 0 && p >= 1 && q == 2 * p && And(a / 2, p - 1) == a / 2 % p
    ensures And(a, q - 1) == a % q
  {
    hide And;
    AndStep(a, p, q);
    HalfMod(a, p, q);
  }

  lemma PowZero()
    ensures Pow(2, 0) == 1
  {
  }

  lemma AndZero(a: nat)
    ensures And(a, 0) == 0 && And(0, a) == 0
  {
  }

  lemma AndStep(a: nat, p: nat, q: nat)
    requires a > 0 && p >= 1 && q == 2 * p
    ensures And(a, q - 1) == a % 2 + 2 * And(a / 2, p - 1)
  {
    assert (q - 1) / 2 == p - 1 && (q - 1) % 2 == 1;
  }

  lemma Pow2Step(k: nat)
    requires k >= 1
    ensures Pow(2, k) == 2 * Pow(2, k - 1)
  {
  }

  lemma HalfMod(a: nat, p: nat, m: nat)
    requires p >= 1 && m == 2 * p
    ensures a % m == a % 2 + 2 * (a / 2 % p)
  {
    var q, r := a / 2 / p, a / 2 % p;
    assert a / 2 == q * p + r;
    assert a == 2 * (q * p + r) + a % 2;
    assert a == q * m + (2 * r + a % 2);
    ModUnique(a, m, q, 2 * r + a % 2);
  }

  lemma MulSmall(d: int, m: int)
    requires m > 0 && -m < d * m < m
    ensures d == 0
  {
  }

  lemma ModUnique(a: int, m: int, q: int, r: int)
    requires m > 0 && a == q * m + r && 0 <= r < m
    ensures a % m == r && a / m == q
  {
    var q', r' := a / m, a % m;
    assert a == q' * m + r';
    assert (q - q') * m == r' - r;
    var d := q - q';
    assert -m < d * m < m;
    assert d == 0 by { MulSmall(d, m); }
  }

  lemma {:induction false} AndSelf(a: nat)
    ensures And(a, a) == a
  {
    hide And;
    AndUnfold(a, a);
    if a > 0 {
      AndSelf(a / 2);
      Parity(a);
    }
  }

  lemma Parity(a: nat)
    ensures a == 2 * (a / 2) + a % 2 && a % 2 * (a % 2) == a % 2
  {
    assert a % 2 == 0 || a % 2 == 1;
  }

  lemma {:induction false} AndUnfold(a: nat, b: nat)
    ensures And(a, b) == if a == 0 || b == 0 then 0 else a % 2 * (b % 2) + 2 * And(a / 2, b / 2)
  {
  }

  lemma {:induction false} AndSym(a: nat, b: nat)
    ensures And(a, b) == And(b, a)
  {
    if a > 0 && b > 0 { AndSym(a / 2, b / 2); }
  }

  /** The test n & (n - 1) accepts exactly the powers of two. */
  lemma {:induction false} PowerOfTwoTest(n: nat)
    requires n >= 1
    ensures And(n, n - 1) == 0 <==> PowerOfTwo(n)
  {
    if n == 1 {
      assert 1 == Pow(2, 0);
    } else if n % 2 == 1 {
      AndSelf(n / 2);
      assert (n - 1) / 2 == n / 2;
      forall k: nat ensures n != Pow(2, k) {
        if k > 0 { assert Pow(2, k) == 2 * Pow(2, k - 1); }
      }
    } else {
      PowerOfTwoTest(n / 2);
      assert (n - 1) / 2 == n / 2 - 1;
      if And(n / 2, n / 2 - 1) == 0 {
        var k: nat :| n / 2 == Pow(2, k);
        assert n == Pow(2, k + 1);
      }
      if PowerOfTwo(n) {
        var k: nat :| n == Pow(2, k);
        assert n / 2 == Pow(2, k - 1);
      }
    }
  }
}
