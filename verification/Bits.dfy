/** The bit operations of csrc/include/rxi/map.h, bit by bit. */
module Bits {
  function And(a: nat, b: nat): nat {
    if a == 0 || b == 0 then 0 else 2 * And(a / 2, b / 2) + (if a % 2 == 1 && b % 2 == 1 then 1 else 0)
  }

  function Xor(a: nat, b: nat): nat
    decreases a + b
  {
    if a == 0 then b else if b == 0 then a else 2 * Xor(a / 2, b / 2) + (if a % 2 == b % 2 then 0 else 1)
  }

  function Pow2(n: nat): (p: nat)
    ensures p > 0
  {
    if n == 0 then 1 else 2 * Pow2(n - 1)
  }

  ghost predicate IsPow2(x: nat) { exists n: nat :: x == Pow2(n) }

  lemma {:induction false} AndAtMost(a: nat, b: nat)
    ensures And(a, b) <= b
    decreases b
  {
    if a != 0 && b != 0 {
      AndAtMost(a / 2, b / 2);
    }
  }

  lemma {:induction false} AndCommutes(a: nat, b: nat)
    ensures And(a, b) == And(b, a)
  {
    if a != 0 && b != 0 {
      AndCommutes(a / 2, b / 2);
    }
  }

  /** Masking with 2^n - 1 is the remainder modulo 2^n. */
  lemma {:induction false} MaskIsMod(a: nat, n: nat)
    ensures And(a, Pow2(n) - 1) == a % Pow2(n)
    decreases n
  {
    hide And, Pow2;
    Pow2Step(n);
    if n > 0 {
      var p := Pow2(n - 1);
      MaskIsMod(a / 2, n - 1);
      ModHalves(a, p);
      AndOddMask(a, p - 1);
    } else {
      AndNothing(a);
    }
  }

  lemma Pow2Step(n: nat)
    ensures Pow2(n) == if n == 0 then 1 else 2 * Pow2(n - 1)
  {
  }

  lemma AndNothing(a: nat)
    ensures And(a, 0) == 0
  {
  }

  lemma AndOddMask(a: nat, m: nat)
    ensures And(a, 2 * m + 1) == 2 * And(a / 2, m) + a % 2
  {
    assert (2 * m + 1) / 2 == m && (2 * m + 1) % 2 == 1;
  }

  lemma ModHalves(a: nat, p: nat)
    requires p > 0
    ensures a % (2 * p) == 2 * (a / 2 % p) + a % 2
  {
    var q, r := a / 2 / p, a / 2 % p;
    assert a / 2 == p * q + r;
    assert a == (2 * p) * q + (2 * r + a % 2);
    ModUnique(a, 2 * p, q, 2 * r + a % 2);
  }

  lemma ModUnique(a: int, m: int, q: int, r: int)
    requires m > 0 && a == m * q + r && 0 <= r < m
    ensures a % m == r
  {
    var k := a / m - q;
    assert a == m * (a / m) + a % m;
    assert m * k == r - a % m by {
      assert m * k == m * (a / m) - m * q;
    }
    if k >= 1 {
      assert m * k == m + m * (k - 1);
      MulNonNegative(m, k - 1);
    } else if k <= -1 {
      assert m * k == -m - m * (-k - 1);
      MulNonNegative(m, -k - 1);
    }
  }

  lemma MulNonNegative(a: int, b: int)
    requires a >= 0 && b >= 0
    ensures a * b >= 0
  {
  }

  lemma {:induction false} XorBound(a: nat, b: nat, n: nat)
    requires a < Pow2(n) && b < Pow2(n)
    ensures Xor(a, b) < Pow2(n)
    decreases n
  {
    if n > 0 && a != 0 && b != 0 {
      XorBound(a / 2, b / 2, n - 1);
    }
  }
}
