/**
 Congruence modulo a positive integer, with the few facts the circle method
 needs. Dafny's `%` is Euclidean; every operand the schedule reduces is
 non-negative, where it agrees with PHP's `%`.
 */
module Modular {

  /** x and y leave the same remainder modulo m. */
  predicate Congruent(m: int, x: int, y: int)
    requires m > 0
  {
    (x - y) % m == 0
  }

  /** The only multiple of m strictly between -m and m is 0. */
  lemma SmallMultiple(m: int, q: int)
    requires m > 0
    requires -m < q * m < m
    ensures q == 0
  {
  }

  /** A difference that is a multiple of m makes the two sides congruent. */
  lemma MultipleCongruent(m: int, x: int, y: int, q: int)
    requires m > 0
    requires x - y == q * m
    ensures Congruent(m, x, y)
  {
    var d := x - y;
    assert d == (d / m) * m + d % m;
    assert d % m == (q - d / m) * m;
    SmallMultiple(m, q - d / m);
  }

  /** A congruence always has an explicit multiple as witness. */
  lemma CongruentWitness(m: int, x: int, y: int) returns (q: int)
    requires m > 0
    requires Congruent(m, x, y)
    ensures x - y == q * m
  {
    var d := x - y;
    assert d == (d / m) * m + d % m;
    q := d / m;
  }

  lemma CongruentSymmetric(m: int, x: int, y: int)
    requires m > 0
    requires Congruent(m, x, y)
    ensures Congruent(m, y, x)
  {
    var q := CongruentWitness(m, x, y);
    MultipleCongruent(m, y, x, -q);
  }

  lemma CongruentTransitive(m: int, x: int, y: int, z: int)
    requires m > 0
    requires Congruent(m, x, y) && Congruent(m, y, z)
    ensures Congruent(m, x, z)
  {
    var q1 := CongruentWitness(m, x, y);
    var q2 := CongruentWitness(m, y, z);
    assert x - z == (q1 + q2) * m;
    MultipleCongruent(m, x, z, q1 + q2);
  }

  /** Adding the same amount on both sides keeps a congruence. */
  lemma CongruentAdd(m: int, x: int, y: int, c: int)
    requires m > 0
    requires Congruent(m, x, y)
    ensures Congruent(m, x + c, y + c)
  {
    assert (x + c) - (y + c) == x - y;
  }

  /** Multiplying both sides by the same factor keeps a congruence. */
  lemma CongruentScale(m: int, x: int, y: int, c: int)
    requires m > 0
    requires Congruent(m, x, y)
    ensures Congruent(m, c * x, c * y)
  {
    var q := CongruentWitness(m, x, y);
    assert c * x - c * y == c * (x - y);
    assert c * x - c * y == (c * q) * m;
    MultipleCongruent(m, c * x, c * y, c * q);
  }

  /** Every value is congruent to its remainder. */
  lemma CongruentRemainder(m: int, x: int)
    requires m > 0
    ensures Congruent(m, x % m, x)
  {
    assert x == (x / m) * m + x % m;
    MultipleCongruent(m, x % m, x, -(x / m));
  }

  /** Two congruent values closer than m are equal. */
  lemma CongruentClose(m: int, x: int, y: int)
    requires m > 0
    requires Congruent(m, x, y)
    requires -m < x - y < m
    ensures x == y
  {
    var q := CongruentWitness(m, x, y);
    SmallMultiple(m, q);
  }

  /** The remainder of x is the unique representative of its class in [0, m). */
  lemma RemainderOf(m: int, x: int, y: int)
    requires m > 0
    requires Congruent(m, x, y)
    requires 0 <= y < m
    ensures x % m == y
  {
    CongruentRemainder(m, x);
    CongruentSymmetric(m, x % m, x);
    CongruentSymmetric(m, x, y);
    CongruentTransitive(m, x % m, x, y);
    CongruentClose(m, x % m, y);
  }

  /** Equal remainders mean congruent values. */
  lemma SameRemainder(m: int, x: int, y: int)
    requires m > 0
    requires x % m == y % m
    ensures Congruent(m, x, y)
  {
    CongruentRemainder(m, x);
    CongruentRemainder(m, y);
    CongruentSymmetric(m, x % m, x);
    CongruentTransitive(m, x, x % m, y);
  }

  /** With m == 2 * k - 1, multiplying 2 * r by k leaves r plus a multiple of m. */
  lemma HalfTimesDouble(k: int, m: int, r: int)
    requires m == 2 * k - 1
    ensures r - k * (2 * r) == (-r) * m
    ensures k * (2 * r) - r == r * m
  {
    assert k * (2 * r) == 2 * (k * r);
    assert r * m == 2 * (k * r) - r;
  }

  /** For odd m == 2 * k - 1, k inverts 2, so a doubled congruence can be halved. */
  lemma CancelDouble(m: int, k: int, r1: int, r2: int)
    requires m > 0 && m == 2 * k - 1
    requires Congruent(m, 2 * r1, 2 * r2)
    ensures Congruent(m, r1, r2)
  {
    CongruentScale(m, 2 * r1, 2 * r2, k);
    HalfTimesDouble(k, m, r1);
    HalfTimesDouble(k, m, r2);
    var x1 := k * (2 * r1);
    var x2 := k * (2 * r2);
    MultipleCongruent(m, r1, x1, -r1);
    MultipleCongruent(m, x2, r2, r2);
    CongruentTransitive(m, r1, x1, x2);
    CongruentTransitive(m, r1, x2, r2);
  }

  /** Distributivity of a product over a difference of factors. */
  lemma MulDiff(a: int, b: int, k: int)
    ensures a * k - b * k == (a - b) * k
  {
  }

  /** One more block adds one block length. */
  lemma MulSucc(a: int, k: int)
    ensures (a + 1) * k == a * k + k
  {
  }

  /** A positive number of blocks is at least one block long. */
  lemma MulAtLeast(a: int, k: int)
    requires a >= 1 && k >= 0
    ensures a * k >= k
  {
  }

  /** Splitting a position into a block index and an offset within blocks of
      length k is unique and monotone. */
  lemma BlockOrder(k: int, g: int, i: int, h: int, j: int)
    requires 0 <= i < k && 0 <= j < k
    ensures g * k + i <= h * k + j ==> g <= h
    ensures g * k + i == h * k + j ==> g == h && i == j
  {
    if g > h {
      MulDiff(g, h, k);
      MulAtLeast(g - h, k);
    } else if g < h {
      MulDiff(h, g, k);
      MulAtLeast(h - g, k);
    }
  }

  /** Total length of d blocks of length k, counted block by block. */
  function Blocks(d: nat, k: nat): (b: nat)
    decreases d
  {
    if d == 0 then 0 else Blocks(d - 1, k) + k
  }

  /** x and x + 1 have opposite parity. */
  lemma ParityStep(x: nat)
    ensures ((x + 1) % 2 == 0) == !(x % 2 == 0)
  {
  }

  /** Counting blocks one by one agrees with multiplying. */
  lemma {:induction false} BlocksProduct(d: nat, k: nat)
    ensures Blocks(d, k) == d * k
    decreases d
  {
    if d > 0 {
      BlocksProduct(d - 1, k);
      MulSucc(d - 1, k);
    }
  }

  /** a + b blocks are a blocks followed by b blocks. */
  lemma {:induction false} BlocksAdd(a: nat, b: nat, k: nat)
    ensures Blocks(a + b, k) == Blocks(a, k) + Blocks(b, k)
    decreases b
  {
    if b > 0 {
      BlocksAdd(a, b - 1, k);
    }
  }

  /** BlockOrder for positions counted with Blocks. */
  lemma BlocksOrder(k: nat, g: nat, i: int, h: nat, j: int)
    requires 0 <= i < k && 0 <= j < k
    ensures Blocks(g, k) + i <= Blocks(h, k) + j ==> g <= h
    ensures Blocks(g, k) + i == Blocks(h, k) + j ==> g == h && i == j
  {
    BlocksProduct(g, k);
    BlocksProduct(h, k);
    BlockOrder(k, g, i, h, j);
  }
}
