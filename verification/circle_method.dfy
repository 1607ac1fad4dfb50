/**
 The circle method of generateFootballSchedule (script.php:29-43): the slot
 indices paired in one round. With m = n - 1, slot n - 1 is the fixed anchor
 and the other m slots rotate around it, one step per round. This module
 states what that rotation achieves for an even number of slots: every round
 is a perfect matching and every pair of slots meets in exactly one round.
 */
module CircleMethod {
  import opened Modular

  /** An unordered pair of slot indices, written as (homeIndex, awayIndex). */
  type SlotPairing = (nat, nat)

  /** Slot s is one of the two slots of p. */
  predicate Touches(p: SlotPairing, s: nat)
  {
    p.0 == s || p.1 == s
  }

  /** p and q have no slot in common. */
  predicate Disjoint(p: SlotPairing, q: SlotPairing)
  {
    p.0 != q.0 && p.0 != q.1 && p.1 != q.0 && p.1 != q.1
  }

  /** p and q are the same unordered pair of slots. */
  predicate SamePair(p: SlotPairing, q: SlotPairing)
  {
    (p.0 == q.0 && p.1 == q.1) || (p.0 == q.1 && p.1 == q.0)
  }

  /** Residues of two distinct values closer than m differ. */
  lemma DistinctResidues(m: int, x: int, y: int)
    requires m > 0
    requires -m < x - y < m
    ensures x % m == y % m ==> x == y
  {
    if x % m == y % m {
      SameRemainder(m, x, y);
      CongruentClose(m, x, y);
    }
  }

  /** Slots paired in a round of the rotation: a slot is never paired with
      itself except in the last pairing of an odd-sized field. */
  lemma SelfPairing(n: nat, round: nat, i: nat)
    requires n >= 2 && 2 * i < n
    ensures 1 <= i ==> ((round + i) % (n - 1) == (n - 1 - i + round) % (n - 1) <==> 2 * i + 1 == n)
  {
    if 1 <= i {
      DistinctResidues(n - 1, round + i, n - 1 - i + round);
    }
  }

  /**
   The two slot indices of pairing i in a round (lines 32-43): home slot
   (round + i) mod (n - 1), away slot (n - 1 - i + round) mod (n - 1), the
   anchor n - 1 as away slot of pairing 0, both swapped in circle 2. The
   guard 2 * i < n is the inner loop bound; it also keeps every operand of
   `%` non-negative, where Dafny's `%` and PHP's agree.
   */
  function SlotPair(n: nat, circle: nat, round: nat, i: nat): (p: SlotPairing)
    requires n >= 2 && 2 * i < n
    ensures p.0 < n && p.1 < n
    ensures Touches(p, n - 1) <==> i == 0
  {
    var m := n - 1;
    var home := (round + i) % m;
    var away := if i == 0 then m else (m - i + round) % m;
    if circle == 2 then (away, home) else (home, away)
  }

  /** A slot is paired with itself only in the last pairing of an odd-sized field. */
  lemma SlotPairSelf(n: nat, circle: nat, round: nat, i: nat)
    requires n >= 2 && 2 * i < n
    ensures SlotPair(n, circle, round, i).0 == SlotPair(n, circle, round, i).1 <==> 2 * i + 1 == n
  {
    SelfPairing(n, round, i);
  }

  /** For an odd number of slots, the last pairing of a round pairs slot
      (round + (n - 1) / 2) mod (n - 1) with itself: that slot has no
      opponent in the round. */
  lemma IdleSlot(n: nat, circle: nat, round: nat)
    requires n >= 3 && n % 2 == 1
    ensures var x := (round + (n - 1) / 2) % (n - 1);
      SlotPair(n, circle, round, (n - 1) / 2) == (x, x)
  {
  }

  /** For an odd number of slots every slot other than the anchor n - 1 is
      idle in some round 0 .. n - 2 of a circle. */
  lemma IdleRound(n: nat, circle: nat, s: nat) returns (round: nat)
    requires n >= 3 && n % 2 == 1 && s < n - 1
    ensures round < n - 1 && SlotPair(n, circle, round, (n - 1) / 2) == (s, s)
  {
    var m := n - 1;
    var h := (n - 1) / 2;
    if s >= h {
      round := s - h;
      MultipleCongruent(m, round + h, s, 0);
    } else {
      round := s + m - h;
      MultipleCongruent(m, round + h, s, 1);
    }
    RemainderOf(m, round + h, s);
    IdleSlot(n, circle, round);
  }

  /** The idle slot moves on each round: no slot is idle in two different
      rounds 0 .. n - 2 of a circle. */
  lemma IdleOncePerCircle(n: nat, circle: nat, r1: nat, r2: nat)
    requires n >= 3 && n % 2 == 1 && r1 < n - 1 && r2 < n - 1
    requires SlotPair(n, circle, r1, (n - 1) / 2) == SlotPair(n, circle, r2, (n - 1) / 2)
    ensures r1 == r2
  {
    var m := n - 1;
    var h := (n - 1) / 2;
    IdleSlot(n, circle, r1);
    IdleSlot(n, circle, r2);
    SameRemainder(m, r1 + h, r2 + h);
    CongruentClose(m, r1 + h, r2 + h);
  }

  /** Circle 2 pairs the same slots as circle 1, with the roles swapped. */
  lemma SecondCircleSwaps(n: nat, round: nat, i: nat)
    requires n >= 2 && 2 * i < n
    ensures SlotPair(n, 2, round, i) == (SlotPair(n, 1, round, i).1, SlotPair(n, 1, round, i).0)
  {
  }

  /** Within a round of an even-sized field, two different pairings share no slot. */
  lemma RoundPairsDisjoint(n: nat, circle: nat, round: nat, i: nat, j: nat)
    requires n >= 2 && n % 2 == 0
    requires 2 * i < n && 2 * j < n
    ensures i != j ==> Disjoint(SlotPair(n, circle, round, i), SlotPair(n, circle, round, j))
  {
    var m := n - 1;
    if i != j {
      // 2 * i < n and 2 * j < n with n even give i + j <= m - 1
      DistinctResidues(m, round + i, round + j);
      if i != 0 && j != 0 {
        DistinctResidues(m, m - i + round, m - j + round);
      }
      if j != 0 {
        DistinctResidues(m, round + i, m - j + round);
      }
      if i != 0 {
        DistinctResidues(m, round + j, m - i + round);
      }
    }
  }

  /** In a round of an even-sized field every slot is paired: by the anchor
      in pairing 0, or at an offset from the round on either side. */
  lemma RoundCovers(n: nat, circle: nat, round: nat, s: nat) returns (i: nat)
    requires n >= 2 && n % 2 == 0
    requires s < n
    ensures 2 * i < n
    ensures Touches(SlotPair(n, circle, round, i), s)
  {
    var m := n - 1;
    var k := n / 2;
    if s == m {
      i := 0;
    } else {
      var d := (s - round) % m;
      CongruentRemainder(m, s - round);
      if d < k {
        i := d;
        // round + d is congruent to s
        CongruentAdd(m, d, s - round, round);
        RemainderOf(m, round + d, s);
      } else {
        i := m - d;
        // m - i + round == d + round, again congruent to s
        CongruentAdd(m, d, s - round, round);
        RemainderOf(m, d + round, s);
        assert m - i + round == d + round;
      }
    }
  }

  /** Two different slots below m whose sum is congruent to 2 * r sit at
      offsets d and -d from r with d != 0. */
  lemma MirrorOffset(m: int, r: int, s: int, t: int)
    requires m > 0
    requires 0 <= s < m && 0 <= t < m && s != t
    requires Congruent(m, 2 * r, s + t)
    ensures (s - r) % m != 0
    ensures Congruent(m, r - (s - r) % m, t)
  {
    var d := (s - r) % m;
    CongruentRemainder(m, s - r);
    // r - d is congruent to r - (s - r) == 2 * r - s, which is congruent to t
    CongruentSymmetric(m, d, s - r);
    CongruentScale(m, s - r, d, -1);
    CongruentAdd(m, -1 * (s - r), -1 * d, r);
    CongruentAdd(m, 2 * r, s + t, -s);
    assert -1 * (s - r) + r == 2 * r + -s;
    assert s + t + -s == t;
    CongruentTransitive(m, -1 * d + r, -1 * (s - r) + r, t);
    assert r - d == -1 * d + r;
    if d == 0 {
      CongruentSymmetric(m, r, t);
      CongruentAdd(m, 0, s - r, r);
      CongruentTransitive(m, s, r, t);
      CongruentClose(m, s, t);
    }
  }

  /** Pairing 0 of a round puts the round's own slot against the anchor. */
  lemma AnchorPairs(n: nat, circle: nat, round: nat)
    requires n >= 2 && round < n - 1
    ensures SamePair(SlotPair(n, circle, round, 0), (round, n - 1))
  {
    RemainderOf(n - 1, round, round);
  }

  /** A non-anchor pairing whose two remainders are s and t pairs s with t. */
  lemma RotatingPairs(n: nat, circle: nat, round: nat, i: nat, s: nat, t: nat)
    requires n >= 2 && 1 <= i && 2 * i < n
    requires (round + i) % (n - 1) == s && (n - 1 - i + round) % (n - 1) == t
    ensures SamePair(SlotPair(n, circle, round, i), (s, t))
  {
  }

  /** For an even-sized field, every unordered pair of different slots is
      paired in some round of each circle. */
  lemma PairMeets(n: nat, circle: nat, s: nat, t: nat) returns (round: nat, i: nat)
    requires n >= 2 && n % 2 == 0
    requires s < n && t < n && s != t
    ensures round < n - 1 && 2 * i < n
    ensures SamePair(SlotPair(n, circle, round, i), (s, t))
  {
    var m := n - 1;
    var k := n / 2;
    if s == m {
      round, i := t, 0;
      AnchorPairs(n, circle, t);
    } else if t == m {
      round, i := s, 0;
      AnchorPairs(n, circle, s);
    } else {
      // the round whose doubled index is congruent to s + t; k is the inverse of 2
      var q := (s + t) * k;
      var r := q % m;
      CongruentRemainder(m, q);
      CongruentScale(m, r, q, 2);
      assert 2 * q - (s + t) == (s + t) * m;
      MultipleCongruent(m, 2 * q, s + t, s + t);
      CongruentTransitive(m, 2 * r, 2 * q, s + t);
      MirrorOffset(m, r, s, t);
      var d := (s - r) % m;
      CongruentRemainder(m, s - r);
      CongruentAdd(m, d, s - r, r);
      round := r;
      if d < k {
        i := d;
        RemainderOf(m, r + d, s);
        assert m - i + r == (r - d) + m;
        CongruentAdd(m, r - d, t, m);
        MultipleCongruent(m, t + m, t, 1);
        CongruentTransitive(m, r - d + m, t + m, t);
        RemainderOf(m, m - i + r, t);
        RotatingPairs(n, circle, r, i, s, t);
      } else {
        i := m - d;
        RemainderOf(m, d + r, s);
        assert m - i + r == d + r;
        assert r + i == (r - d) + m;
        CongruentAdd(m, r - d, t, m);
        MultipleCongruent(m, t + m, t, 1);
        CongruentTransitive(m, r - d + m, t + m, t);
        RemainderOf(m, r + i, t);
        RotatingPairs(n, circle, r, i, t, s);
      }
    }
  }

  /** The two slots of a non-anchor pairing add up to twice the round, modulo m. */
  lemma PairSum(n: nat, round: nat, i: nat)
    requires n >= 2 && 1 <= i && 2 * i < n
    ensures Congruent(n - 1, SlotPair(n, 1, round, i).0 + SlotPair(n, 1, round, i).1, 2 * round)
  {
    var m := n - 1;
    var p := SlotPair(n, 1, round, i);
    CongruentRemainder(m, round + i);
    CongruentRemainder(m, m - i + round);
    CongruentAdd(m, p.0, round + i, p.1);
    CongruentAdd(m, p.1, m - i + round, round + i);
    assert p.1 + (round + i) == (round + i) + p.1;
    CongruentTransitive(m, p.0 + p.1, round + i + p.1, (m - i + round) + (round + i));
    assert (m - i + round) + (round + i) - 2 * round == 1 * m;
    MultipleCongruent(m, (m - i + round) + (round + i), 2 * round, 1);
    CongruentTransitive(m, p.0 + p.1, (m - i + round) + (round + i), 2 * round);
  }

  /** Modulo an odd m = n - 1, doubling is injective on rounds: n / 2 is the
      inverse of 2. */
  lemma HalvingCancels(n: nat, r1: nat, r2: nat)
    requires n >= 2 && n % 2 == 0
    requires r1 < n - 1 && r2 < n - 1
    requires Congruent(n - 1, 2 * r1, 2 * r2)
    ensures r1 == r2
  {
    var m := n - 1;
    assert m == 2 * (n / 2) - 1;
    CancelDouble(m, n / 2, r1, r2);
    CongruentClose(m, r1, r2);
  }

  /** Two pairings of circle 1 that pair the same slots lie in the same round. */
  lemma SamePairSameRound(n: nat, r1: nat, i1: nat, r2: nat, i2: nat)
    requires n >= 2 && n % 2 == 0
    requires r1 < n - 1 && r2 < n - 1 && 2 * i1 < n && 2 * i2 < n
    requires SamePair(SlotPair(n, 1, r1, i1), SlotPair(n, 1, r2, i2))
    ensures r1 == r2
  {
    var m := n - 1;
    var p1 := SlotPair(n, 1, r1, i1);
    var p2 := SlotPair(n, 1, r2, i2);
    if i1 == 0 || i2 == 0 {
      // the anchor is in both pairs, so both are pairing 0 of their round
      assert i1 == 0 && i2 == 0;
      DistinctResidues(m, r1, r2);
    } else {
      PairSum(n, r1, i1);
      PairSum(n, r2, i2);
      assert p1.0 + p1.1 == p2.0 + p2.1;
      CongruentSymmetric(m, p1.0 + p1.1, 2 * r1);
      CongruentTransitive(m, 2 * r1, p1.0 + p1.1, 2 * r2);
      HalvingCancels(n, r1, r2);
    }
  }

  /** For an even-sized field, a pair of slots meets at most once per circle:
      the pairing (round, i) that produces it is unique. */
  lemma PairMeetsOnce(n: nat, circle: nat, r1: nat, i1: nat, r2: nat, i2: nat)
    requires n >= 2 && n % 2 == 0
    requires r1 < n - 1 && r2 < n - 1 && 2 * i1 < n && 2 * i2 < n
    requires SamePair(SlotPair(n, circle, r1, i1), SlotPair(n, circle, r2, i2))
    ensures r1 == r2 && i1 == i2
  {
    SamePairSameRound(n, r1, i1, r2, i2);
    RoundPairsDisjoint(n, circle, r1, i1, i2);
  }
}
