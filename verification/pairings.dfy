/**
 The three nested loops of generateFootballSchedule (script.php:29-43) as
 recursion: circles 1 and 2, rounds 0 .. n - 2, pairings i with 2 * i < n.
 They produce the raw pairings in loop order; the home/away tracker only
 decides the orientation of each, never the slots, so it is threaded over
 this sequence separately (module Generator).
 */
module Pairings {
  import opened Fixtures
  import opened CircleMethod
  import opened Modular

  /** Number of pairings per round: the i with 2 * i < n, which is how the
      float comparison `$i < $numTeams / 2` (line 31) counts for both parities. */
  function SlotsPerRound(n: nat): (k: nat)
    ensures 2 * k >= n
    ensures k == 0 || 2 * (k - 1) < n
    ensures n % 2 == 0 ==> 2 * k == n
  {
    (n + 1) / 2
  }

  /** The loop body up to line 43, tagged with the 1-based round and the circle. */
  function MakePairing(n: nat, circle: nat, round: nat, i: nat): (p: Pairing)
    requires n >= 2 && 2 * i < n
    ensures p.homeIndex < n && p.awayIndex < n
    ensures p.round == round + 1 && p.circle == circle
  {
    var sp := SlotPair(n, circle, round, i);
    Pairing(sp.0, sp.1, round + 1, circle)
  }

  /** Every slot index of ps is below n. */
  predicate InRange(ps: seq<Pairing>, n: nat)
  {
    forall j :: 0 <= j < |ps| ==> ps[j].homeIndex < n && ps[j].awayIndex < n
  }

  /** Inner loop (line 31) from pairing i on. */
  function SlotsFrom(n: nat, circle: nat, round: nat, i: nat): (ps: seq<Pairing>)
    requires n >= 2 && i <= SlotsPerRound(n)
    ensures |ps| == SlotsPerRound(n) - i
    decreases n - 2 * i
  {
    if 2 * i >= n then []
    else [MakePairing(n, circle, round, i)] + SlotsFrom(n, circle, round, i + 1)
  }

  /** Element j of SlotsFrom is pairing i + j of the round. */
  lemma {:induction false} SlotsFromAt(n: nat, circle: nat, round: nat, i: nat, j: nat)
    requires n >= 2 && i <= SlotsPerRound(n) && j < SlotsPerRound(n) - i
    ensures 2 * (i + j) < n
    ensures SlotsFrom(n, circle, round, i)[j] == MakePairing(n, circle, round, i + j)
    decreases j
  {
    var rest := SlotsFrom(n, circle, round, i + 1);
    assert SlotsFrom(n, circle, round, i) == [MakePairing(n, circle, round, i)] + rest;
    if j > 0 {
      SlotsFromAt(n, circle, round, i + 1, j - 1);
      assert ([MakePairing(n, circle, round, i)] + rest)[j] == rest[j - 1];
    }
  }

  /** One round uses slots below n only. */
  lemma RoundInRange(n: nat, circle: nat, round: nat)
    requires n >= 2
    ensures InRange(SlotsFrom(n, circle, round, 0), n)
  {
    forall j | 0 <= j < |SlotsFrom(n, circle, round, 0)|
      ensures SlotsFrom(n, circle, round, 0)[j].homeIndex < n
      ensures SlotsFrom(n, circle, round, 0)[j].awayIndex < n
    {
      SlotsFromAt(n, circle, round, 0, j);
    }
  }

  /** Middle loop (line 30) from round `round` on. */
  function RoundsFrom(n: nat, circle: nat, round: nat): (ps: seq<Pairing>)
    requires round <= n
    ensures n >= 2 && round <= n - 1 ==> |ps| == Blocks(n - 1 - round, SlotsPerRound(n))
    ensures n < 2 ==> ps == []
    decreases n - round
  {
    if round < n - 1 then
      SlotsFrom(n, circle, round, 0) + RoundsFrom(n, circle, round + 1)
    else []
  }

  /** All pairings of a schedule for n slots, in the order the loops visit
      them: the outer loop (line 29) runs circle 1, then circle 2. */
  function AllPairings(n: nat): (ps: seq<Pairing>)
    ensures n < 2 ==> ps == []
  {
    RoundsFrom(n, 1, 0) + RoundsFrom(n, 2, 0)
  }

  /** Rounds played before `circle` starts: none before circle 1, n - 1 before circle 2. */
  function CircleOffset(n: nat, circle: nat): nat
  {
    if circle == 2 && n >= 1 then n - 1 else 0
  }

  /** Position of pairing i of round `round` of `circle` (1 or 2) in AllPairings(n). */
  function Pos(n: nat, circle: nat, round: nat, i: nat): nat
  {
    Blocks(CircleOffset(n, circle) + round, SlotsPerRound(n)) + i
  }

  /** Each element of RoundsFrom is pairing i of some later round r, after
      the r - round blocks of the rounds before it. */
  lemma {:induction false} RoundsFromAt(n: nat, circle: nat, round: nat, p: nat) returns (r: nat, i: nat)
    requires n >= 2 && round <= n - 1
    requires p < |RoundsFrom(n, circle, round)|
    ensures round <= r < n - 1 && 2 * i < n && i < SlotsPerRound(n)
    ensures p == Blocks(r - round, SlotsPerRound(n)) + i
    ensures RoundsFrom(n, circle, round)[p] == MakePairing(n, circle, r, i)
    decreases n - round
  {
    var k := SlotsPerRound(n);
    var first := SlotsFrom(n, circle, round, 0);
    var rest := RoundsFrom(n, circle, round + 1);
    assert RoundsFrom(n, circle, round) == first + rest;
    assert |first| == k;
    if p < k {
      r, i := round, p;
      SlotsFromAt(n, circle, round, 0, p);
      IndexLeft(first, rest, p);
    } else {
      r, i := RoundsFromAt(n, circle, round + 1, p - k);
      IndexRight(first, rest, p - k);
      assert Blocks(r - round, k) == Blocks(r - (round + 1), k) + k;
    }
  }

  /** Conversely, pairing i of round r sits after the r - round blocks before it. */
  lemma {:induction false} RoundsFromIndex(n: nat, circle: nat, round: nat, r: nat, i: nat)
    requires n >= 2 && round <= r < n - 1 && 2 * i < n
    ensures Blocks(r - round, SlotsPerRound(n)) + i < |RoundsFrom(n, circle, round)|
    ensures RoundsFrom(n, circle, round)[Blocks(r - round, SlotsPerRound(n)) + i] == MakePairing(n, circle, r, i)
    decreases n - round
  {
    var k := SlotsPerRound(n);
    var first := SlotsFrom(n, circle, round, 0);
    var rest := RoundsFrom(n, circle, round + 1);
    assert RoundsFrom(n, circle, round) == first + rest;
    if r == round {
      SlotsFromAt(n, circle, round, 0, i);
      IndexLeft(first, rest, i);
    } else {
      RoundsFromIndex(n, circle, round + 1, r, i);
      var q := Blocks(r - (round + 1), k) + i;
      assert Blocks(r - round, k) + i == |first| + q;
      IndexRight(first, rest, q);
    }
  }

  /** Within its circle, pairing i of round r sits after r blocks. */
  lemma CircleIndex(n: nat, c: nat, r: nat, i: nat)
    requires n >= 2 && r < n - 1 && 2 * i < n
    ensures Blocks(r, SlotsPerRound(n)) + i < |RoundsFrom(n, c, 0)|
    ensures RoundsFrom(n, c, 0)[Blocks(r, SlotsPerRound(n)) + i] == MakePairing(n, c, r, i)
  {
    RoundsFromIndex(n, c, 0, r, i);
  }

  /** Every pairing of the schedule is pairing i of round r of circle c, at Pos(n, c, r, i). */
  lemma PairingAt(n: nat, p: nat) returns (c: nat, r: nat, i: nat)
    requires n >= 2 && p < |AllPairings(n)|
    ensures c in {1, 2} && r < n - 1 && 2 * i < n && i < SlotsPerRound(n)
    ensures p == Pos(n, c, r, i)
    ensures AllPairings(n)[p] == MakePairing(n, c, r, i)
  {
    var first := RoundsFrom(n, 1, 0);
    var second := RoundsFrom(n, 2, 0);
    if p < |first| {
      c := 1;
      r, i := RoundsFromAt(n, 1, 0, p);
      IndexLeft(first, second, p);
    } else {
      c := 2;
      r, i := RoundsFromAt(n, 2, 0, p - |first|);
      IndexRight(first, second, p - |first|);
    }
    PosInCircle(n, c, r, i);
  }

  /** Every pairing of the schedule uses slots below n, and carries circle 1
      or 2 and a round in 1 .. n - 1. */
  lemma AllPairingsInRange(n: nat)
    ensures InRange(AllPairings(n), n)
    ensures forall j :: 0 <= j < |AllPairings(n)| ==>
      AllPairings(n)[j].circle in {1, 2} && 1 <= AllPairings(n)[j].round <= n - 1
  {
    forall j | 0 <= j < |AllPairings(n)|
      ensures AllPairings(n)[j].homeIndex < n && AllPairings(n)[j].awayIndex < n
      ensures AllPairings(n)[j].circle in {1, 2} && 1 <= AllPairings(n)[j].round <= n - 1
    {
      var c, r, i := PairingAt(n, j);
    }
  }

  /** Pairing i of round r of circle c sits at Pos(n, c, r, i). */
  lemma PairingIndex(n: nat, c: nat, r: nat, i: nat)
    requires n >= 2 && c in {1, 2} && r < n - 1 && 2 * i < n
    ensures 0 <= Pos(n, c, r, i) < |AllPairings(n)|
    ensures AllPairings(n)[Pos(n, c, r, i)] == MakePairing(n, c, r, i)
  {
    var k := SlotsPerRound(n);
    var first := RoundsFrom(n, 1, 0);
    var second := RoundsFrom(n, 2, 0);
    var q := Blocks(r, k) + i;
    PosInCircle(n, c, r, i);
    CircleIndex(n, c, r, i);
    if c == 1 {
      IndexLeft(first, second, q);
    } else {
      IndexRight(first, second, q);
    }
  }

  /** Pos counts the blocks of circle 1 before any position of circle 2. */
  lemma PosInCircle(n: nat, c: nat, r: nat, i: nat)
    requires n >= 2 && c in {1, 2}
    ensures Pos(n, c, r, i)
      == (if c == 1 then 0 else Blocks(n - 1, SlotsPerRound(n))) + Blocks(r, SlotsPerRound(n)) + i
  {
    if c == 2 {
      BlocksAdd(n - 1, r, SlotsPerRound(n));
    }
  }

  /** A prefix extended by the block that follows it. */
  lemma PrefixExtend<T>(a: seq<T>, q: nat, b: seq<T>)
    requires q + |b| <= |a|
    requires forall i :: 0 <= i < |b| ==> a[q + i] == b[i]
    ensures a[..q + |b|] == a[..q] + b
  {
    assert forall j :: 0 <= j < q + |b| ==> a[..q + |b|][j] == (a[..q] + b)[j] by {
      forall j | 0 <= j < q + |b|
        ensures a[..q + |b|][j] == (a[..q] + b)[j]
      {
        if j >= q {
          assert a[q + (j - q)] == b[j - q];
        }
      }
    }
  }

  /** Indexing the left part of a concatenation. */
  lemma IndexLeft<T>(a: seq<T>, b: seq<T>, j: nat)
    requires j < |a|
    ensures (a + b)[j] == a[j]
  {
  }

  /** Indexing the right part of a concatenation. */
  lemma IndexRight<T>(a: seq<T>, b: seq<T>, j: nat)
    requires j < |b|
    ensures |a| + j < |a + b| && (a + b)[|a| + j] == b[j]
  {
  }

  /** Two positions carry the same (circle, round, i) only if they are equal,
      and positions grow with (circle, round). */
  lemma PosOrder(n: nat, c1: nat, r1: nat, i1: nat, c2: nat, r2: nat, i2: nat)
    requires n >= 2 && c1 in {1, 2} && c2 in {1, 2} && r1 < n - 1 && r2 < n - 1
    requires i1 < SlotsPerRound(n) && i2 < SlotsPerRound(n)
    ensures Pos(n, c1, r1, i1) <= Pos(n, c2, r2, i2) ==> LexLe(c1, r1, c2, r2)
    ensures Pos(n, c1, r1, i1) == Pos(n, c2, r2, i2) ==> c1 == c2 && r1 == r2 && i1 == i2
  {
    var g1 := CircleOffset(n, c1) + r1;
    var g2 := CircleOffset(n, c2) + r2;
    BlocksOrder(SlotsPerRound(n), g1, i1, g2, i2);
  }

  /** The positions of round r of circle c are the block of SlotsPerRound(n)
      positions starting at Pos(n, c, r, 0). */
  lemma PosBlock(n: nat, c: nat, r: nat, c1: nat, r1: nat, i1: nat)
    requires n >= 2 && c in {1, 2} && c1 in {1, 2} && r < n - 1 && r1 < n - 1
    requires i1 < SlotsPerRound(n)
    ensures c1 == c && r1 == r
      <==> Pos(n, c, r, 0) <= Pos(n, c1, r1, i1) < Pos(n, c, r, 0) + SlotsPerRound(n)
  {
    var k := SlotsPerRound(n);
    var g := CircleOffset(n, c) + r;
    var g1 := CircleOffset(n, c1) + r1;
    BlocksOrder(k, g, 0, g1, i1);
    BlocksOrder(k, g1, i1, g, k - 1);
    if g1 == g {
      assert c1 == c && r1 == r;
    }
  }
}
