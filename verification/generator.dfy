/**
 generateFootballSchedule (script.php:17-70) on an already shuffled team
 list. The per-slot tracker `$alternating` (true for 'home') is threaded
 through the pairings of module Pairings in loop order: each pairing is
 oriented by the tracker entry of its home slot (lines 45-60) and then both
 of its entries are flipped (lines 63-64).
 */
module Generator {
  import opened Fixtures
  import opened CircleMethod
  import opened Pairings
  import opened Modular

  /** Pairing p uses slot s. */
  predicate Involves(p: Pairing, s: nat)
  {
    p.homeIndex == s || p.awayIndex == s
  }

  /** Lines 24-27: slot i starts on 'home' (true) when i is even, on 'away' otherwise. */
  function InitialTracker(n: nat): (t: seq<bool>)
    ensures |t| == n
  {
    seq(n, i => i % 2 == 0)
  }

  /** The tracker with every entry flipped. */
  function Flipped(t: seq<bool>): (t': seq<bool>)
    ensures |t'| == |t|
  {
    seq(|t|, i requires 0 <= i < |t| => !t[i])
  }

  /** Lines 63-64: flip the entry of homeIndex, then the entry of awayIndex.
      Only those two entries change; when both are the same slot the two
      flips cancel. */
  function Toggle(t: seq<bool>, h: nat, a: nat): (t': seq<bool>)
    requires h < |t| && a < |t|
    ensures |t'| == |t|
    ensures h != a ==> t'[h] == !t[h] && t'[a] == !t[a]
    ensures h == a ==> t'[h] == t[h]
    ensures forall s :: 0 <= s < |t| && s != h && s != a ==> t'[s] == t[s]
  {
    var t1 := t[h := !t[h]];
    t1[a := !t1[a]]
  }

  /** Lines 45-60: the slot in homeIndex plays at home iff its tracker entry
      says 'home'; otherwise the two slots are listed the other way round. */
  function Orient(t: seq<bool>, p: Pairing): (f: Fixture)
    requires p.homeIndex < |t| && p.awayIndex < |t|
    ensures Realises(f, p)
    ensures f.home == p.homeIndex && f.away == p.awayIndex <==> t[p.homeIndex] || p.homeIndex == p.awayIndex
  {
    if t[p.homeIndex] then Fixture(p.homeIndex, p.awayIndex, p.round, p.circle)
    else Fixture(p.awayIndex, p.homeIndex, p.round, p.circle)
  }

  /** The loop body over a sequence of pairings: emit the oriented fixture,
      then toggle the tracker. Returns the fixtures and the final tracker. */
  function Run(ps: seq<Pairing>, t: seq<bool>): (r: (seq<Fixture>, seq<bool>))
    requires InRange(ps, |t|)
    ensures |r.0| == |ps| && |r.1| == |t|
    decreases |ps|
  {
    if |ps| == 0 then ([], t)
    else
      var f := Orient(t, ps[0]);
      var rest := Run(ps[1..], Toggle(t, ps[0].homeIndex, ps[0].awayIndex));
      ([f] + rest.0, rest.1)
  }

  /** The schedule for n slots, as slot-index fixtures in emission order. */
  function Generate(n: nat): (s: seq<Fixture>)
    ensures |s| == |AllPairings(n)|
  {
    AllPairingsInRange(n);
    Run(AllPairings(n), InitialTracker(n)).0
  }

  /** The tracker as it stands when the j-th fixture of the schedule is emitted. */
  function TrackerBefore(n: nat, j: nat): (t: seq<bool>)
    requires j <= |AllPairings(n)|
    ensures |t| == n
  {
    AllPairingsInRange(n);
    Run(AllPairings(n)[..j], InitialTracker(n)).1
  }

  /** Two sequences of pairings in range concatenate to one in range. */
  lemma InRangeAppend(a: seq<Pairing>, b: seq<Pairing>, n: nat)
    requires InRange(a, n) && InRange(b, n)
    ensures InRange(a + b, n)
  {
    forall j | 0 <= j < |a + b|
      ensures (a + b)[j].homeIndex < n && (a + b)[j].awayIndex < n
    {
      if j < |a| {
        assert (a + b)[j] == a[j];
      } else {
        assert (a + b)[j] == b[j - |a|];
      }
    }
  }

  /** Running over a concatenation runs over the second part from where the
      first left the tracker. */
  lemma {:induction false} RunAppend(a: seq<Pairing>, b: seq<Pairing>, t: seq<bool>)
    requires InRange(a, |t|) && InRange(b, |t|)
    ensures InRange(a + b, |t|)
    ensures Run(a + b, t).0 == Run(a, t).0 + Run(b, Run(a, t).1).0
    ensures Run(a + b, t).1 == Run(b, Run(a, t).1).1
    decreases |a|
  {
    InRangeAppend(a, b, |t|);
    if |a| > 0 {
      var t' := Toggle(t, a[0].homeIndex, a[0].awayIndex);
      var f := Orient(t, a[0]);
      assert (a + b)[0] == a[0];
      assert (a + b)[1..] == a[1..] + b;
      RunAppend(a[1..], b, t');
      var ra := Run(a[1..], t');
      var rb := Run(b, ra.1);
      assert Run(a, t) == ([f] + ra.0, ra.1);
      assert Run(a + b, t) == ([f] + (ra.0 + rb.0), rb.1);
      assert [f] + (ra.0 + rb.0) == ([f] + ra.0) + rb.0;
    } else {
      assert a + b == b;
    }
  }

  /** Each fixture is oriented by the tracker entry of its pairing's home slot
      as it stands just before the fixture is emitted. */
  lemma {:induction false} RunOrientation(ps: seq<Pairing>, t: seq<bool>, j: nat)
    requires InRange(ps, |t|) && j < |ps|
    ensures InRange(ps[..j], |t|)
    ensures Run(ps, t).0[j] == Orient(Run(ps[..j], t).1, ps[j])
    decreases j
  {
    if j > 0 {
      var t' := Toggle(t, ps[0].homeIndex, ps[0].awayIndex);
      RunOrientation(ps[1..], t', j - 1);
      assert ps[..j][1..] == ps[1..][..j - 1];
    }
  }

  /** Orientation rule of lines 45-60 for the whole schedule: the fixture lists
      the pairing's homeIndex as home iff the tracker says 'home' for it just
      before the fixture, and otherwise lists the two slots swapped. */
  lemma OrientationRule(n: nat, j: nat)
    requires j < |Generate(n)|
    ensures var p := AllPairings(n)[j];
      && p.homeIndex < n && p.awayIndex < n
      && Generate(n)[j] == if TrackerBefore(n, j)[p.homeIndex]
        then Fixture(p.homeIndex, p.awayIndex, p.round, p.circle)
        else Fixture(p.awayIndex, p.homeIndex, p.round, p.circle)
  {
    AllPairingsInRange(n);
    RunOrientation(AllPairings(n), InitialTracker(n), j);
  }

  /** Fixture j of the schedule is pairing j, possibly turned round, between
      two slots below n, in circle 1 or 2 and a round in 1 .. n - 1. */
  lemma GenerateAt(n: nat, j: nat)
    requires j < |Generate(n)|
    ensures Realises(Generate(n)[j], AllPairings(n)[j])
    ensures Generate(n)[j].home < n && Generate(n)[j].away < n
    ensures Generate(n)[j].circle in {1, 2} && 1 <= Generate(n)[j].round <= n - 1
  {
    AllPairingsInRange(n);
    RunOrientation(AllPairings(n), InitialTracker(n), j);
  }

  /** A run leaves the entry of a slot no pairing uses as it was. */
  lemma {:induction false} RunKeepsUnused(ps: seq<Pairing>, t: seq<bool>, s: nat)
    requires InRange(ps, |t|) && s < |t|
    requires forall j :: 0 <= j < |ps| ==> !Involves(ps[j], s)
    ensures Run(ps, t).1[s] == t[s]
    decreases |ps|
  {
    if |ps| > 0 {
      RunKeepsUnused(ps[1..], Toggle(t, ps[0].homeIndex, ps[0].awayIndex), s);
    }
  }

  /** Pairings that never share a slot and never pair a slot with itself. */
  predicate Matching(ps: seq<Pairing>)
  {
    && (forall j :: 0 <= j < |ps| ==> ps[j].homeIndex != ps[j].awayIndex)
    && (forall a, b :: 0 <= a < b < |ps| ==>
          Disjoint((ps[a].homeIndex, ps[a].awayIndex), (ps[b].homeIndex, ps[b].awayIndex)))
  }

  /** Over a matching, a run flips the entry of every slot some pairing uses. */
  lemma {:induction false} RunFlipsUsed(ps: seq<Pairing>, t: seq<bool>, s: nat, j0: nat)
    requires InRange(ps, |t|) && s < |t| && Matching(ps)
    requires j0 < |ps| && Involves(ps[j0], s)
    ensures Run(ps, t).1[s] == !t[s]
    decreases |ps|
  {
    var t' := Toggle(t, ps[0].homeIndex, ps[0].awayIndex);
    if j0 == 0 {
      forall j | 0 <= j < |ps[1..]|
        ensures !Involves(ps[1..][j], s)
      {
        assert Disjoint((ps[0].homeIndex, ps[0].awayIndex), (ps[j + 1].homeIndex, ps[j + 1].awayIndex));
      }
      RunKeepsUnused(ps[1..], t', s);
    } else {
      assert Disjoint((ps[0].homeIndex, ps[0].awayIndex), (ps[j0].homeIndex, ps[j0].awayIndex));
      RunFlipsUsed(ps[1..], t', s, j0 - 1);
    }
  }

  /** For an even number of slots one round is a matching. */
  lemma RoundIsMatching(n: nat, c: nat, r: nat)
    requires n >= 2 && n % 2 == 0
    ensures Matching(SlotsFrom(n, c, r, 0))
  {
    var ps := SlotsFrom(n, c, r, 0);
    forall j | 0 <= j < |ps|
      ensures ps[j].homeIndex != ps[j].awayIndex
    {
      SlotsFromAt(n, c, r, 0, j);
      SlotPairSelf(n, c, r, j);
    }
    forall a, b | 0 <= a < b < |ps|
      ensures Disjoint((ps[a].homeIndex, ps[a].awayIndex), (ps[b].homeIndex, ps[b].awayIndex))
    {
      SlotsFromAt(n, c, r, 0, a);
      SlotsFromAt(n, c, r, 0, b);
      RoundPairsDisjoint(n, c, r, a, b);
    }
  }

  /** Lines 63-64 over one round of an even-sized field: every tracker entry
      is flipped exactly once. */
  lemma RoundFlipsEveryEntry(n: nat, c: nat, r: nat, t: seq<bool>)
    requires n >= 2 && n % 2 == 0 && |t| == n
    ensures InRange(SlotsFrom(n, c, r, 0), |t|)
    ensures Run(SlotsFrom(n, c, r, 0), t).1 == Flipped(t)
  {
    var ps := SlotsFrom(n, c, r, 0);
    RoundInRange(n, c, r);
    RoundIsMatching(n, c, r);
    var final := Run(ps, t).1;
    forall s | 0 <= s < n
      ensures final[s] == !t[s]
    {
      var i := RoundCovers(n, c, r, s);
      SlotsFromAt(n, c, r, 0, i);
      RunFlipsUsed(ps, t, s, i);
    }
  }

  /** Round group g of the schedule (0 <= g < 2 * (n - 1)) is round
      g - CircleOffset(n, c) of circle c. */
  function GroupCircle(n: nat, g: nat): (c: nat)
    ensures c in {1, 2}
    ensures n >= 1 && g >= n - 1 <==> c == 2
  {
    if n >= 1 && g >= n - 1 then 2 else 1
  }

  /** Pairing i of round r of circle c sits i places after the round's first pairing. */
  lemma RoundEntry(n: nat, c: nat, r: nat, i: nat)
    requires n >= 2 && c in {1, 2} && r < n - 1 && i < SlotsPerRound(n)
    ensures Pos(n, c, r, 0) + i < |AllPairings(n)|
    ensures AllPairings(n)[Pos(n, c, r, 0) + i] == SlotsFrom(n, c, r, 0)[i]
  {
    assert Pos(n, c, r, i) == Pos(n, c, r, 0) + i;
    PairingIndex(n, c, r, i);
    SlotsFromAt(n, c, r, 0, i);
  }

  /** The pairings up to the end of round r of circle c are those before it
      followed by that round. */
  lemma PrefixStep(n: nat, c: nat, r: nat)
    requires n >= 2 && c in {1, 2} && r < n - 1
    ensures Pos(n, c, r, 0) + SlotsPerRound(n) <= |AllPairings(n)|
    ensures AllPairings(n)[..Pos(n, c, r, 0) + SlotsPerRound(n)]
      == AllPairings(n)[..Pos(n, c, r, 0)] + SlotsFrom(n, c, r, 0)
  {
    var ps := AllPairings(n);
    var round := SlotsFrom(n, c, r, 0);
    RoundEntry(n, c, r, SlotsPerRound(n) - 1);
    forall i | 0 <= i < |round|
      ensures ps[Pos(n, c, r, 0) + i] == round[i]
    {
      RoundEntry(n, c, r, i);
    }
    PrefixExtend(ps, Pos(n, c, r, 0), round);
  }

  /** Running over a prefix extended by the block b that follows it runs
      over b from where the prefix left the tracker. */
  lemma RunExtend(ps: seq<Pairing>, q: nat, b: seq<Pairing>, t: seq<bool>)
    requires InRange(ps, |t|) && q + |b| <= |ps| && ps[..q + |b|] == ps[..q] + b
    ensures InRange(ps[..q], |t|) && InRange(b, |t|)
    ensures Run(ps[..q + |b|], t).1 == Run(b, Run(ps[..q], t).1).1
  {
    forall i | 0 <= i < |b|
      ensures b[i] == ps[q + i]
    {
      assert b[i] == (ps[..q] + b)[q + i];
    }
    RunAppend(ps[..q], b, t);
  }

  /** Lines 63-64 over round r of circle c of an even-sized field: the
      tracker after the round is the tracker before it with every entry
      flipped. */
  lemma TrackerStep(n: nat, c: nat, r: nat)
    requires n >= 2 && n % 2 == 0 && c in {1, 2} && r < n - 1
    ensures Pos(n, c, r, 0) + SlotsPerRound(n) <= |AllPairings(n)|
    ensures TrackerBefore(n, Pos(n, c, r, 0) + SlotsPerRound(n))
      == Flipped(TrackerBefore(n, Pos(n, c, r, 0)))
  {
    var ps := AllPairings(n);
    var q := Pos(n, c, r, 0);
    var round := SlotsFrom(n, c, r, 0);
    var init := InitialTracker(n);
    PrefixStep(n, c, r);
    AllPairingsInRange(n);
    RunExtend(ps, q, round, init);
    RoundFlipsEveryEntry(n, c, r, Run(ps[..q], init).1);
  }

  /** TrackerStep for round group g. */
  lemma TrackerGroupStep(n: nat, g: nat)
    requires n >= 2 && n % 2 == 0 && g < 2 * (n - 1)
    ensures Blocks(g + 1, SlotsPerRound(n)) <= |AllPairings(n)|
    ensures TrackerBefore(n, Blocks(g + 1, SlotsPerRound(n)))
      == Flipped(TrackerBefore(n, Blocks(g, SlotsPerRound(n))))
  {
    var c := GroupCircle(n, g);
    var r := g - CircleOffset(n, c);
    assert Pos(n, c, r, 0) == Blocks(g, SlotsPerRound(n));
    TrackerStep(n, c, r);
  }

  /** The tracker of lines 24-27 after g rounds in which every entry flipped
      once: slot s says 'home' iff s + g is even. */
  function Alternating(n: nat, g: nat): (t: seq<bool>)
    ensures |t| == n
  {
    seq(n, s => (s + g) % 2 == 0)
  }

  /** Flipping every entry moves the alternation on by one round. */
  lemma AlternatingStep(n: nat, g: nat)
    ensures Flipped(Alternating(n, g)) == Alternating(n, g + 1)
  {
    forall s | 0 <= s < n
      ensures Flipped(Alternating(n, g))[s] == Alternating(n, g + 1)[s]
    {
      ParityStep(s + g);
    }
  }

  /** Lines 24-27 and 63-64 for an even number of slots: every round flips
      every entry once, so after g round groups the tracker is the initial
      alternation shifted by g. */
  lemma {:induction false} TrackerAfterGroups(n: nat, g: nat)
    requires n >= 2 && n % 2 == 0 && g <= 2 * (n - 1)
    ensures Blocks(g, SlotsPerRound(n)) <= |AllPairings(n)|
    ensures TrackerBefore(n, Blocks(g, SlotsPerRound(n))) == Alternating(n, g)
    decreases g
  {
    var k := SlotsPerRound(n);
    if g == 0 {
      assert AllPairings(n)[..0] == [];
      assert TrackerBefore(n, 0) == InitialTracker(n);
      assert InitialTracker(n) == Alternating(n, 0);
    } else {
      TrackerAfterGroups(n, g - 1);
      TrackerGroupStep(n, g - 1);
      AlternatingStep(n, g - 1);
    }
  }

  /** The tracker at the first pairing of round r of circle c, for an even
      number of slots: slot s says 'home' iff s plus the number of rounds
      played before is even, so each slot's designation alternates from one
      round to the next. */
  lemma TrackerAtRoundStart(n: nat, c: nat, r: nat, s: nat)
    requires n >= 2 && n % 2 == 0 && c in {1, 2} && r < n - 1 && s < n
    ensures Pos(n, c, r, 0) <= |AllPairings(n)|
    ensures TrackerBefore(n, Pos(n, c, r, 0))[s] == ((s + CircleOffset(n, c) + r) % 2 == 0)
  {
    var g := CircleOffset(n, c) + r;
    TrackerAfterGroups(n, g);
    assert Pos(n, c, r, 0) == Blocks(g, SlotsPerRound(n));
    assert TrackerBefore(n, Pos(n, c, r, 0))[s] == Alternating(n, g)[s];
  }

  /** Two circles of n - 1 rounds of k pairings; n * (n - 1) when 2 * k == n. */
  lemma TwoCircles(n: nat, k: nat)
    requires n >= 2
    ensures Blocks(n - 1, k) + Blocks(n - 1, k) == 2 * (n - 1) * k
    ensures 2 * k == n ==> Blocks(n - 1, k) + Blocks(n - 1, k) == n * (n - 1)
  {
    BlocksProduct(n - 1, k);
    assert 2 * (n - 1) * k == (n - 1) * k + (n - 1) * k;
    if 2 * k == n {
      assert 2 * (n - 1) * k == (n - 1) * (2 * k);
    }
  }

  /** Size of the schedule: two circles of n - 1 rounds with one fixture per
      pairing index i with 2 * i < n; n * (n - 1) for an even n; nothing and
      no modulo by zero when n < 2. */
  lemma ScheduleLength(n: nat)
    ensures n < 2 ==> Generate(n) == []
    ensures n >= 2 ==> |Generate(n)| == 2 * (n - 1) * SlotsPerRound(n)
    ensures n >= 2 && n % 2 == 0 ==> |Generate(n)| == n * (n - 1)
  {
    if n >= 2 {
      var k := SlotsPerRound(n);
      assert |AllPairings(n)| == Blocks(n - 1, k) + Blocks(n - 1, k);
      TwoCircles(n, k);
    }
  }

  /** Fixture p of the schedule is pairing i of round r of circle c, at
      position Pos(n, c, r, i), oriented one way or the other. */
  lemma FixtureAt(n: nat, p: nat) returns (c: nat, r: nat, i: nat)
    requires p < |Generate(n)|
    ensures n >= 2 && c in {1, 2} && r < n - 1 && 2 * i < n && i < SlotsPerRound(n)
    ensures p == Pos(n, c, r, i)
    ensures Generate(n)[p].circle == c && Generate(n)[p].round == r + 1
    ensures var sp := SlotPair(n, c, r, i);
      || Generate(n)[p] == Fixture(sp.0, sp.1, r + 1, c)
      || Generate(n)[p] == Fixture(sp.1, sp.0, r + 1, c)
  {
    c, r, i := PairingAt(n, p);
    GenerateAt(n, p);
  }

  /** The same, stated through the slots the fixture involves. */
  lemma FixtureSlots(n: nat, p: nat, s: nat) returns (c: nat, r: nat, i: nat)
    requires p < |Generate(n)|
    ensures n >= 2 && c in {1, 2} && r < n - 1 && 2 * i < n && i < SlotsPerRound(n)
    ensures p == Pos(n, c, r, i)
    ensures Generate(n)[p].circle == c && Generate(n)[p].round == r + 1
    ensures Plays(Generate(n)[p], s) <==> Touches(SlotPair(n, c, r, i), s)
  {
    c, r, i := FixtureAt(n, p);
    var sp := SlotPair(n, c, r, i);
    EitherWay(Generate(n)[p], sp.0, sp.1, r + 1, c, s);
  }

  /** A fixture between a and b, in either orientation, involves exactly a and b. */
  lemma EitherWay(f: Fixture, a: nat, b: nat, round: nat, circle: nat, s: nat)
    requires f == Fixture(a, b, round, circle) || f == Fixture(b, a, round, circle)
    ensures f.round == round && f.circle == circle
    ensures Plays(f, s) <==> a == s || b == s
  {
  }

  /** Conversely, pairing i of round r of circle c is the fixture at
      position Pos(n, c, r, i), oriented one way or the other. */
  lemma FixtureOf(n: nat, c: nat, r: nat, i: nat) returns (p: nat)
    requires n >= 2 && c in {1, 2} && r < n - 1 && 2 * i < n
    ensures p == Pos(n, c, r, i) && p < |Generate(n)|
    ensures var sp := SlotPair(n, c, r, i);
      || Generate(n)[p] == Fixture(sp.0, sp.1, r + 1, c)
      || Generate(n)[p] == Fixture(sp.1, sp.0, r + 1, c)
  {
    PairingIndex(n, c, r, i);
    p := Pos(n, c, r, i);
    GenerateAt(n, p);
  }

  /** The fixture of pairing i of round r of circle c involves every slot
      of that pairing. */
  lemma FixturePlays(n: nat, c: nat, r: nat, i: nat, s: nat) returns (p: nat)
    requires n >= 2 && c in {1, 2} && r < n - 1 && 2 * i < n
    requires Touches(SlotPair(n, c, r, i), s)
    ensures p < |Generate(n)|
    ensures Generate(n)[p].circle == c && Generate(n)[p].round == r + 1 && Plays(Generate(n)[p], s)
  {
    p := FixtureOf(n, c, r, i);
    var sp := SlotPair(n, c, r, i);
    EitherWay(Generate(n)[p], sp.0, sp.1, r + 1, c, s);
  }

  /** The schedule is ordered by circle, then round: later fixtures never
      belong to an earlier (circle, round). */
  lemma ScheduleSorted(n: nat, p: nat, q: nat)
    requires p <= q < |Generate(n)|
    ensures LexLe(Generate(n)[p].circle, Generate(n)[p].round, Generate(n)[q].circle, Generate(n)[q].round)
  {
    var c1, r1, i1 := FixtureAt(n, p);
    var c2, r2, i2 := FixtureAt(n, q);
    PosOrder(n, c1, r1, i1, c2, r2, i2);
  }

  /** The fixtures of round r of circle c form one contiguous block of
      SlotsPerRound(n) fixtures (n / 2 for an even n). */
  lemma RoundBlock(n: nat, c: nat, r: nat, p: nat)
    requires n >= 2 && c in {1, 2} && 1 <= r <= n - 1 && p < |Generate(n)|
    ensures Generate(n)[p].circle == c && Generate(n)[p].round == r
      <==> Pos(n, c, r - 1, 0) <= p < Pos(n, c, r - 1, 0) + SlotsPerRound(n)
  {
    var c1, r1, i1 := FixtureAt(n, p);
    PosBlock(n, c, r - 1, c1, r1, i1);
  }

  /** For an even-sized field every slot plays in every round of both circles. */
  lemma EverySlotPlaysEachRound(n: nat, c: nat, r: nat, s: nat) returns (p: nat)
    requires n >= 2 && n % 2 == 0 && c in {1, 2} && 1 <= r <= n - 1 && s < n
    ensures p < |Generate(n)|
    ensures Generate(n)[p].circle == c && Generate(n)[p].round == r && Plays(Generate(n)[p], s)
  {
    var i := RoundCovers(n, c, r - 1, s);
    p := FixturePlays(n, c, r - 1, i, s);
  }

  /** For an even-sized field no slot plays twice in the same round. */
  lemma SlotPlaysOncePerRound(n: nat, p: nat, q: nat, s: nat)
    requires n >= 2 && n % 2 == 0 && p < |Generate(n)| && q < |Generate(n)|
    requires Generate(n)[p].circle == Generate(n)[q].circle && Generate(n)[p].round == Generate(n)[q].round
    requires Plays(Generate(n)[p], s) && Plays(Generate(n)[q], s)
    ensures p == q
  {
    var c1, r1, i1 := FixtureSlots(n, p, s);
    var c2, r2, i2 := FixtureSlots(n, q, s);
    if i1 != i2 {
      RoundPairsDisjoint(n, c1, r1, i1, i2);
      assert false;
    }
  }

  /** For an even-sized field no fixture pairs a slot with itself. */
  lemma NoSelfMatch(n: nat, p: nat)
    requires n % 2 == 0 && p < |Generate(n)|
    ensures Generate(n)[p].home != Generate(n)[p].away
  {
    var c, r, i := FixtureAt(n, p);
    SlotPairSelf(n, c, r, i);
  }

  /** For an even-sized field every pair of different slots meets in each circle. */
  lemma PairMeetsInEachCircle(n: nat, c: nat, s: nat, t: nat) returns (p: nat)
    requires n >= 2 && n % 2 == 0 && c in {1, 2} && s < n && t < n && s != t
    ensures p < |Generate(n)|
    ensures Generate(n)[p].circle == c && Meets(Generate(n)[p], s, t)
  {
    var r, i := PairMeets(n, c, s, t);
    p := FixtureOf(n, c, r, i);
  }

  /** For an even-sized field a pair of slots meets at most once per circle. */
  lemma PairMeetsOncePerCircle(n: nat, p: nat, q: nat, s: nat, t: nat)
    requires n >= 2 && n % 2 == 0 && p < |Generate(n)| && q < |Generate(n)|
    requires Generate(n)[p].circle == Generate(n)[q].circle
    requires Meets(Generate(n)[p], s, t) && Meets(Generate(n)[q], s, t)
    ensures p == q
  {
    var c1, r1, i1 := FixtureAt(n, p);
    var c2, r2, i2 := FixtureAt(n, q);
    PairMeetsOnce(n, c1, r1, i1, r2, i2);
  }

  /** Every fixture of the schedule is between two slots below n. */
  lemma GenerateInRange(n: nat)
    ensures forall j :: 0 <= j < |Generate(n)| ==> Generate(n)[j].home < n && Generate(n)[j].away < n
  {
    forall j | 0 <= j < |Generate(n)|
      ensures Generate(n)[j].home < n && Generate(n)[j].away < n
    {
      GenerateAt(n, j);
    }
  }

  /** Lines 17-70 with the shuffle already applied: the index fixtures with
      every slot replaced by the title of the team in it. */
  function GenerateFootballSchedule(teams: seq<Team>): (schedule: seq<Match>)
    ensures |schedule| == |Generate(|teams|)|
  {
    var fixtures := Generate(|teams|);
    GenerateInRange(|teams|);
    seq(|fixtures|, j requires 0 <= j < |fixtures| =>
      Match("", teams[fixtures[j].home].title, teams[fixtures[j].away].title, fixtures[j].round, fixtures[j].circle))
  }

  /** Match j of the schedule is pairing j of the circle method between the
      teams in its two slots, in circle 1 or 2, with an empty date; the team
      in homeIndex is listed at home iff its tracker entry says 'home' just
      before the match (lines 45-60). */
  lemma ScheduleEntry(teams: seq<Team>, j: nat)
    requires j < |GenerateFootballSchedule(teams)|
    ensures var m := GenerateFootballSchedule(teams)[j];
      var p := AllPairings(|teams|)[j];
      && m.date == ""
      && m.circle == p.circle && m.round == p.round
      && p.homeIndex < |teams| && p.awayIndex < |teams|
      && (TrackerBefore(|teams|, j)[p.homeIndex] ==>
            m.home == teams[p.homeIndex].title && m.away == teams[p.awayIndex].title)
      && (!TrackerBefore(|teams|, j)[p.homeIndex] ==>
            m.home == teams[p.awayIndex].title && m.away == teams[p.homeIndex].title)
  {
    OrientationRule(|teams|, j);
  }
}
