/**
 What prepareScheduleData (script.php:89-146) makes of the schedule that
 generateFootballSchedule (script.php:17-70) returns: for n >= 2 teams, two
 circles, each with n - 1 round groups, numbered 1 .. n - 1 in circle 1 and
 n .. 2n - 2 in circle 2, round group b of circle c holding exactly the
 fixtures of round b + 1 of circle c.
 */
module ScheduleLayout {
  import opened Fixtures
  import opened Grouping
  import opened Pairings
  import opened Generator
  import opened ScheduleData

  /** Some match of s is played in round r of circle c. */
  predicate HasMatch(s: seq<Match>, c: int, r: int)
  {
    exists m :: m in s && m.circle == c && m.round == r
  }

  /** The (circle, round) pairs of s are exactly {1, 2} x {1 .. n - 1}. */
  predicate Grid(s: seq<Match>, n: nat)
  {
    && (forall m :: m in s ==> m.circle in {1, 2} && 1 <= m.round <= n - 1)
    && (forall c, r :: c in {1, 2} && 1 <= r <= n - 1 ==> HasMatch(s, c, r))
  }

  /** A schedule listed by circle and round is listed by circle. */
  lemma SortedByCircle(s: seq<Match>)
    requires LexSorted(s)
    ensures KeySorted(s, CircleKey)
  {
    forall p, q | 0 <= p < q < |s|
      ensures CircleKey(s[p]) <= CircleKey(s[q])
    {
      assert LexLe(s[p].circle, s[p].round, s[q].circle, s[q].round);
    }
  }

  /** The circle buckets of a sorted grid schedule are circle 1, then circle 2. */
  lemma CircleBuckets(s: seq<Match>, n: nat)
    requires n >= 2 && LexSorted(s) && Grid(s, n)
    ensures |GroupBy(s, CircleKey)| == 2
    ensures forall i :: 0 <= i < 2 ==>
      GroupBy(s, CircleKey)[i].key == i + 1 && GroupBy(s, CircleKey)[i].items == Select(s, CircleKey, i + 1)
  {
    SortedByCircle(s);
    forall c | 1 <= c <= 2
      ensures Hits(s, CircleKey, c)
    {
      assert HasMatch(s, c, 1);
      var m :| m in s && m.circle == c && m.round == 1;
      assert CircleKey(m) == c;
    }
    SortedKeyRange(s, CircleKey, 1, 2);
  }

  /** Round bucket j of circle c holds the matches of circle c and of the bucket's round. */
  lemma RoundBucketItems(s: seq<Match>, c: int, j: nat)
    requires j < |GroupBy(Select(s, CircleKey, c), RoundKey)|
    ensures var g := GroupBy(Select(s, CircleKey, c), RoundKey)[j];
      g.items == InRound(s, c, g.key)
  {
    var rs := GroupBy(Select(s, CircleKey, c), RoundKey);
    GroupByBuckets(Select(s, CircleKey, c), RoundKey);
    SelectTwice(s, c, rs[j].key);
  }

  /** The round buckets of circle c of a sorted grid schedule are rounds
      1 .. n - 1, in order. */
  lemma RoundKeys(s: seq<Match>, n: nat, c: int)
    requires n >= 2 && LexSorted(s) && Grid(s, n) && c in {1, 2}
    ensures |GroupBy(Select(s, CircleKey, c), RoundKey)| == n - 1
    ensures forall b :: 0 <= b < n - 1 ==> GroupBy(Select(s, CircleKey, c), RoundKey)[b].key == b + 1
  {
    var items := Select(s, CircleKey, c);
    CircleSortedByRound(s, c);
    forall y | y in items
      ensures 1 <= RoundKey(y) <= n - 1
    {
      SelectMember(s, CircleKey, c, y);
    }
    forall r | 1 <= r <= n - 1
      ensures Hits(items, RoundKey, r)
    {
      assert HasMatch(s, c, r);
      var m :| m in s && m.circle == c && m.round == r;
      SelectContains(s, CircleKey, c, m);
      assert RoundKey(m) == r;
    }
    SortedKeyRange(items, RoundKey, 1, n - 1);
  }

  /** The counter enters the second circle bucket after the rounds of the first. */
  lemma StartOfSecond(cs: seq<Group<Match>>)
    requires |cs| >= 2
    ensures Start(BucketRounds(cs), 1, 1) == 1 + |GroupBy(cs[0].items, RoundKey)|
  {
  }

  /** The counter enters circle 2 at n, after the n - 1 rounds of circle 1. */
  lemma SecondCircleStart(s: seq<Match>, n: nat)
    requires n >= 2 && LexSorted(s) && Grid(s, n)
    ensures |GroupBy(s, CircleKey)| == 2
    ensures Start(BucketRounds(GroupBy(s, CircleKey)), 1, 1) == n
  {
    var cs := GroupBy(s, CircleKey);
    CircleBuckets(s, n);
    RoundKeys(s, n, 1);
    StartOfSecond(cs);
  }

  /** Circle group i of a sorted grid schedule is circle i + 1, its round
      buckets numbered from CircleOffset(n, i + 1) + 1. */
  lemma CircleGroupAt(s: seq<Match>, n: nat, i: nat)
    requires n >= 2 && LexSorted(s) && Grid(s, n) && i < 2
    ensures |PrepareScheduleData(s)| == 2
    ensures PrepareScheduleData(s)[i]
      == CircleGroup(i + 1, NumberRounds(GroupBy(Select(s, CircleKey, i + 1), RoundKey), CircleOffset(n, i + 1) + 1))
  {
    var cs := GroupBy(s, CircleKey);
    CircleBuckets(s, n);
    var start := CircleOffset(n, i + 1) + 1;
    if i == 1 {
      SecondCircleStart(s, n);
    }
    CircleFromBucket(cs, i, start);
  }

  /** Round bucket b of circle c of a sorted grid schedule, numbered on from
      CircleOffset(n, c), becomes round group CircleOffset(n, c) + b + 1
      holding the matches of round b + 1. */
  lemma NumberedRound(s: seq<Match>, n: nat, c: int, b: nat)
    requires n >= 2 && LexSorted(s) && Grid(s, n) && c in {1, 2} && b < n - 1
    ensures var rs := GroupBy(Select(s, CircleKey, c), RoundKey);
      && b < |rs|
      && NumberRounds(rs, CircleOffset(n, c) + 1)[b] == RoundGroup(CircleOffset(n, c) + b + 1, InRound(s, c, b + 1))
  {
    var rs := GroupBy(Select(s, CircleKey, c), RoundKey);
    RoundKeys(s, n, c);
    NumberedAt(rs, CircleOffset(n, c) + 1, b);
    RoundBucketItems(s, c, b);
  }

  /** Round group b of circle group c of a sorted grid schedule: numbered
      CircleOffset(n, c) + b + 1, holding the matches of round b + 1. */
  lemma RoundGroupLayout(s: seq<Match>, n: nat, c: int, b: nat, g: CircleGroup)
    requires n >= 2 && LexSorted(s) && Grid(s, n) && c in {1, 2} && b < n - 1
    requires g == CircleGroup(c, NumberRounds(GroupBy(Select(s, CircleKey, c), RoundKey), CircleOffset(n, c) + 1))
    ensures b < |g.rounds|
    ensures g.rounds[b] == RoundGroup(CircleOffset(n, c) + b + 1, InRound(s, c, b + 1))
  {
    NumberedRound(s, n, c, b);
  }

  /** Circle group i of a sorted grid schedule: circle i + 1, its n - 1
      round groups numbered on from CircleOffset(n, i + 1), round group b
      holding round b + 1. */
  lemma CircleLayout(s: seq<Match>, n: nat, i: nat)
    requires n >= 2 && LexSorted(s) && Grid(s, n) && i < 2
    ensures |PrepareScheduleData(s)| == 2
    ensures var g := PrepareScheduleData(s)[i];
      && g.circle == i + 1
      && |g.rounds| == n - 1
      && forall b :: 0 <= b < n - 1 ==>
        && g.rounds[b].roundNumber == CircleOffset(n, i + 1) + b + 1
        && g.rounds[b].matches == InRound(s, i + 1, b + 1)
  {
    CircleGroupAt(s, n, i);
    RoundKeys(s, n, i + 1);
    var g := PrepareScheduleData(s)[i];
    forall b | 0 <= b < n - 1
      ensures g.rounds[b].roundNumber == CircleOffset(n, i + 1) + b + 1
      ensures g.rounds[b].matches == InRound(s, i + 1, b + 1)
    {
      RoundGroupLayout(s, n, i + 1, b, g);
    }
  }

  /** For any schedule listed by circle and round whose (circle, round)
      pairs are {1, 2} x {1 .. n - 1}: two circles, n - 1 round groups each,
      numbered on from circle 1 into circle 2. */
  lemma GridLayout(s: seq<Match>, n: nat)
    requires n >= 2 && LexSorted(s) && Grid(s, n)
    ensures var out := PrepareScheduleData(s);
      && |out| == 2
      && forall i :: 0 <= i < 2 ==>
        && out[i].circle == i + 1
        && |out[i].rounds| == n - 1
        && forall b :: 0 <= b < n - 1 ==>
          && out[i].rounds[b].roundNumber == CircleOffset(n, i + 1) + b + 1
          && out[i].rounds[b].matches == InRound(s, i + 1, b + 1)
  {
    CircleLayout(s, n, 0);
    CircleLayout(s, n, 1);
  }

  /** The matches of s in positions lo .. hi - 1 are exactly those of round
      r of circle c; then those are the matches InRound selects. */
  lemma {:induction false} InRoundBlock(s: seq<Match>, c: int, r: int, lo: nat, hi: nat)
    requires lo <= hi <= |s|
    requires forall p :: 0 <= p < |s| ==> (s[p].circle == c && s[p].round == r <==> lo <= p < hi)
    ensures InRound(s, c, r) == s[lo..hi]
    decreases |s|
  {
    if |s| > 0 {
      if lo > 0 {
        InRoundBlock(s[1..], c, r, lo - 1, hi - 1);
        assert s[1..][lo - 1..hi - 1] == s[lo..hi];
      } else if hi > 0 {
        InRoundBlock(s[1..], c, r, 0, hi - 1);
        assert s[lo..hi] == [s[0]] + s[1..][0..hi - 1];
      } else {
        InRoundBlock(s[1..], c, r, 0, 0);
      }
    }
  }

  /** s lists, position by position, the circles and rounds of Generate(n). */
  predicate Follows(s: seq<Match>, n: nat)
  {
    && |s| == |Generate(n)|
    && forall j :: 0 <= j < |s| ==> s[j].circle == Generate(n)[j].circle && s[j].round == Generate(n)[j].round
  }

  /** The team schedule follows the slot schedule it was made from. */
  lemma ScheduleFollows(teams: seq<Team>)
    ensures Follows(GenerateFootballSchedule(teams), |teams|)
  {
    var s := GenerateFootballSchedule(teams);
    forall j | 0 <= j < |s|
      ensures s[j].circle == Generate(|teams|)[j].circle && s[j].round == Generate(|teams|)[j].round
    {
      GenerateAt(|teams|, j);
    }
  }

  /** A schedule following Generate(n) is listed by circle and round, and
      its (circle, round) pairs are {1, 2} x {1 .. n - 1}. */
  lemma GeneratedGrid(s: seq<Match>, n: nat)
    requires n >= 2 && Follows(s, n)
    ensures LexSorted(s)
    ensures Grid(s, n)
  {
    forall p, q | 0 <= p <= q < |s|
      ensures LexLe(s[p].circle, s[p].round, s[q].circle, s[q].round)
    {
      ScheduleSorted(n, p, q);
    }
    forall m | m in s
      ensures m.circle in {1, 2} && 1 <= m.round <= n - 1
    {
      var j :| 0 <= j < |s| && s[j] == m;
      GenerateAt(n, j);
    }
    forall c, r | c in {1, 2} && 1 <= r <= n - 1
      ensures HasMatch(s, c, r)
    {
      PairingIndex(n, c, r - 1, 0);
      var p := Pos(n, c, r - 1, 0);
      GenerateAt(n, p);
      assert s[p].circle == c && s[p].round == r;
    }
  }

  /** The schedule of two or more teams is listed by circle and then by
      round, and its (circle, round) pairs are exactly {1, 2} x
      {1 .. |teams| - 1}. */
  lemma TeamScheduleGrid(teams: seq<Team>)
    requires |teams| >= 2
    ensures LexSorted(GenerateFootballSchedule(teams))
    ensures Grid(GenerateFootballSchedule(teams), |teams|)
  {
    ScheduleFollows(teams);
    GeneratedGrid(GenerateFootballSchedule(teams), |teams|);
  }

  /** In a schedule following Generate(n), round r of circle c occupies the
      SlotsPerRound(n) positions from Pos(n, c, r - 1, 0) on. */
  lemma RoundPositions(s: seq<Match>, n: nat, c: int, r: int)
    requires n >= 2 && Follows(s, n) && c in {1, 2} && 1 <= r <= n - 1
    ensures Pos(n, c, r - 1, 0) + SlotsPerRound(n) <= |s|
    ensures forall p :: 0 <= p < |s| ==>
      (s[p].circle == c && s[p].round == r <==> Pos(n, c, r - 1, 0) <= p < Pos(n, c, r - 1, 0) + SlotsPerRound(n))
  {
    var k := SlotsPerRound(n);
    PairingIndex(n, c, r - 1, k - 1);
    assert Pos(n, c, r - 1, k - 1) == Pos(n, c, r - 1, 0) + k - 1;
    forall p | 0 <= p < |s|
      ensures s[p].circle == c && s[p].round == r <==> Pos(n, c, r - 1, 0) <= p < Pos(n, c, r - 1, 0) + k
    {
      RoundBlock(n, c, r, p);
    }
  }

  /** Each round of a schedule following Generate(n) holds SlotsPerRound(n)
      matches (n / 2 for even n), listed one after another. */
  lemma GeneratedRoundSize(s: seq<Match>, n: nat, c: int, r: int)
    requires n >= 2 && Follows(s, n) && c in {1, 2} && 1 <= r <= n - 1
    ensures |InRound(s, c, r)| == SlotsPerRound(n)
  {
    var lo := Pos(n, c, r - 1, 0);
    RoundPositions(s, n, c, r);
    InRoundBlock(s, c, r, lo, lo + SlotsPerRound(n));
  }

  /**
   The prepared data of a generated schedule: no circle at all for fewer
   than two teams; otherwise circles 1 and 2, each with n - 1 round groups
   numbered 1 .. n - 1 and n .. 2n - 2, round group b of circle c holding
   exactly the SlotsPerRound(n) matches of round b + 1 of circle c.
   */
  lemma GeneratedPrepared(teams: seq<Team>)
    ensures |teams| < 2 ==> PrepareScheduleData(GenerateFootballSchedule(teams)) == []
    ensures |teams| >= 2 ==>
      var n := |teams|;
      var s := GenerateFootballSchedule(teams);
      var out := PrepareScheduleData(s);
      && |out| == 2
      && forall i :: 0 <= i < 2 ==>
        && out[i].circle == i + 1
        && |out[i].rounds| == n - 1
        && forall b :: 0 <= b < n - 1 ==>
          && out[i].rounds[b].roundNumber == CircleOffset(n, i + 1) + b + 1
          && out[i].rounds[b].matches == InRound(s, i + 1, b + 1)
          && |out[i].rounds[b].matches| == SlotsPerRound(n)
  {
    var n := |teams|;
    var s := GenerateFootballSchedule(teams);
    ScheduleLength(n);
    if n >= 2 {
      ScheduleFollows(teams);
      GeneratedGrid(s, n);
      GridLayout(s, n);
      forall c, r | c in {1, 2} && 1 <= r <= n - 1
        ensures |InRound(s, c, r)| == SlotsPerRound(n)
      {
        GeneratedRoundSize(s, n, c, r);
      }
    }
  }
}
