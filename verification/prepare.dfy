/**
 prepareScheduleData (script.php:89-146) without the dates: the schedule is
 bucketed by circle, each circle's matches by round, and the round buckets
 are numbered by one running counter that starts at 1 and keeps counting
 across circles. PHP arrays keep insertion order, so circles and rounds come
 in the order in which they first occur in the schedule.
 */
module ScheduleData {
  import opened Fixtures
  import opened Grouping
  import opened Pairings
  import opened Generator

  /** One entry of a circle's 'rounds' list (lines 134-138), without its date. */
  datatype RoundGroup = RoundGroup(roundNumber: int, matches: seq<Match>)

  /** One entry of the prepared data (lines 102-105). */
  datatype CircleGroup = CircleGroup(circle: int, rounds: seq<RoundGroup>)

  /** The bucket key of line 96. */
  function CircleKey(m: Match): int
  {
    m.circle
  }

  /** The bucket key of line 110. */
  function RoundKey(m: Match): int
  {
    m.round
  }

  /** The round loop of lines 115-141 for one circle, the counter at `next` on
      entry; NumberedAt states what each entry holds. */
  function NumberRounds(gs: seq<Group<Match>>, next: int): (rs: seq<RoundGroup>)
    ensures |rs| == |gs|
    decreases |gs|
  {
    if |gs| == 0 then []
    else [RoundGroup(next, gs[0].items)] + NumberRounds(gs[1..], next + 1)
  }

  /** Bucket j becomes round group j, numbered next + j, its matches unchanged. */
  lemma {:induction false} NumberedAt(gs: seq<Group<Match>>, next: int, j: nat)
    requires j < |gs|
    ensures NumberRounds(gs, next)[j] == RoundGroup(next + j, gs[j].items)
    decreases j
  {
    if j > 0 {
      NumberedAt(gs[1..], next + 1, j - 1);
      assert NumberRounds(gs, next)[j] == NumberRounds(gs[1..], next + 1)[j - 1];
    }
  }

  /** A circle bucket after lines 107-111: its key and its matches bucketed by round. */
  datatype Circle = Circle(key: int, rounds: seq<Group<Match>>)

  /** The round buckets of every circle bucket (lines 107-111). */
  function BucketRounds(cs: seq<Group<Match>>): (bs: seq<Circle>)
    ensures |bs| == |cs|
  {
    seq(|cs|, i requires 0 <= i < |cs| => Circle(cs[i].key, GroupBy(cs[i].items, RoundKey)))
  }

  /** One pass of the circle loop (lines 102-141): the circle's round buckets
      numbered from `next`. */
  function PrepareCircle(b: Circle, next: int): (cg: CircleGroup)
    ensures cg.circle == b.key
    ensures |cg.rounds| == |b.rounds|
  {
    CircleGroup(b.key, NumberRounds(b.rounds, next))
  }

  /** The circle loop of lines 101-142, with the counter at `next` on entry. */
  function PrepareCircles(bs: seq<Circle>, next: int): (out: seq<CircleGroup>)
    ensures |out| == |bs|
    decreases |bs|
  {
    if |bs| == 0 then []
    else [PrepareCircle(bs[0], next)] + PrepareCircles(bs[1..], next + |bs[0].rounds|)
  }

  /** The counter value on entry to circle i. */
  function Start(bs: seq<Circle>, next: int, i: nat): int
    requires i <= |bs|
    decreases i
  {
    if i == 0 then next else Start(bs[1..], next + |bs[0].rounds|, i - 1)
  }

  /** Circle i of the output is circle bucket i, prepared from the counter value Start. */
  lemma {:induction false} CircleAt(bs: seq<Circle>, next: int, i: nat)
    requires i < |bs|
    ensures PrepareCircles(bs, next)[i] == PrepareCircle(bs[i], Start(bs, next, i))
    decreases i
  {
    if i > 0 {
      CircleAt(bs[1..], next + |bs[0].rounds|, i - 1);
    }
  }

  /** Circle bucket i, entered with the counter at `start`, becomes the circle
      group of its key with its matches' round buckets numbered from `start`. */
  lemma CircleFromBucket(cs: seq<Group<Match>>, i: nat, start: int)
    requires i < |cs| && Start(BucketRounds(cs), 1, i) == start
    ensures PrepareCircles(BucketRounds(cs), 1)[i]
      == CircleGroup(cs[i].key, NumberRounds(GroupBy(cs[i].items, RoundKey), start))
  {
    CircleAt(BucketRounds(cs), 1, i);
  }

  /** prepareScheduleData: one entry per circle, each with its numbered rounds. */
  function PrepareScheduleData(schedule: seq<Match>): (out: seq<CircleGroup>)
    ensures |out| <= |schedule|
    ensures |out| == 0 <==> |schedule| == 0
  {
    PrepareCircles(BucketRounds(GroupBy(schedule, CircleKey)), 1)
  }

  /** All round groups, circle after circle. */
  function AllRounds(out: seq<CircleGroup>): seq<RoundGroup>
    decreases |out|
  {
    if |out| == 0 then [] else out[0].rounds + AllRounds(out[1..])
  }

  /** All matches of the round groups, group after group. */
  function AllMatches(rs: seq<RoundGroup>): seq<Match>
    decreases |rs|
  {
    if |rs| == 0 then [] else rs[0].matches + AllMatches(rs[1..])
  }

  /** The matches of xs played in round r of circle c, in schedule order. */
  function InRound(xs: seq<Match>, c: int, r: int): (ys: seq<Match>)
    ensures |ys| <= |xs|
    decreases |xs|
  {
    if |xs| == 0 then []
    else (if xs[0].circle == c && xs[0].round == r then [xs[0]] else []) + InRound(xs[1..], c, r)
  }

  /** Matches are listed by circle, then by round. */
  predicate LexSorted(xs: seq<Match>)
  {
    forall p, q :: 0 <= p <= q < |xs| ==> LexLe(xs[p].circle, xs[p].round, xs[q].circle, xs[q].round)
  }

  // ---------------------------------------------------------------------------
  // Round numbering

  /** The counter runs on without gaps: the j-th round group overall gets next + j. */
  lemma {:induction false} CirclesNumbered(bs: seq<Circle>, next: int)
    ensures forall j :: 0 <= j < |AllRounds(PrepareCircles(bs, next))| ==>
      AllRounds(PrepareCircles(bs, next))[j].roundNumber == next + j
    decreases |bs|
  {
    if |bs| > 0 {
      var out := PrepareCircles(bs, next);
      var first := PrepareCircle(bs[0], next);
      CirclesNumbered(bs[1..], next + |first.rounds|);
      assert out == [first] + PrepareCircles(bs[1..], next + |first.rounds|);
      assert out[1..] == PrepareCircles(bs[1..], next + |first.rounds|);
      var a: seq<RoundGroup> := first.rounds;
      var b: seq<RoundGroup> := AllRounds(out[1..]);
      assert AllRounds(out) == a + b;
      forall j | 0 <= j < |a + b|
        ensures (a + b)[j].roundNumber == next + j
      {
        if j < |a| {
          NumberedAt(bs[0].rounds, next, j);
          assert (a + b)[j] == a[j];
        } else {
          assert (a + b)[j] == b[j - |a|];
        }
      }
    }
  }

  /** roundNumber starts at 1 and rises by one from each round group to the
      next, across both circles (lines 92 and 140). */
  lemma RoundNumbersConsecutive(schedule: seq<Match>)
    ensures forall j :: 0 <= j < |AllRounds(PrepareScheduleData(schedule))| ==>
      AllRounds(PrepareScheduleData(schedule))[j].roundNumber == j + 1
  {
    CirclesNumbered(BucketRounds(GroupBy(schedule, CircleKey)), 1);
  }

  // ---------------------------------------------------------------------------
  // Contents of the round groups

  /** One entry per circle that occurs in the schedule, no circle twice,
      and no circle that does not occur. */
  lemma PreparedCircles(schedule: seq<Match>)
    ensures var out := PrepareScheduleData(schedule);
      forall a, b :: 0 <= a < b < |out| ==> out[a].circle != out[b].circle
    ensures var out := PrepareScheduleData(schedule);
      forall m :: m in schedule ==> exists i :: 0 <= i < |out| && out[i].circle == m.circle
    ensures var out := PrepareScheduleData(schedule);
      forall i :: 0 <= i < |out| ==> exists m :: m in schedule && m.circle == out[i].circle
  {
    var cs := GroupBy(schedule, CircleKey);
    var out := PrepareScheduleData(schedule);
    GroupByBuckets(schedule, CircleKey);
    forall i | 0 <= i < |cs|
      ensures out[i].circle == cs[i].key
      ensures cs[i].items[0] in schedule && cs[i].items[0].circle == out[i].circle
    {
      CircleAt(BucketRounds(cs), 1, i);
      SelectMember(schedule, CircleKey, cs[i].key, cs[i].items[0]);
    }
    forall m | m in schedule
      ensures exists i :: 0 <= i < |out| && out[i].circle == m.circle
    {
      assert HasKey(cs, CircleKey(m));
      var i :| 0 <= i < |cs| && cs[i].key == m.circle;
      assert out[i].circle == m.circle;
    }
  }

  /** Selecting a circle, then a round, selects the matches of that round of that circle. */
  lemma {:induction false} SelectTwice(xs: seq<Match>, c: int, r: int)
    ensures Select(Select(xs, CircleKey, c), RoundKey, r) == InRound(xs, c, r)
    decreases |xs|
  {
    if |xs| > 0 {
      SelectTwice(xs[1..], c, r);
      var head := if xs[0].circle == c then [xs[0]] else [];
      assert Select(xs, CircleKey, c) == head + Select(xs[1..], CircleKey, c);
      SelectConcat(head, Select(xs[1..], CircleKey, c), RoundKey, r);
      if xs[0].circle == c {
        assert Select(head, RoundKey, r) == (if xs[0].round == r then [xs[0]] else []) + Select([], RoundKey, r);
      }
    }
  }

  /** Every round group holds, in schedule order, exactly the matches of
      its circle and of the round of its first match, and is never empty. */
  lemma RoundGroupsExact(schedule: seq<Match>, i: nat, j: nat)
    requires i < |PrepareScheduleData(schedule)| && j < |PrepareScheduleData(schedule)[i].rounds|
    ensures var g := PrepareScheduleData(schedule)[i].rounds[j];
      && |g.matches| > 0
      && g.matches == InRound(schedule, PrepareScheduleData(schedule)[i].circle, g.matches[0].round)
  {
    var cs := GroupBy(schedule, CircleKey);
    var c := cs[i].key;
    var rs := GroupBy(cs[i].items, RoundKey);
    var bs := BucketRounds(cs);
    CircleAt(bs, 1, i);
    GroupByBuckets(schedule, CircleKey);
    GroupByBuckets(cs[i].items, RoundKey);
    var g := PrepareScheduleData(schedule)[i].rounds[j];
    NumberedAt(rs, Start(bs, 1, i), j);
    assert g.matches == rs[j].items;
    SelectMember(cs[i].items, RoundKey, rs[j].key, rs[j].items[0]);
    SelectTwice(schedule, c, rs[j].key);
  }

  /** A match lies in round group j of circle group i when it has that circle and round. */
  lemma MatchPlacement(schedule: seq<Match>, m: Match) returns (i: nat, j: nat)
    requires m in schedule
    ensures i < |PrepareScheduleData(schedule)| && j < |PrepareScheduleData(schedule)[i].rounds|
    ensures PrepareScheduleData(schedule)[i].circle == m.circle
    ensures m in PrepareScheduleData(schedule)[i].rounds[j].matches
  {
    var cs := GroupBy(schedule, CircleKey);
    GroupByBuckets(schedule, CircleKey);
    assert HasKey(cs, CircleKey(m));
    i :| 0 <= i < |cs| && cs[i].key == m.circle;
    var bs := BucketRounds(cs);
    CircleAt(bs, 1, i);
    SelectContains(schedule, CircleKey, m.circle, m);
    var rs := GroupBy(cs[i].items, RoundKey);
    GroupByBuckets(cs[i].items, RoundKey);
    assert HasKey(rs, RoundKey(m));
    j :| 0 <= j < |rs| && rs[j].key == m.round;
    NumberedAt(rs, Start(bs, 1, i), j);
    SelectContains(cs[i].items, RoundKey, m.round, m);
  }

  /** AllMatches distributes over concatenation. */
  lemma {:induction false} AllMatchesConcat(a: seq<RoundGroup>, b: seq<RoundGroup>)
    ensures AllMatches(a + b) == AllMatches(a) + AllMatches(b)
    decreases |a|
  {
    if |a| == 0 {
      assert a + b == b;
    } else {
      assert (a + b)[1..] == a[1..] + b;
      AllMatchesConcat(a[1..], b);
      ConcatAssoc(a[0].matches, AllMatches(a[1..]), AllMatches(b));
    }
  }

  /** Numbering keeps the buckets' matches as they are. */
  lemma {:induction false} NumberedMatches(gs: seq<Group<Match>>, next: int)
    ensures AllMatches(NumberRounds(gs, next)) == Flatten(gs)
    decreases |gs|
  {
    if |gs| > 0 {
      NumberedMatches(gs[1..], next + 1);
    }
  }

  /** The matches of the circles' round buckets, bucket after bucket, circle after circle. */
  function RoundItems(bs: seq<Circle>): seq<Match>
    decreases |bs|
  {
    if |bs| == 0 then [] else Flatten(bs[0].rounds) + RoundItems(bs[1..])
  }

  /** Numbering the circles keeps every round bucket's matches, in order. */
  lemma {:induction false} CirclesMatches(bs: seq<Circle>, next: int)
    ensures AllMatches(AllRounds(PrepareCircles(bs, next))) == RoundItems(bs)
    decreases |bs|
  {
    if |bs| > 0 {
      var out := PrepareCircles(bs, next);
      var first := PrepareCircle(bs[0], next);
      var tail := PrepareCircles(bs[1..], next + |bs[0].rounds|);
      CirclesMatches(bs[1..], next + |bs[0].rounds|);
      assert out == [first] + tail;
      assert out[1..] == tail;
      AllMatchesConcat(first.rounds, AllRounds(tail));
      NumberedMatches(bs[0].rounds, next);
    }
  }

  /** Circle by circle rearrangements of the buckets' items rearrange all of them. */
  lemma {:induction false} RegroupedMultiset(bs: seq<Circle>, cs: seq<Group<Match>>)
    requires |bs| == |cs|
    requires forall i :: 0 <= i < |cs| ==> multiset(Flatten(bs[i].rounds)) == multiset(cs[i].items)
    ensures multiset(RoundItems(bs)) == multiset(Flatten(cs))
    decreases |cs|
  {
    if |cs| > 0 {
      RegroupedMultiset(bs[1..], cs[1..]);
      MultisetJoin(Flatten(bs[0].rounds), RoundItems(bs[1..]), cs[0].items, Flatten(cs[1..]));
    }
  }

  /** Round buckets that give back each circle bucket's items give back all of them. */
  lemma {:induction false} RegroupedInOrder(bs: seq<Circle>, cs: seq<Group<Match>>)
    requires |bs| == |cs|
    requires forall i :: 0 <= i < |cs| ==> Flatten(bs[i].rounds) == cs[i].items
    ensures RoundItems(bs) == Flatten(cs)
    decreases |cs|
  {
    if |cs| > 0 {
      RegroupedInOrder(bs[1..], cs[1..]);
    }
  }

  /** Every match of the schedule lands in exactly one round group, as often
      as it occurs: the prepared data is a rearrangement of the schedule. */
  lemma PreparePermutes(schedule: seq<Match>)
    ensures multiset(AllMatches(AllRounds(PrepareScheduleData(schedule)))) == multiset(schedule)
  {
    var cs := GroupBy(schedule, CircleKey);
    var bs := BucketRounds(cs);
    CirclesMatches(bs, 1);
    forall i | 0 <= i < |cs|
      ensures multiset(Flatten(bs[i].rounds)) == multiset(cs[i].items)
    {
      GroupByPermutes(cs[i].items, RoundKey);
    }
    RegroupedMultiset(bs, cs);
    GroupByPermutes(schedule, CircleKey);
  }

  /** The matches of one circle of a schedule listed by circle and round are
      listed by round. */
  lemma {:induction false} CircleSortedByRound(xs: seq<Match>, c: int)
    requires LexSorted(xs)
    ensures KeySorted(Select(xs, CircleKey, c), RoundKey)
    decreases |xs|
  {
    if |xs| > 0 {
      assert LexSorted(xs[1..]) by {
        forall p, q | 0 <= p <= q < |xs[1..]|
          ensures LexLe(xs[1..][p].circle, xs[1..][p].round, xs[1..][q].circle, xs[1..][q].round)
        {
          assert xs[1..][p] == xs[p + 1] && xs[1..][q] == xs[q + 1];
        }
      }
      CircleSortedByRound(xs[1..], c);
      var tail := Select(xs[1..], CircleKey, c);
      if xs[0].circle == c {
        var ys := [xs[0]] + tail;
        assert Select(xs, CircleKey, c) == ys;
        forall a, b | 0 <= a < b < |ys|
          ensures RoundKey(ys[a]) <= RoundKey(ys[b])
        {
          if a == 0 {
            var y := ys[b];
            assert y == tail[b - 1];
            SelectMember(xs[1..], CircleKey, c, y);
            var q :| 0 <= q < |xs[1..]| && xs[1..][q] == y;
            assert xs[q + 1] == y;
            assert LexLe(xs[0].circle, xs[0].round, xs[q + 1].circle, xs[q + 1].round);
          } else {
            assert ys[a] == tail[a - 1] && ys[b] == tail[b - 1];
          }
        }
      } else {
        assert Select(xs, CircleKey, c) == tail;
      }
    }
  }

  /** A schedule listed by circle and round comes back unchanged when the
      round groups are read one after another. */
  lemma SortedRoundTrip(schedule: seq<Match>)
    requires LexSorted(schedule)
    ensures AllMatches(AllRounds(PrepareScheduleData(schedule))) == schedule
  {
    var cs := GroupBy(schedule, CircleKey);
    assert KeySorted(schedule, CircleKey) by {
      forall p, q | 0 <= p < q < |schedule|
        ensures CircleKey(schedule[p]) <= CircleKey(schedule[q])
      {
        assert LexLe(schedule[p].circle, schedule[p].round, schedule[q].circle, schedule[q].round);
      }
    }
    SortedFlatten(schedule, CircleKey);
    GroupByBuckets(schedule, CircleKey);
    var bs := BucketRounds(cs);
    forall i | 0 <= i < |cs|
      ensures Flatten(bs[i].rounds) == cs[i].items
    {
      CircleSortedByRound(schedule, cs[i].key);
      SortedFlatten(cs[i].items, RoundKey);
    }
    CirclesMatches(bs, 1);
    RegroupedInOrder(bs, cs);
  }
}
