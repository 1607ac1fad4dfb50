# Football calendar: circle-method schedule and its display grouping

This project models the two computational functions of `script.php`. It also proves what they promise.

- `generateFootballSchedule` (lines 17-70) builds a two-circle round-robin by the circle method over the already shuffled team list. A per-slot home/away tracker decides each match's orientation.
- `prepareScheduleData` (lines 89-146) buckets that schedule by circle and then by round. It numbers the rounds with one counter that keeps running across circles.

## How the model is laid out

The Dafny modules follow the program's structure:

| module | file | what it holds |
|---|---|---|
| `Fixtures` | `fixtures.dfy` | `Team`, `Pairing`, `Fixture`, `Match` and small predicates on them |
| `Modular` | `modular.dfy` | congruences; `Blocks(d, k)`, the position of block `d` of size `k`, proved equal to `d * k` |
| `CircleMethod` | `circle_method.dfy` | the index formulas of lines 32-43 (`SlotPair`) and the round-robin facts about them |
| `Pairings` | `pairings.dfy` | the three nested loops of lines 29-31 as recursion (`SlotsFrom`, `RoundsFrom`, `AllPairings`), and where each pairing sits in the output |
| `Generator` | `generator.dfy` | the tracker of lines 24-27 and 63-64, the orientation of lines 45-60 (`Orient`, `Run`), the slot schedule `Generate(n)` and the team schedule `GenerateFootballSchedule` |
| `Grouping` | `grouping.dfy` | PHP's `$a[$k][] = $x` bucketing as an insertion-ordered `GroupBy` over `Group(key, items)` |
| `ScheduleData` | `prepare.dfy` | `PrepareScheduleData`: circle buckets, round buckets, the running `$roundNumber` |
| `ScheduleLayout` | `layout.dfy` | what `PrepareScheduleData` makes of a schedule that `GenerateFootballSchedule` produced |

### Modelling choices

- **Slots and the tracker.** The generator is modelled on slot indices `0 .. n - 1`. A match's teams are `teams[home]` and `teams[away]`.
- **Loops split from the tracker.** The tracker `$alternating` is a `seq<bool>`, with `true` for `'home'`. It never influences which slots a pairing uses. So the loops are modelled as a sequence of raw pairings, and `Run` threads the tracker over that sequence afterwards. Each pairing is oriented by the tracker entry of its `homeIndex` (line 45), and then both entries are toggled (lines 63-64).
- **Remainders.** The guard `2 * i < n` keeps both operands of `%` in lines 32-33 non-negative. There Dafny's Euclidean `%` and PHP's truncating `%` agree, so `SlotPair` uses `%` as written.
- **The inner loop bound.** `$i < $numTeams / 2` is a float comparison, modelled as `2 * i < n`. For an odd `n` it admits `i = (n - 1) / 2`, whose pairing puts a slot against itself (`CircleMethod.SlotPairSelf`). The model keeps that behaviour. The two toggles of such a pairing cancel out.
- **Fewer than two teams.** The code has no error path for `n < 2`. The round loop of line 30 does not run, so it returns an empty schedule and never reaches `%` (`Generator.ScheduleLength`).
- **Round numbers.** `$roundNumber` is set once (line 91) and never reset. Round groups are therefore numbered `1 .. n - 1` in circle 1 and `n .. 2n - 2` in circle 2, not from 1 within each circle. The model follows the code (`ScheduleData.RoundNumbersConsecutive`, `ScheduleLayout.GridLayout`).
- **Insertion order.** PHP arrays keep insertion order. `GroupBy` therefore lists buckets in order of first occurrence (`Grouping.GroupOrder`). `$preparedData` is keyed by circle number; it is modelled as a sequence of `CircleGroup(circle, rounds)` in that order.

## Model

| member | source | states |
|---|---|---|
| CircleMethod.SlotPair | script.php:32-43 | both slot indices of pairing i are below n, and the anchor slot n - 1 takes part iff i == 0 |
| CircleMethod.SelfPairing | script.php:32-33 | for i >= 1 the two remainders coincide iff 2i + 1 == n |
| CircleMethod.SlotPairSelf | script.php:31-37 | a pairing puts a slot against itself iff 2i + 1 == n, which happens only for an odd number of teams |
| CircleMethod.IdleSlot | script.php:31-43 | for an odd n, the last pairing of round r puts slot `(r + (n - 1) / 2) % (n - 1)` against itself |
| CircleMethod.IdleRound | script.php:30-43 | for an odd n, every slot other than the anchor n - 1 is the self-paired slot of some round of each circle |
| CircleMethod.IdleOncePerCircle | script.php:30-43 | for an odd n, two rounds of one circle with the same self-paired slot are the same round |
| CircleMethod.SecondCircleSwaps | script.php:39-43 | every pairing of circle 2 is the same-round, same-i pairing of circle 1 with home and away exchanged |
| CircleMethod.AnchorPairs | script.php:35-37 | pairing 0 of round r is the anchor slot n - 1 against slot r |
| CircleMethod.RoundPairsDisjoint | script.php:31-37 | for an even n, two different pairings of one round share no slot |
| CircleMethod.RoundCovers | script.php:31-37 | for an even n, every slot below n is in some pairing of every round |
| CircleMethod.SamePairSameRound | script.php:30-37 | for an even n, the same two slots paired in two rounds of circle 1 means the same round |
| CircleMethod.PairMeets | script.php:30-43 | for an even n, any two distinct slots are paired in some round of each circle |
| CircleMethod.PairMeetsOnce | script.php:30-43 | for an even n, two pairings of one circle over the same two slots have the same round and the same i |
| Pairings.SlotsPerRound | script.php:31 | the number k of pairings per round satisfies 2k >= n > 2(k - 1), so k is n / 2 for an even n and (n + 1) / 2 for an odd n |
| Pairings.SlotsFromAt | script.php:31 | element j of the inner loop started at i is pairing i + j, and 2(i + j) < n |
| Pairings.RoundsFromAt | script.php:30-31 | every element of the round loop started at `round` is pairing i of some round r in round .. n - 2, after the r - round earlier rounds |
| Pairings.RoundsFromIndex | script.php:30-31 | conversely, pairing i of round r sits after the r - round earlier rounds of that loop |
| Pairings.PairingAt | script.php:29-43 | every element of the loop output is pairing i of round r of circle 1 or 2, at position Pos(n, c, r, i) |
| Pairings.PairingIndex | script.php:29-43 | conversely, pairing i of round r of circle c is at position Pos(n, c, r, i) of the loop output |
| Pairings.AllPairingsInRange | script.php:29-43 | every pairing uses slots below n, carries circle 1 or 2 and a round in 1 .. n - 1 |
| Pairings.PosOrder | script.php:29-31 | positions grow with (circle, round) in lexicographic order, and no two (circle, round, i) share a position |
| Pairings.PosBlock | script.php:29-31 | round r of circle c occupies exactly the k consecutive positions from Pos(n, c, r, 0) |
| Generator.InitialTracker | script.php:24-27 | the tracker has one entry per team (its content is stated by `Generator.TrackerAtRoundStart`) |
| Generator.Toggle | script.php:63-64 | the entries of homeIndex and awayIndex are flipped when they differ, and left as they were when they are the same slot; every other entry is unchanged |
| Generator.Orient | script.php:45-60 | the fixture is the pairing or its reverse, with homeIndex at home iff the tracker says 'home' for it |
| Generator.Run | script.php:29-64 | one fixture per pairing, and the tracker keeps one entry per slot |
| Generator.Generate | script.php:29-64 | the slot schedule has one fixture per pairing of the three loops |
| Generator.RunAppend | script.php:29-65 | running the loop body over two stretches of pairings is running the second from the tracker that the first left |
| Generator.RunOrientation | script.php:45-64 | fixture j is pairing j oriented by the tracker as the first j pairings left it |
| Generator.OrientationRule | script.php:45-60 | fixture j of the schedule lists pairing j's homeIndex at home iff the tracker entry of homeIndex just before it is 'home'; otherwise the two are swapped |
| Generator.GenerateAt | script.php:29-60 | fixture j is pairing j or its reverse, between slots below n, in circle 1 or 2 and a round in 1 .. n - 1 |
| Generator.RunKeepsUnused | script.php:63-64 | a tracker entry no pairing uses keeps its value |
| Generator.RunFlipsUsed | script.php:63-64 | over disjoint pairings, the entry of a slot that one of them uses ends flipped |
| Generator.RoundIsMatching | script.php:31-37 | for an even n, the pairings of one round have no self-pairing and share no slot |
| Generator.RoundFlipsEveryEntry | script.php:31-64 | for an even n, a whole round flips every tracker entry exactly once |
| Generator.TrackerStep | script.php:31-64 | for an even n, the tracker after a whole round is the tracker before it with every entry flipped |
| Generator.TrackerAfterGroups | script.php:24-64 | for an even n, after g whole rounds the tracker says 'home' for slot s iff s + g is even |
| Generator.TrackerAtRoundStart | script.php:24-64 | for an even n, at the start of round r of circle c slot s is 'home' iff s + r, plus n - 1 in circle 2, is even: the alternation of lines 24-27 shifted by one each round |
| Generator.ScheduleLength | script.php:19-43 | no fixture for n < 2; 2(n - 1)k fixtures for n >= 2; n(n - 1) for an even n |
| Generator.FixtureAt | script.php:29-60 | fixture p is pairing i of round r of circle c, at Pos(n, c, r, i), one way round or the other |
| Generator.ScheduleSorted | script.php:29-30 | fixtures are listed in (circle, round) order |
| Generator.RoundBlock | script.php:29-31 | fixture p is in round r of circle c iff p lies in that round's block of k positions |
| Generator.EverySlotPlaysEachRound | script.php:29-37 | for an even n, every slot plays in every round of each circle |
| Generator.SlotPlaysOncePerRound | script.php:29-37 | for an even n, two fixtures of one round in which the same slot plays are the same fixture |
| Generator.NoSelfMatch | script.php:31-37 | for an even n, no fixture has the same slot at home and away |
| Generator.PairMeetsInEachCircle | script.php:29-60 | for an even n, any two distinct slots meet in each circle |
| Generator.PairMeetsOncePerCircle | script.php:29-60 | for an even n, two fixtures of one circle between the same two slots are the same fixture |
| Generator.GenerateInRange | script.php:45-60 | every fixture is between two slots below n |
| Generator.GenerateFootballSchedule | script.php:17-70 | the team schedule has one match per fixture of the slot schedule |
| Generator.ScheduleEntry | script.php:45-60 | match j has an empty date, the circle and round of pairing j, and the teams of its two slots, the homeIndex team at home iff the tracker says 'home' |
| Grouping.GroupBy | script.php:95-97 | there are no more buckets than items, and none exactly when there are no items |
| Grouping.AppendSpec | script.php:96 | appending to a bucket array: an item with an existing key goes to the end of that bucket and every other bucket is unchanged; an item with a new key opens a bucket at the end; keys stay distinct |
| Grouping.GroupByBuckets | script.php:95-97 | buckets have distinct, non-empty keys; each holds exactly the items with its key in input order; every item's key has a bucket |
| Grouping.GroupOrder | script.php:95-97 | buckets are ordered by the first occurrence of their key in the input |
| Grouping.GroupByPermutes | script.php:95-97 | the buckets together hold the input's items, as a multiset |
| Grouping.SortedFlatten | script.php:95-97 | for input sorted by key, concatenating the buckets gives the input back |
| Grouping.SortedKeyRange | script.php:95-97 | for sorted input whose keys are exactly lo .. hi, bucket j has key lo + j and all items with that key |
| ScheduleData.NumberRounds | script.php:115-141 | one round group per round bucket |
| ScheduleData.PrepareCircles | script.php:101-142 | one circle group per circle bucket |
| ScheduleData.PrepareScheduleData | script.php:89-146 | no more circle groups than matches, and none exactly when the schedule is empty |
| ScheduleData.NumberedAt | script.php:115-141 | round bucket j of a circle becomes round group number next + j, with its matches unchanged |
| ScheduleData.CircleAt | script.php:101-142 | circle i of the output is circle bucket i, numbered from the counter's value on entry to it |
| ScheduleData.CirclesNumbered | script.php:101-142 | round groups of all circles, in order, are numbered next, next + 1, ... without a gap |
| ScheduleData.RoundNumbersConsecutive | script.php:91-141 | the j-th round group of the whole output is number j + 1, across circles |
| ScheduleData.PreparedCircles | script.php:95-105 | output circles are distinct; every match's circle has an entry; every entry's circle comes from some match |
| ScheduleData.RoundGroupsExact | script.php:107-139 | every round group is non-empty and holds exactly the matches of its circle and round, in input order |
| ScheduleData.MatchPlacement | script.php:95-139 | every match lands in a round group of its own circle's entry |
| ScheduleData.CirclesMatches | script.php:101-142 | the matches of all round groups, in order, are the round buckets of each circle, circle after circle |
| ScheduleData.PreparePermutes | script.php:89-146 | the matches of all round groups are a permutation of the schedule |
| ScheduleData.CircleSortedByRound | script.php:95-111 | for a schedule in (circle, round) order, each circle's matches are in round order |
| ScheduleData.SortedRoundTrip | script.php:89-146 | for a schedule in (circle, round) order, concatenating the round groups gives the schedule back |
| ScheduleLayout.CircleBuckets | script.php:95-97 | a sorted schedule with matches in every (circle, round) of {1, 2} x {1 .. n - 1} has circle buckets 1 and 2, in order |
| ScheduleLayout.RoundKeys | script.php:107-111 | for such a schedule, each circle's round buckets are rounds 1 .. n - 1, in order |
| ScheduleLayout.SecondCircleStart | script.php:91-141 | for such a schedule, the counter enters circle 2 at n |
| ScheduleLayout.CircleLayout | script.php:101-142 | for such a schedule, circle group i is circle i + 1, with n - 1 round groups; group b is numbered CircleOffset + b + 1 and holds exactly round b + 1 |
| ScheduleLayout.GridLayout | script.php:89-146 | for such a schedule: two circles of n - 1 round groups each, numbered 1 .. n - 1 and n .. 2n - 2, each holding exactly its round's matches |
| ScheduleLayout.GeneratedGrid | script.php:29-60 | a generated schedule is in (circle, round) order and has matches in every (circle, round) of {1, 2} x {1 .. n - 1} |
| ScheduleLayout.TeamScheduleGrid | script.php:17-70 | for two or more teams, the team schedule is in (circle, round) order and its (circle, round) pairs are exactly {1, 2} x {1 .. n - 1} |
| ScheduleLayout.GeneratedRoundSize | script.php:29-31 | each round of a generated schedule has exactly k matches |
| ScheduleLayout.GeneratedPrepared | script.php:17-146 | for generated data: no circle for fewer than two teams; otherwise two circles of n - 1 round groups, numbered on from 1 across circles, each holding exactly the k matches of its round |

## Left out

- The shuffle of line 22. It is random, so the model starts from the already shuffled team list. Every property holds for every order of the teams.
- The dates of lines 93 and 113-133, and the `date` field of each round group (line 137). They depend on `strtotime` and `date`, that is on calendar and clock. One consequence is visible in the model: the counter enters circle 2 at n >= 2 (`ScheduleLayout.SecondCircleStart`). So the circle-2 branch `$roundNumber == 1` of line 128 never fires for generated data, and `$secondCircleStartDate` keeps its initial `null`.
- `displayScheduleHtml` (lines 162-196). It renders markup and is a view only.
- The JSON sample, its decoding and the commented-out loaders (lines 198-266). They are I/O.
- Malformed input to `prepareScheduleData`, such as matches without `circle` or `round`. PHP's dynamic typing handles these, but the model's `Match` always has both fields.
- Integer width. Counts and round numbers stay below 2n. PHP's 64-bit integers cannot overflow here, so they are modelled as unbounded.
- Round-robin properties for an odd number of teams. For odd n the last pairing of round r puts slot `(r + (n - 1) / 2) % (n - 1)` against itself, and the model keeps that (`CircleMethod.SlotPairSelf`, `CircleMethod.IdleSlot`). That slot moves on by one each round, so every slot but the anchor is idle once per circle (`CircleMethod.IdleRound`, `CircleMethod.IdleOncePerCircle`). The matching, meet-once and tracker-alternation properties are stated for an even n only.
- Generator.GenerateFootballSchedule: its own contract states only the length of the schedule. What each entry holds is stated by `Generator.ScheduleEntry`, and its order and (circle, round) pairs by `ScheduleLayout.TeamScheduleGrid`.
- Generator.InitialTracker: its own contract states only the length. Its content and how it evolves are stated by `Generator.TrackerAfterGroups` and `Generator.TrackerAtRoundStart`.
- Generator.Run: its own contract states only lengths. The fixtures it emits are stated by `Generator.RunOrientation` and `Generator.RunAppend`, and the tracker it leaves by `Generator.RunKeepsUnused` and `Generator.RunFlipsUsed`.
- Generator.Generate: its own contract states only the length. Its fixtures are stated by `Generator.GenerateAt`, `Generator.FixtureAt`, `Generator.OrientationRule` and the round-robin lemmas after them.
- Grouping.GroupBy: its own contract states only bucket counts. The buckets' keys, contents and order are stated by `Grouping.GroupByBuckets`, `Grouping.GroupOrder` and `Grouping.GroupByPermutes`.
- ScheduleData.NumberRounds: its own contract states only the length. The numbering and contents of its groups are stated by `ScheduleData.NumberedAt`.
- ScheduleData.PrepareCircles: its own contract states only the length. Its circles and their numbering are stated by `ScheduleData.CircleAt` and `ScheduleData.CirclesNumbered`.
- ScheduleData.PrepareScheduleData: its own contract states only counts. Its circles, round groups and numbering are stated by `ScheduleData.PreparedCircles`, `ScheduleData.RoundGroupsExact`, `ScheduleData.RoundNumbersConsecutive`, `ScheduleData.PreparePermutes` and `ScheduleLayout.GridLayout`.
