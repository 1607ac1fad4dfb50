/**
 The records generateFootballSchedule and prepareScheduleData exchange
 (script.php:10-15 and 75-87), plus the index-level forms the model reasons
 about before slot indices are replaced by team titles.
 */
module Fixtures {

  /** A team of the input list; only its title reaches the schedule. */
  datatype Team = Team(title: string)

  /** One pairing as the loops of lines 29-43 compute it: the slot indices
      homeIndex and awayIndex before the tracker orients them, the 1-based
      round and the circle. */
  datatype Pairing = Pairing(homeIndex: nat, awayIndex: nat, round: nat, circle: nat)

  /** A fixture between two slots, after the tracker chose the home side. */
  datatype Fixture = Fixture(home: nat, away: nat, round: nat, circle: nat)

  /** A match as the schedule lists it (lines 46-60): the date is always
      the empty string when generated. */
  datatype Match = Match(date: string, home: string, away: string, round: int, circle: int)

  /** Slot s plays in fixture f. */
  predicate Plays(f: Fixture, s: nat)
  {
    f.home == s || f.away == s
  }

  /** f is pairing p, possibly with home and away exchanged. */
  predicate Realises(f: Fixture, p: Pairing)
  {
    && f.round == p.round
    && f.circle == p.circle
    && ((f.home == p.homeIndex && f.away == p.awayIndex) || (f.home == p.awayIndex && f.away == p.homeIndex))
  }

  /** Fixture f pairs the two slots s and t, in either orientation. */
  predicate Meets(f: Fixture, s: nat, t: nat)
  {
    (f.home == s && f.away == t) || (f.home == t && f.away == s)
  }

  /** (c1, r1) does not come after (c2, r2): circle first, then round. */
  predicate LexLe(c1: int, r1: int, c2: int, r2: int)
  {
    c1 < c2 || (c1 == c2 && r1 <= r2)
  }
}
