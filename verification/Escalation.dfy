// How lockouts escalate from one crossing to the next, and when the strikes are
// forgotten before they can.
module Escalation {
  import opened Prelude
  import opened Streaks
  import opened LockDuration
  import opened TrackerModel
  import opened TrackerSpec
  import opened TrackerRuns
  import opened LoginHistory
  import opened GuessRate
  import opened Handler
  import Decimal

  // Nothing in more crosses for id or clears it.
  ghost predicate Quiet(c: Config, ops: seq<Op>, more: seq<Op>, id: string)
    decreases |more|
  {
    more == [] ||
    (&& Quiet(c, ops, Front(more), id)
     && !CrossingAt(c, ops + more, id)
     && EffectOf(c, Run(c, Front(ops + more)), Last(more)) != Cleared(id))
  }

  lemma {:induction false} QuietKeepsCrossings(c: Config, ops: seq<Op>, more: seq<Op>, id: string)
    requires Quiet(c, ops, more, id)
    ensures CrossingLog(c, ops + more, id) == CrossingLog(c, ops, id)
    ensures LastDeadline(c, ops + more, id) == LastDeadline(c, ops, id)
  {
    hide CrossingAt, EffectOf, StrikeNumber;
    if more == [] {
      assert ops + more == ops;
    } else {
      assert Front(ops + more) == ops + Front(more);
      QuietKeepsCrossings(c, ops, Front(more), id);
    }
  }

  // The next crossing, with no clear in between, comes after the deadline of the
  // one before. Within BackoffWindow of that crossing it is the next strike, with a
  // nominal duration at least as long; later it is the first strike again.
  lemma NextCrossingEscalates(c: Config, ops: seq<Op>, more: seq<Op>, id: string, next: int)
    requires ops != [] && CrossingAt(c, ops, id) && id != ""
    requires Quiet(c, ops, more, id) && Timely(ops + more, next)
    requires Crosses(c, Run(c, ops + more), id, next)
    ensures LastDeadline(c, ops, id).Some?
    ensures var t := End(Last(ops));
            var first := StrikeNumber(c, Front(ops), id, t);
            var d, deadline := LockoutOf(c, first), LastDeadline(c, ops, id).value * SECOND;
            && d - SECOND < deadline - t <= d
            && deadline <= next
            && StrikeNumber(c, ops + more, id, next) == (if next - t <= c.BackoffWindow() then first + 1 else 1)
            && d <= LockoutOf(c, first + 1)
  {
    hide Run, CrossingAt, LockoutOf, LastDeadline, LockedUntil;
    var t := End(Last(ops));
    var first := StrikeNumber(c, Front(ops), id, t);
    DeadlineIsRounded(c, ops, id);
    QuietKeepsCrossings(c, ops, more, id);
    LockIsLastCrossing(c, ops + more, id, next);
    CrossingExtendsLog(c, ops, id);
    OneMoreHit(CrossingLog(c, Front(ops), id), c.BackoffWindow(), t, t);
    LaterStreak(CrossingLog(c, Front(ops), id), c.BackoffWindow(), t, next);
    NominalIsMonotone(c, first);
  }

  lemma CrossingExtendsLog(c: Config, ops: seq<Op>, id: string)
    requires ops != [] && CrossingAt(c, ops, id)
    ensures CrossingLog(c, ops, id) == CrossingLog(c, Front(ops), id) + [Hit(End(Last(ops)))]
  {
  }

  lemma LaterStreak(log: seq<Fact>, gap: int, t: int, next: int)
    ensures Streak(log + [Hit(t)], gap, next) == if next - t <= gap then 1 + Streak(log, gap, t) else 0
  {
    FrontOfSnoc(log, Hit(t));
  }

  lemma NominalIsMonotone(c: Config, strikes: int)
    ensures LockoutOf(c, strikes) <= LockoutOf(c, strikes + 1)
  {
    LockoutIsMonotone(c.Lockout(), c.MaxLockout(), strikes, strikes + 1);
  }

  // The nominal durations, one crossing after another: the smaller of Lockout and
  // MaxLockout first, then twice the one before. A double that reaches MaxLockout,
  // or is one nanosecond short of it, becomes MaxLockout.
  lemma LockoutsDouble(c: Config, strikes: int)
    ensures strikes <= 1 ==>
              LockoutOf(c, strikes) == if c.Lockout() < c.MaxLockout() then c.Lockout() else c.MaxLockout()
    ensures strikes >= 1 ==>
              var double := 2 * LockoutOf(c, strikes);
              LockoutOf(c, strikes + 1) == if double < c.MaxLockout() - 1 then double else c.MaxLockout()
  {
    if strikes >= 1 {
      NextLockout(c.Lockout(), c.MaxLockout(), strikes);
    }
  }

  // By default: 15 and 30 minutes, 1, 2, 4, 8 and 16 hours, and 24 hours from then on.
  lemma DefaultLockouts(c: Config, strikes: int)
    requires c.lockout <= 0 && c.maxLockout <= 0 && strikes >= 1
    ensures var minutes := [15, 30, 60, 120, 240, 480, 960];
            LockoutOf(c, strikes) == if strikes <= 7 then minutes[strikes - 1] * MINUTE else 24 * HOUR
  {
    hide LockoutOf;
    if strikes > 1 {
      DefaultLockouts(c, strikes - 1);
    }
    LockoutsDouble(c, strikes - 1);
    LockoutsDouble(c, 1);
  }

  // After a lockout that outlives BackoffWindow by a second the strikes are gone:
  // the next crossing starts over.
  lemma LongLocksStartOver(c: Config, ops: seq<Op>, more: seq<Op>, id: string, next: int)
    requires ops != [] && CrossingAt(c, ops, id) && id != ""
    requires Quiet(c, ops, more, id) && Timely(ops + more, next)
    requires Crosses(c, Run(c, ops + more), id, next)
    requires LockoutOf(c, StrikeNumber(c, Front(ops), id, End(Last(ops)))) >= c.BackoffWindow() + SECOND
    ensures StrikeNumber(c, ops + more, id, next) == 1
  {
    hide Run, CrossingAt, LockoutOf, LastDeadline, Crosses, Quiet, StrikeNumber;
    NextCrossingEscalates(c, ops, more, id, next);
  }

  // When a lockout of the given length, started at t, ends.
  function EndOfLock(t: int, lockout: int): int {
    WholeSeconds(t + lockout) * SECOND
  }

  // A crossing at the end of the lock is inside BackoffWindow for every start
  // exactly if the lockout is no longer than BackoffWindow, and for some start
  // exactly if it is less than a second longer.
  lemma EndOfLockIsInBackoffIff(lockout: int, backoff: int)
    ensures (forall t :: EndOfLock(t, lockout) - t <= backoff) <==> lockout <= backoff
    ensures (exists t :: EndOfLock(t, lockout) - t <= backoff) <==> lockout < backoff + SECOND
  {
    assert EndOfLock(-lockout, lockout) - (-lockout) == lockout;
    RoundingAtWorstInstant(lockout);
    var worst := WorstInstant(lockout);
    assert EndOfLock(worst, lockout) - worst == lockout - (SECOND - 1);
  }

  // ---- which configurations escalate at all ----

  // A crossing that is more than the first strike of its streak.
  ghost predicate Escalates(c: Config, ops: seq<Op>, more: seq<Op>, id: string, next: int) {
    && ops != [] && CrossingAt(c, ops, id) && id != ""
    && Quiet(c, ops, more, id) && Timely(ops + more, next)
    && Crosses(c, Run(c, ops + more), id, next)
    && StrikeNumber(c, ops + more, id, next) > 1
  }

  ghost predicate CanEscalate(c: Config) {
    exists ops, more, id, next :: Escalates(c, ops, more, id, next)
  }

  // Failures of an identity that is not locked reach the threshold in the end.
  lemma {:induction false} FailUntilCrossing(c: Config, ops: seq<Op>, more: seq<Op>, at: int) returns (enough: seq<Op>)
    requires Quiet(c, ops, more, "user") && Timely(ops + more, at)
    requires LockedUntil(Run(c, ops + more), "user", at) == None
    ensures Quiet(c, ops, enough, "user") && Timely(ops + enough, at)
    ensures Crosses(c, Run(c, ops + enough), "user", at)
    decreases c.Failures() - Count(Run(c, ops + more), FailureKey("user"), at)
  {
    var s, op := Run(c, ops + more), FailedLogin(at);
    if Crosses(c, s, "user", at) {
      enough := more;
    } else {
      hide Run, Count, LockedUntil, Step, Quiet, CrossingAt;
      FailsQuietly(c, ops, more, at);
      enough := FailUntilCrossing(c, ops, more + [op], at);
    }
  }

  lemma FailsQuietly(c: Config, ops: seq<Op>, more: seq<Op>, at: int)
    requires Quiet(c, ops, more, "user") && Timely(ops + more, at)
    requires LockedUntil(Run(c, ops + more), "user", at) == None
    requires !Crosses(c, Run(c, ops + more), "user", at)
    ensures var longer := more + [FailedLogin(at)];
            && Quiet(c, ops, longer, "user") && Timely(ops + longer, at)
            && LockedUntil(Run(c, ops + longer), "user", at) == None
            && Count(Run(c, ops + longer), FailureKey("user"), at) ==
               Count(Run(c, ops + more), FailureKey("user"), at) + 1
            && Count(Run(c, ops + more), FailureKey("user"), at) + 1 < c.Failures()
  {
    hide Crosses, CrossingAt, FailedLogin, Run, EffectOf, LockedUntil, Count, Step;
    var op := FailedLogin(at);
    FrontOfSnoc(more, op);
    FrontOfSnoc(ops + more, op);
    FailedLoginEnds(at);
    assert ops + (more + [op]) == ops + more + [op];
    FailureIsNoClear(c, ops + more, at);
    FailureIsCounted(c, ops + more, at);
  }

  lemma FailedLoginEnds(at: int)
    ensures FailedLogin(at).at == End(FailedLogin(at)) == at
  {
  }

  lemma FailureIsNoClear(c: Config, ops: seq<Op>, at: int)
    requires LockedUntil(Run(c, ops), "user", at) == None && !Crosses(c, Run(c, ops), "user", at)
    ensures EffectOf(c, Run(c, ops), FailedLogin(at)) == Failed("user", "", at)
    ensures !CrossingAt(c, ops + [FailedLogin(at)], "user")
    ensures Count(Run(c, ops), FailureKey("user"), at) + 1 < c.Failures()
  {
    hide Run, Step, EffectOf, LockedUntil, Count;
    OneMoreGuess(c, ops, at, at);
    FrontOfSnoc(ops, FailedLogin(at));
  }

  lemma FailureIsCounted(c: Config, ops: seq<Op>, at: int)
    requires LockedUntil(Run(c, ops), "user", at) == None && !Crosses(c, Run(c, ops), "user", at)
    ensures LockedUntil(Run(c, ops + [FailedLogin(at)]), "user", at) == None
    ensures Count(Run(c, ops + [FailedLogin(at)]), FailureKey("user"), at) ==
            Count(Run(c, ops), FailureKey("user"), at) + 1
  {
    hide Run, Step, EffectOf, LockedUntil, LockoutOf, Untouched, FailedLogin, Recorded, Answered, Crosses;
    var s, op := Run(c, ops), FailedLogin(at);
    RunIsWellTyped(c, ops);
    OneMoreGuess(c, ops, at, at);
    FailureStep(c, s, op, "user", "", at);
    FailureCounted(c, s, Step(c, s, op), op, at);
  }

  lemma FailureCounted(c: Config, s: State, s': State, op: Op, at: int)
    requires FailureKey("user") in s' && !op.SweepOp?
    requires s'[FailureKey("user")].value == Text(Decimal.Itoa(Count(s, FailureKey("user"), at) + 1))
    requires s'[FailureKey("user")].expires >= at
    requires Untouched(s, s', op, LockKey("user"))
    ensures Count(s', FailureKey("user"), at) == Count(s, FailureKey("user"), at) + 1
    ensures LockedUntil(s', "user", at) == LockedUntil(s, "user", at)
  {
    hide Decimal.Itoa, Decimal.Atoi, Untouched;
    Decimal.ParseOfItoa(Count(s, FailureKey("user"), at) + 1);
    SameLock(s, s', op, at);
  }

  lemma SameLock(s: State, s': State, op: Op, at: int)
    requires !op.SweepOp? && Untouched(s, s', op, LockKey("user"))
    ensures LockedUntil(s', "user", at) == LockedUntil(s, "user", at)
  {
    hide Decimal.Itoa, Decimal.Atoi;
  }

  // Some crossing can escalate exactly if the shortest lockout is less than a
  // second longer than BackoffWindow.
  lemma CanEscalateIff(c: Config)
    ensures CanEscalate(c) <==> ShortestLockout(c) < c.BackoffWindow() + SECOND
  {
    if ShortestLockout(c) < c.BackoffWindow() + SECOND {
      ShortLocksEscalate(c);
    } else if CanEscalate(c) {
      var ops, more, id, next :| Escalates(c, ops, more, id, next);
      LockoutIsLong(c, StrikeNumber(c, Front(ops), id, End(Last(ops))));
      LongLocksStartOver(c, ops, more, id, next);
    }
  }

  lemma BurstEndsInCrossing(c: Config, t: int)
    ensures var ops := Burst(c.Failures(), t);
            ops != [] && CrossingAt(c, ops, "user") && Timely(ops, t) && End(Last(ops)) == t
  {
    hide Run, AfterBurst, Guesses, NoSuccess, LockedUntil, Step, EffectOf, Crosses;
    var n := c.Failures();
    var front := Burst(n - 1, t);
    FrontOfSnoc(front, FailedLogin(t));
    BurstGuesses(c, n - 1, t);
    BurstIsTimely(n, t);
    BurstIsUnlocked(c, Run(c, front), n - 1, t);
    OneMoreGuess(c, front, t, t);
    BurstIsDue(c, Run(c, front), n, t);
  }

  lemma BurstIsDue(c: Config, s: State, n: nat, t: int)
    requires n == c.Failures() && AfterBurst(c, s, n - 1, t)
    ensures Crosses(c, s, "user", t)
  {
    BurstIsUnlocked(c, s, n - 1, t);
  }

  lemma ShortLocksEscalate(c: Config)
    requires ShortestLockout(c) < c.BackoffWindow() + SECOND
    ensures CanEscalate(c)
  {
    hide Run, CrossingAt, LockedUntil, AfterBurst, Guesses, NoSuccess, WorstInstant, ShortestLockout, Crosses,
         LockoutOf, Burst, StrikeNumber;
    var t := WorstInstant(ShortestLockout(c));
    RoundingAtWorstInstant(ShortestLockout(c));
    var until := WholeSeconds(t + ShortestLockout(c)) * SECOND;
    var again := if until > t then until else t;
    var ops := Burst(c.Failures(), t);
    BurstEndsInCrossing(c, t);
    BurstGuesses(c, c.Failures(), t);
    BurstLockRunsOut(c, Run(c, ops), t, again);
    assert ops + [] == ops;
    var more := FailUntilCrossing(c, ops, [], again);
    NextCrossingEscalates(c, ops, more, "user", again);
    StrikesArePositive(c, Front(ops), "user", t);
    assert Escalates(c, ops, more, "user", again);
  }

  lemma StrikesArePositive(c: Config, ops: seq<Op>, id: string, at: int)
    ensures StrikeNumber(c, ops, id, at) >= 1
  {
  }
}
