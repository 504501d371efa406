// The lockout as a function of history: what the counters, the strikes and the
// lock of an identity say after any run of Tracker operations.
module LoginHistory {
  import opened Prelude
  import opened Decimal
  import opened TtlMap
  import opened Streaks
  import opened LockDuration
  import opened TrackerModel
  import opened TrackerSpec
  import opened TrackerRuns

  // ---- histories ----

  // The failures of an identity, and what reset them.
  ghost function FailureLog(c: Config, ops: seq<Op>, id: string): seq<Fact> {
    if ops == [] then []
    else
      var log := FailureLog(c, Front(ops), id);
      match EffectOf(c, Run(c, Front(ops)), Last(ops))
      case Failed(i, _, t) => if i == id then log + [Hit(t)] else log
      case Cleared(i) => if i == id then log + [Reset] else log
      case Nothing => log
  }

  // The last operation is a failure of id that crosses the threshold.
  ghost predicate CrossingAt(c: Config, ops: seq<Op>, id: string)
    requires ops != []
  {
    var s := Run(c, Front(ops));
    match EffectOf(c, s, Last(ops))
    case Failed(i, _, t) => i == id && Crosses(c, s, id, t)
    case _ => false
  }

  // The threshold crossings of an identity, and what reset its strikes.
  ghost function CrossingLog(c: Config, ops: seq<Op>, id: string): seq<Fact> {
    if ops == [] then []
    else
      var log := CrossingLog(c, Front(ops), id);
      if CrossingAt(c, ops, id) then log + [Hit(End(Last(ops)))]
      else if EffectOf(c, Run(c, Front(ops)), Last(ops)) == Cleared(id) then log + [Reset]
      else log
  }

  // Which crossing of its streak a crossing at the end of ops is.
  ghost function StrikeNumber(c: Config, ops: seq<Op>, id: string, at: int): int {
    Streak(CrossingLog(c, ops, id), c.BackoffWindow(), at) + 1
  }

  // The deadline the latest crossing set, in whole seconds.
  ghost function LastDeadline(c: Config, ops: seq<Op>, id: string): Option<int> {
    if ops == [] then None
    else if CrossingAt(c, ops, id) then
      var t := End(Last(ops));
      Some(WholeSeconds(t + LockoutOf(c, StrikeNumber(c, Front(ops), id, t))))
    else LastDeadline(c, Front(ops), id)
  }

  // ---- refreshed counters are streaks ----

  // The counter under key records the log: its text is the streak at the latest
  // hit, and it dies one gap later.
  ghost predicate Tracks(s: State, key: Key, log: seq<Fact>, gap: int, now: int) {
    if key in s then
      && log != [] && Last(log).Hit?
      && s[key] == Entry(Text(Itoa(Streak(log, gap, Last(log).at))), Last(log).at + gap)
    else
      log == [] || Last(log).Reset? || now > Last(log).at + gap
  }

  lemma CountIsStreak(s: State, key: Key, log: seq<Fact>, gap: int, now: int)
    requires Tracks(s, key, log, gap, now) && gap > 0
    ensures Count(s, key, now) == Streak(log, gap, now)
  {
    if key in s {
      ParseOfItoa(Streak(log, gap, Last(log).at));
    }
  }

  lemma HitIsTracked(s: State, s': State, key: Key, log: seq<Fact>, gap: int, t: int, now: int)
    requires Tracks(s, key, log, gap, t) && gap > 0
    requires key in s' && s'[key] == Entry(Text(Itoa(Count(s, key, t) + 1)), t + gap)
    ensures Tracks(s', key, log + [Hit(t)], gap, now)
  {
    CountIsStreak(s, key, log, gap, t);
    FrontOfSnoc(log, Hit(t));
  }

  lemma UntouchedIsTracked(s: State, s': State, op: Op, key: Key, log: seq<Fact>, gap: int, now: int)
    requires Tracks(s, key, log, gap, op.at) && Untouched(s, s', op, key) && op.at <= now
    ensures Tracks(s', key, log, gap, now)
  {
  }

  lemma {:induction false} FailuresTracked(c: Config, ops: seq<Op>, id: string, now: int)
    requires Timely(ops, now) && id != ""
    ensures Tracks(Run(c, ops), FailureKey(id), FailureLog(c, ops, id), c.FailureWindow(), now)
  {
    hide Step, EffectOf, Crosses, Count, LockoutOf;
    if ops != [] {
      var s, op, key := Run(c, Front(ops)), Last(ops), FailureKey(id);
      var log := FailureLog(c, Front(ops), id);
      var e := EffectOf(c, s, op);
      RunIsWellTyped(c, Front(ops));
      EffectTime(c, s, op);
      if e.Failed? && e.id == id {
        FailuresTracked(c, Front(ops), id, e.at);
        FailureStep(c, s, op, id, e.ip, e.at);
        HitIsTracked(s, Step(c, s, op), key, log, c.FailureWindow(), e.at, now);
      } else if e == Cleared(id) {
        ClearStep(c, s, op, id);
      } else {
        FailuresTracked(c, Front(ops), id, op.at);
        LoginEntriesUntouched(c, s, op, id, key);
        UntouchedIsTracked(s, Step(c, s, op), op, key, log, c.FailureWindow(), now);
      }
    }
  }

  lemma {:induction false} CrossingsTracked(c: Config, ops: seq<Op>, id: string, now: int)
    requires Timely(ops, now) && id != ""
    ensures Tracks(Run(c, ops), StrikeKey(id), CrossingLog(c, ops, id), c.BackoffWindow(), now)
  {
    hide Step, EffectOf, Crosses, Count, LockoutOf;
    if ops != [] {
      var s, op, key := Run(c, Front(ops)), Last(ops), StrikeKey(id);
      var log := CrossingLog(c, Front(ops), id);
      var e := EffectOf(c, s, op);
      RunIsWellTyped(c, Front(ops));
      EffectTime(c, s, op);
      if e.Failed? && e.id == id {
        CrossingsTracked(c, Front(ops), id, e.at);
        FailureStep(c, s, op, id, e.ip, e.at);
        if Crosses(c, s, id, e.at) {
          HitIsTracked(s, Step(c, s, op), key, log, c.BackoffWindow(), e.at, now);
        }
      } else if e == Cleared(id) {
        ClearStep(c, s, op, id);
      } else {
        CrossingsTracked(c, Front(ops), id, op.at);
        LoginEntriesUntouched(c, s, op, id, key);
        UntouchedIsTracked(s, Step(c, s, op), op, key, log, c.BackoffWindow(), now);
      }
    }
  }

  // The stored failure count is the number of failures since the last clear in
  // the current chain of gaps no longer than FailureWindow.
  lemma FailureCountIsStreak(c: Config, ops: seq<Op>, id: string, now: int)
    requires Timely(ops, now) && id != ""
    ensures Count(Run(c, ops), FailureKey(id), now) == Streak(FailureLog(c, ops, id), c.FailureWindow(), now)
  {
    FailuresTracked(c, ops, id, now);
    CountIsStreak(Run(c, ops), FailureKey(id), FailureLog(c, ops, id), c.FailureWindow(), now);
  }

  // The strikes are the crossings since the last clear in the current chain of
  // gaps no longer than BackoffWindow.
  lemma StrikesAreCrossings(c: Config, ops: seq<Op>, id: string, now: int)
    requires Timely(ops, now) && id != ""
    ensures Count(Run(c, ops), StrikeKey(id), now) == Streak(CrossingLog(c, ops, id), c.BackoffWindow(), now)
  {
    CrossingsTracked(c, ops, id, now);
    CountIsStreak(Run(c, ops), StrikeKey(id), CrossingLog(c, ops, id), c.BackoffWindow(), now);
  }

  // ---- the lock ----

  ghost predicate LockTracks(s: State, id: string, deadline: Option<int>, now: int) {
    if LockKey(id) in s then
      && deadline.Some? && s[LockKey(id)].value == Deadline(deadline.value)
      && deadline.value * SECOND <= s[LockKey(id)].expires
    else
      deadline.None? || now >= deadline.value * SECOND
  }

  lemma {:induction false} LockTracked(c: Config, ops: seq<Op>, id: string, now: int)
    requires Timely(ops, now) && id != ""
    ensures LockTracks(Run(c, ops), id, LastDeadline(c, ops, id), now)
  {
    hide Step, EffectOf, Crosses, LockoutOf, Count, LockedUntil, CrossingLog, Streak;
    if ops != [] {
      var s, op := Run(c, Front(ops)), Last(ops);
      var e := EffectOf(c, s, op);
      RunIsWellTyped(c, Front(ops));
      EffectTime(c, s, op);
      if e.Failed? && e.id == id {
        LockTracked(c, Front(ops), id, e.at);
        StrikesAreCrossings(c, Front(ops), id, e.at);
        FailureStep(c, s, op, id, e.ip, e.at);
      } else {
        LockTracked(c, Front(ops), id, op.at);
        LoginEntriesUntouched(c, s, op, id, LockKey(id));
      }
    }
  }

  // An identity is locked exactly until the deadline its latest crossing set. No
  // other operation starts, moves or ends a lockout, and the entry outlives it.
  lemma LockIsLastCrossing(c: Config, ops: seq<Op>, id: string, now: int)
    requires Timely(ops, now) && id != ""
    ensures LockedUntil(Run(c, ops), id, now) ==
            match LastDeadline(c, ops, id)
            case Some(deadline) => if now < deadline * SECOND then Some(deadline) else None
            case None => None
  {
    LockTracked(c, ops, id, now);
  }

  lemma CrossingIsUnlocked(c: Config, ops: seq<Op>, id: string)
    requires ops != [] && CrossingAt(c, ops, id)
    ensures LockedUntil(Run(c, Front(ops)), id, End(Last(ops))) == None
  {
  }

  // Until its deadline a lockout survives every continuation of the run, and
  // nothing moves the deadline.
  lemma {:induction false} DeadlineNeverMoves(c: Config, ops: seq<Op>, more: seq<Op>, id: string, now: int)
    requires Timely(ops + more, now) && id != ""
    requires LastDeadline(c, ops, id).Some? && now < LastDeadline(c, ops, id).value * SECOND
    ensures LastDeadline(c, ops + more, id) == LastDeadline(c, ops, id)
    ensures LockedUntil(Run(c, ops + more), id, now) == LastDeadline(c, ops, id)
  {
    hide Step, EffectOf, LockedUntil, LockoutOf, CrossingAt, StrikeNumber;
    var all := ops + more;
    LockIsLastCrossing(c, all, id, now);
    if more == [] {
      assert all == ops;
    } else {
      var t := End(Last(all));
      assert Front(all) == ops + Front(more);
      DeadlineNeverMoves(c, ops, Front(more), id, t);
      if CrossingAt(c, all, id) {
        CrossingIsUnlocked(c, all, id);
      }
    }
  }

  // Nothing in more crosses the threshold for id.
  ghost predicate NoCrossing(c: Config, ops: seq<Op>, more: seq<Op>, id: string)
    decreases |more|
  {
    more == [] || (NoCrossing(c, ops, Front(more), id) && !CrossingAt(c, ops + more, id))
  }

  lemma {:induction false} NoCrossingKeepsDeadline(c: Config, ops: seq<Op>, more: seq<Op>, id: string)
    requires NoCrossing(c, ops, more, id)
    ensures LastDeadline(c, ops + more, id) == LastDeadline(c, ops, id)
  {
    hide CrossingAt, StrikeNumber, LockoutOf;
    if more == [] {
      assert ops + more == ops;
    } else {
      assert Front(ops + more) == ops + Front(more);
      NoCrossingKeepsDeadline(c, ops, Front(more), id);
    }
  }

  // A crossing that is the k-th of its streak locks its identity for the k-th
  // lockout, through whatever follows: up to a deadline that the rounding to whole
  // seconds puts less than a second early, and no longer unless it crosses again.
  lemma EpisodeLength(c: Config, ops: seq<Op>, more: seq<Op>, id: string, now: int)
    requires ops != [] && CrossingAt(c, ops, id) && id != ""
    requires Timely(ops + more, now)
    ensures LastDeadline(c, ops, id).Some?
    ensures var t, deadline := End(Last(ops)), LastDeadline(c, ops, id).value;
            var d := LockoutOf(c, StrikeNumber(c, Front(ops), id, t));
            && d - SECOND < deadline * SECOND - t <= d
            && (now < deadline * SECOND ==> LockedUntil(Run(c, ops + more), id, now) == Some(deadline))
            && (now >= deadline * SECOND && NoCrossing(c, ops, more, id) ==>
                  LockedUntil(Run(c, ops + more), id, now) == None)
  {
    DeadlineIsRounded(c, ops, id);
    hide Step, EffectOf, LockedUntil, LockoutOf, CrossingAt, StrikeNumber, Run, NoCrossing, LastDeadline;
    if now < LastDeadline(c, ops, id).value * SECOND {
      DeadlineNeverMoves(c, ops, more, id, now);
    } else if NoCrossing(c, ops, more, id) {
      NoCrossingKeepsDeadline(c, ops, more, id);
      LockIsLastCrossing(c, ops + more, id, now);
    }
  }

  lemma DeadlineIsRounded(c: Config, ops: seq<Op>, id: string)
    requires ops != [] && CrossingAt(c, ops, id)
    ensures LastDeadline(c, ops, id).Some?
    ensures var t := End(Last(ops));
            var d := LockoutOf(c, StrikeNumber(c, Front(ops), id, t));
            d - SECOND < LastDeadline(c, ops, id).value * SECOND - t <= d
  {
    hide LockoutOf, StrikeNumber, CrossingAt;
  }

  lemma FailureCrossesIff(c: Config, ops: seq<Op>, id: string, ip: string, t: int)
    requires ops != [] && Timely(ops, t) && id != ""
    requires EffectOf(c, Run(c, Front(ops)), Last(ops)) == Failed(id, ip, t)
    ensures End(Last(ops)) == t
    ensures CrossingAt(c, ops, id) <==>
            && Streak(FailureLog(c, Front(ops), id), c.FailureWindow(), t) + 1 >= c.Failures()
            && LockedUntil(Run(c, Front(ops)), id, t) == None
  {
    FailureCountIsStreak(c, Front(ops), id, t);
  }

  // A failure leaves the identity locked exactly if it was locked already, or the
  // failure completes a chain of Failures and the lockout reaches the next whole
  // second.
  lemma FailureLocksIff(c: Config, ops: seq<Op>, id: string, ip: string, t: int)
    requires ops != [] && Timely(ops, t) && id != ""
    requires EffectOf(c, Run(c, Front(ops)), Last(ops)) == Failed(id, ip, t)
    ensures var d := LockoutOf(c, StrikeNumber(c, Front(ops), id, t));
            LockedUntil(Run(c, ops), id, t).Some? <==>
            || LockedUntil(Run(c, Front(ops)), id, t).Some?
            || (Streak(FailureLog(c, Front(ops), id), c.FailureWindow(), t) + 1 >= c.Failures()
                && WholeSeconds(t + d) * SECOND > t)
  {
    hide Step, EffectOf, LockedUntil, LockoutOf, CrossingAt, StrikeNumber, Streak, FailureLog, Run;
    FailureCrossesIff(c, ops, id, ip, t);
    LockIsLastCrossing(c, Front(ops), id, t);
    LockIsLastCrossing(c, ops, id, t);
  }

  // With lockouts of a second or more the rounding cannot undo a lock.
  lemma FailureLocksAtThreshold(c: Config, ops: seq<Op>, id: string, ip: string, t: int)
    requires ops != [] && Timely(ops, t) && id != ""
    requires EffectOf(c, Run(c, Front(ops)), Last(ops)) == Failed(id, ip, t)
    requires c.Lockout() >= SECOND && c.MaxLockout() >= SECOND
    ensures LockedUntil(Run(c, ops), id, t).Some? <==>
            || LockedUntil(Run(c, Front(ops)), id, t).Some?
            || Streak(FailureLog(c, Front(ops), id), c.FailureWindow(), t) + 1 >= c.Failures()
  {
    FailureLocksIff(c, ops, id, ip, t);
    LockoutBounds(c.Lockout(), c.MaxLockout(), StrikeNumber(c, Front(ops), id, t));
  }

  lemma {:induction false} FailureLogIsOrdered(c: Config, ops: seq<Op>, id: string, now: int)
    requires Timely(ops, now)
    ensures Ordered(FailureLog(c, ops, id), now)
  {
    if ops != [] {
      hide EffectOf, Run;
      var op := Last(ops);
      EffectTime(c, Run(c, Front(ops)), op);
      FailureLogIsOrdered(c, Front(ops), id, op.at);
    }
  }

  // What the documentation promises, Failures failures inside FailureWindow, does
  // lock. The converse is not the code's: its chains may span any time.
  lemma FailuresInsideWindowLock(c: Config, ops: seq<Op>, id: string, ip: string, t: int)
    requires ops != [] && Timely(ops, t) && id != ""
    requires EffectOf(c, Run(c, Front(ops)), Last(ops)) == Failed(id, ip, t)
    requires c.Lockout() >= SECOND && c.MaxLockout() >= SECOND
    requires InWindow(FailureLog(c, Front(ops), id), c.FailureWindow(), t) + 1 >= c.Failures()
    ensures LockedUntil(Run(c, ops), id, t).Some?
  {
    hide EffectOf, LockedUntil, Run, FailureLog;
    FailureLocksAtThreshold(c, ops, id, ip, t);
    FailureLogIsOrdered(c, Front(ops), id, t);
    WindowIsInStreak(FailureLog(c, Front(ops), id), c.FailureWindow(), t, t);
  }

  // A failure that crosses does so on Failures failures inside FailureWindow
  // exactly if the first of the chain's latest Failures lies in the window.
  lemma CrossingIsDocumentedIff(c: Config, ops: seq<Op>, id: string, ip: string, t: int)
    requires ops != [] && Timely(ops, t) && id != "" && c.Failures() > 1
    requires EffectOf(c, Run(c, Front(ops)), Last(ops)) == Failed(id, ip, t)
    requires CrossingAt(c, ops, id)
    ensures var log, older := FailureLog(c, Front(ops), id), c.Failures() - 1;
            && older <= |log| && log[|log| - older].Hit?
            && (InWindow(log, c.FailureWindow(), t) + 1 >= c.Failures() <==>
                t - log[|log| - older].at <= c.FailureWindow())
  {
    hide EffectOf, LockedUntil, Run, FailureLog, CrossingAt;
    FailureCrossesIff(c, ops, id, ip, t);
    FailureLogIsOrdered(c, Front(ops), id, t);
    WindowHoldsIff(FailureLog(c, Front(ops), id), c.FailureWindow(), t, t, c.Failures() - 1);
  }

  // n failures of one identity, one gap apart.
  ghost function SlowRun(n: nat, gap: int, end: int): seq<Op> {
    if n == 0 then [] else SlowRun(n - 1, gap, end - gap) + [RecordFailureOp(end, "user", "")]
  }

  lemma {:induction false} SlowRunIsTimely(n: nat, gap: int, end: int)
    requires gap > 0
    ensures |SlowRun(n, gap, end)| == n && Timely(SlowRun(n, gap, end), end)
  {
    if n > 0 {
      SlowRunIsTimely(n - 1, gap, end - gap);
    }
  }

  lemma RecordingFails(c: Config, s: State, at: int)
    ensures EffectOf(c, s, RecordFailureOp(at, "user", "")) == Failed("user", "", at)
  {
  }

  lemma RecordedFailureIsLogged(c: Config, ops: seq<Op>, at: int)
    ensures FailureLog(c, ops + [RecordFailureOp(at, "user", "")], "user") == FailureLog(c, ops, "user") + [Hit(at)]
  {
    hide Run, EffectOf;
    FrontOfSnoc(ops, RecordFailureOp(at, "user", ""));
    RecordingFails(c, Run(c, ops), at);
  }

  lemma NoFailuresYet(c: Config, gap: int, end: int)
    ensures FailureLog(c, SlowRun(0, gap, end), "user") == Spaced(0, gap, end)
  {
  }

  lemma SlowRunGrows(n: nat, gap: int, end: int)
    requires n > 0
    ensures SlowRun(n, gap, end) == SlowRun(n - 1, gap, end - gap) + [RecordFailureOp(end, "user", "")]
    ensures Spaced(n, gap, end) == Spaced(n - 1, gap, end - gap) + [Hit(end)]
  {
  }

  lemma {:induction false} SlowRunFails(c: Config, n: nat, gap: int, end: int)
    ensures FailureLog(c, SlowRun(n, gap, end), "user") == Spaced(n, gap, end)
  {
    hide FailureLog, SlowRun, Spaced;
    if n == 0 {
      NoFailuresYet(c, gap, end);
    } else {
      SlowRunGrows(n, gap, end);
      SlowRunFails(c, n - 1, gap, end - gap);
      RecordedFailureIsLogged(c, SlowRun(n - 1, gap, end - gap), end);
    }
  }

  // Failures one FailureWindow apart lock all the same, although no FailureWindow
  // that ends at the crossing or later holds more than two of them.
  lemma SlowFailuresLock(c: Config, end: int, now: int)
    requires c.Lockout() >= SECOND && c.MaxLockout() >= SECOND && now >= end
    ensures var ops := SlowRun(c.Failures(), c.FailureWindow(), end);
            && Timely(ops, end)
            && LockedUntil(Run(c, ops), "user", end).Some?
            && InWindow(FailureLog(c, ops, "user"), c.FailureWindow(), now) <= 2
  {
    hide EffectOf, LockedUntil, Run, FailureLog, InWindow, Streak;
    var n, gap := c.Failures(), c.FailureWindow();
    var ops := SlowRun(n, gap, end);
    var op := RecordFailureOp(end, "user", "");
    SlowRunIsTimely(n, gap, end);
    SlowRunFails(c, n, gap, end);
    SlowHitsFormStreak(n, gap, end, now);
    FrontOfSnoc(SlowRun(n - 1, gap, end - gap), op);
    SlowRunFails(c, n - 1, gap, end - gap);
    SlowHitsFormStreak(n - 1, gap, end - gap, end - gap);
    RecordingFails(c, Run(c, Front(ops)), end);
    FailureLocksAtThreshold(c, ops, "user", "", end);
  }

  // With a shorter lockout it can: the first failure of this run reaches the
  // threshold and locks nobody out.
  lemma ShortLockoutIsLost(c: Config)
    requires c.failures == 1 && c.lockout == 1 && c.maxLockout == 1
    ensures var ops := [RecordFailureOp(0, "user", "")];
            Timely(ops, 0) && CrossingAt(c, ops, "user") && LockedUntil(Run(c, ops), "user", 0) == None
  {
    var ops := [RecordFailureOp(0, "user", "")];
    assert Front(ops) == [];
    LockoutBounds(1, 1, StrikeNumber(c, [], "user", 0));
    LockIsLastCrossing(c, ops, "user", 0);
  }

  // The failures of one identity leave the login entries of every other alone.
  lemma OthersAreUnaffected(c: Config, ops: seq<Op>, op: Op, id: string, other: string, now: int)
    requires other != id && id != "" && other != ""
    requires match EffectOf(c, Run(c, ops), op)
             case Failed(i, _, _) => i == id
             case Cleared(i) => i == id
             case Nothing => false
    ensures var s, s' := Run(c, ops), Run(c, ops + [op]);
            && Count(s', FailureKey(other), now) == Count(s, FailureKey(other), now)
            && Count(s', StrikeKey(other), now) == Count(s, StrikeKey(other), now)
            && LockedUntil(s', other, now) == LockedUntil(s, other, now)
  {
    EffectTime(c, Run(c, ops), op);
    hide Step, EffectOf;
    FrontOfSnoc(ops, op);
    RunIsWellTyped(c, ops);
    LoginEntriesUntouched(c, Run(c, ops), op, other, FailureKey(other));
    LoginEntriesUntouched(c, Run(c, ops), op, other, StrikeKey(other));
    LoginEntriesUntouched(c, Run(c, ops), op, other, LockKey(other));
  }
}
