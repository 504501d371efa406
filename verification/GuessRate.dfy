// How fast a password can be guessed through GuardLogin, over whole runs.
module GuessRate {
  import opened Prelude
  import opened Decimal
  import opened LockDuration
  import opened TrackerModel
  import opened TrackerSpec
  import opened TrackerRuns
  import opened Handler

  // The shortest lockout a crossing can bring.
  ghost function ShortestLockout(c: Config): int {
    if c.Lockout() < c.MaxLockout() then c.Lockout() else c.MaxLockout()
  }

  // The operation ran the handler for id, which answered 401 inside the
  // FailureWindow that starts at from.
  ghost predicate IsGuess(c: Config, s: State, op: Op, id: string, from: int) {
    && op.GuardLoginOp? && op.id == id && Answered(op.handler) == 401
    && CheckLogin(c, s, id, op.ip, op.at) == Pass
    && from <= op.answered <= from + c.FailureWindow()
  }

  ghost function Guesses(c: Config, ops: seq<Op>, id: string, from: int): nat {
    if ops == [] then 0
    else Guesses(c, Front(ops), id, from) + if IsGuess(c, Run(c, Front(ops)), Last(ops), id, from) then 1 else 0
  }

  // The operation clears the failures of id, or its handler answers 2xx for it.
  ghost predicate IsSuccess(c: Config, s: State, op: Op, id: string) {
    match op
    case ClearFailuresOp(_, i) => i == id
    case GuardLoginOp(at, i, ip, handler, _) =>
      i == id && CheckLogin(c, s, id, ip, at) == Pass && Answered(handler) / 100 == 2
    case _ => false
  }

  // There is no success for id inside that FailureWindow.
  ghost predicate NoSuccess(c: Config, ops: seq<Op>, id: string, from: int) {
    ops == [] ||
    (&& NoSuccess(c, Front(ops), id, from)
     && (IsSuccess(c, Run(c, Front(ops)), Last(ops), id) ==>
           !(from <= End(Last(ops)) <= from + c.FailureWindow())))
  }

  // The handler is honest about its status code: what it answers is what it first
  // writes.
  ghost predicate HonestHandlers(ops: seq<Op>, id: string) {
    forall i :: 0 <= i < |ops| && ops[i].GuardLoginOp? && ops[i].id == id ==>
      ValidCodes(ops[i].handler) && Plain(ops[i].handler)
  }

  ghost predicate Admissible(c: Config, ops: seq<Op>, id: string, from: int, now: int) {
    id != "" && Timely(ops, now) && HonestHandlers(ops, id) && NoSuccess(c, ops, id, from)
  }

  // After m guesses the counter stands at m or more until the window is over, and
  // the Failures-th guess has locked the identity beyond it.
  ghost predicate Spent(c: Config, s: State, id: string, from: int, m: nat) {
    var end := from + c.FailureWindow();
    && (m > 0 ==>
          && FailureKey(id) in s && s[FailureKey(id)].value.Text?
          && Atoi(s[FailureKey(id)].value.text) >= m && s[FailureKey(id)].expires >= end)
    && (m >= c.Failures() ==>
          && LockKey(id) in s && s[LockKey(id)].value.Deadline?
          && end < s[LockKey(id)].value.seconds * SECOND <= s[LockKey(id)].expires)
  }

  // A failure of id inside the window, on a counter that has spent m.
  lemma FailureSpends(c: Config, s: State, op: Op, id: string, ip: string, t: int, from: int, m: nat)
    requires WellTyped(s) && id != "" && EffectOf(c, s, op) == Failed(id, ip, t)
    requires ShortestLockout(c) >= c.FailureWindow() + SECOND
    requires from <= t <= from + c.FailureWindow()
    requires Spent(c, s, id, from, m)
    ensures Spent(c, Step(c, s, op), id, from, m)
    ensures LockedUntil(s, id, t) == None ==> m < c.Failures() && Spent(c, Step(c, s, op), id, from, m + 1)
  {
    hide Step, EffectOf, LockoutOf, Itoa, Atoi, ShortestLockout;
    FailureStep(c, s, op, id, ip, t);
    ParseOfItoa(Count(s, FailureKey(id), t) + 1);
    LockoutIsLong(c, Count(s, StrikeKey(id), t) + 1);
  }

  lemma LockoutIsLong(c: Config, strikes: int)
    ensures LockoutOf(c, strikes) >= ShortestLockout(c)
  {
    LockoutBounds(c.Lockout(), c.MaxLockout(), strikes);
  }

  // A guess passed the lock check, and no lock can appear while its handler runs.
  lemma GuessFails(c: Config, s: State, op: Op, id: string, from: int)
    requires IsGuess(c, s, op, id, from) && id != "" && op.at <= End(op)
    requires ValidCodes(op.handler) && Plain(op.handler)
    ensures EffectOf(c, s, op) == Failed(id, op.ip, End(op)) && LockedUntil(s, id, End(op)) == None
    ensures from <= End(op) <= from + c.FailureWindow()
  {
    hide Answered, Recorded, Plain;
    RecordedIsAnsweredIff(op.handler);
  }

  lemma ClearingIsSuccess(c: Config, s: State, op: Op, id: string)
    requires op.GuardLoginOp? && op.id == id ==> ValidCodes(op.handler) && Plain(op.handler)
    requires EffectOf(c, s, op) == Cleared(id)
    ensures IsSuccess(c, s, op, id)
  {
    hide Answered, Recorded, Plain, CheckLogin;
    if op.GuardLoginOp? {
      RecordedIsAnsweredIff(op.handler);
    }
  }

  lemma {:induction false} GuessesAreSpent(c: Config, ops: seq<Op>, id: string, from: int, now: int)
    requires ShortestLockout(c) >= c.FailureWindow() + SECOND
    requires Admissible(c, ops, id, from, now)
    ensures Guesses(c, ops, id, from) <= c.Failures()
    ensures now <= from + c.FailureWindow() ==> Spent(c, Run(c, ops), id, from, Guesses(c, ops, id, from))
    ensures now < from ==> Guesses(c, ops, id, from) == 0
    decreases |ops|
  {
    hide Step, EffectOf, IsGuess, IsSuccess, CheckLogin, LockedUntil, LockoutOf, ValidCodes, Plain;
    if ops != [] {
      var s, op := Run(c, Front(ops)), Last(ops);
      var m := Guesses(c, Front(ops), id, from);
      var e := EffectOf(c, s, op);
      RunIsWellTyped(c, Front(ops));
      GuessesAreSpent(c, Front(ops), id, from, op.at);
      EffectTime(c, s, op);
      if IsGuess(c, s, op, id, from) {
        GuessIsLogin(c, s, op, id, from);
        GuessFails(c, s, op, id, from);
      }
      if from <= End(op) <= from + c.FailureWindow() {
        if e.Failed? && e.id == id {
          FailureSpends(c, s, op, id, e.ip, e.at, from, m);
        } else if e == Cleared(id) {
          ClearingIsSuccess(c, s, op, id);
        } else {
          LoginEntriesUntouched(c, s, op, id, FailureKey(id));
          LoginEntriesUntouched(c, s, op, id, LockKey(id));
        }
      }
    }
  }

  lemma GuessIsLogin(c: Config, s: State, op: Op, id: string, from: int)
    requires IsGuess(c, s, op, id, from)
    ensures op.GuardLoginOp? && op.id == id
  {
  }

  // The guess-rate bound.
  lemma GuessRateBound(c: Config, ops: seq<Op>, id: string, from: int, now: int)
    requires c.Lockout() >= c.FailureWindow() + SECOND && c.MaxLockout() >= c.FailureWindow() + SECOND
    requires Admissible(c, ops, id, from, now)
    ensures Guesses(c, ops, id, from) <= c.Failures()
  {
    GuessesAreSpent(c, ops, id, from, now);
  }

  // ---- the bound is sharp in the configuration ----

  // One more failed login, by a client without an address.
  function FailedLogin(at: int): Op {
    GuardLoginOp(at, "user", "", [WriteHeader(401)], at)
  }

  lemma FailedLoginIsHonest(at: int)
    ensures Recorded(FailedLogin(at).handler) == Answered(FailedLogin(at).handler) == 401
    ensures Plain(FailedLogin(at).handler) && ValidCodes(FailedLogin(at).handler)
  {
    assert Front([WriteHeader(401)]) == [];
  }

  // An unlocked identity gets one more guess.
  lemma OneMoreGuess(c: Config, ops: seq<Op>, from: int, at: int)
    requires from <= at <= from + c.FailureWindow()
    requires LockedUntil(Run(c, ops), "user", at) == None
    ensures Run(c, ops + [FailedLogin(at)]) == Step(c, Run(c, ops), FailedLogin(at))
    ensures EffectOf(c, Run(c, ops), FailedLogin(at)) == Failed("user", "", at)
    ensures Guesses(c, ops + [FailedLogin(at)], "user", from) == Guesses(c, ops, "user", from) + 1
    ensures NoSuccess(c, ops, "user", from) ==> NoSuccess(c, ops + [FailedLogin(at)], "user", from)
  {
    hide Step, Recorded, Answered;
    FailedLoginIsHonest(at);
    FrontOfSnoc(ops, FailedLogin(at));
  }

  // n failed logins at one instant.
  ghost function Burst(n: nat, t: int): seq<Op> {
    if n == 0 then [] else Burst(n - 1, t) + [FailedLogin(t)]
  }

  lemma {:induction false} BurstIsTimely(n: nat, t: int)
    ensures |Burst(n, t)| == n
    ensures forall i :: 0 <= i < n ==> Burst(n, t)[i] == FailedLogin(t)
  {
    if n > 0 {
      BurstIsTimely(n - 1, t);
    }
  }

  // The login entries of the user after n failures below or at the threshold.
  ghost predicate AfterBurst(c: Config, s: State, n: nat, t: int) {
    && Count(s, FailureKey("user"), t) == n
    && (n < c.Failures() ==> StrikeKey("user") !in s && LockKey("user") !in s)
    && (n == c.Failures() ==>
          LockKey("user") in s && s[LockKey("user")].value == Deadline(WholeSeconds(t + ShortestLockout(c))))
  }

  lemma FirstLockoutIsShortest(c: Config)
    ensures LockoutOf(c, 1) == ShortestLockout(c)
  {
  }

  lemma FailureExtendsBurst(c: Config, s: State, n: nat, t: int)
    requires WellTyped(s) && n < c.Failures() && AfterBurst(c, s, n, t)
    requires EffectOf(c, s, FailedLogin(t)) == Failed("user", "", t)
    ensures AfterBurst(c, Step(c, s, FailedLogin(t)), n + 1, t)
  {
    hide Step, EffectOf, LockoutOf, ShortestLockout, WholeSeconds, Itoa, Atoi, Untouched;
    var op := FailedLogin(t);
    FailureStep(c, s, op, "user", "", t);
    ParseOfItoa(n + 1);
    FirstLockoutIsShortest(c);
    if n + 1 < c.Failures() {
      NothingToTouch(s, Step(c, s, op), op, StrikeKey("user"));
      NothingToTouch(s, Step(c, s, op), op, LockKey("user"));
    }
  }

  lemma NothingToTouch(s: State, s': State, op: Op, key: Key)
    requires key !in s && Untouched(s, s', op, key)
    ensures key !in s'
  {
  }

  lemma BurstIsUnlocked(c: Config, s: State, n: nat, t: int)
    requires AfterBurst(c, s, n, t) && n < c.Failures()
    ensures LockedUntil(s, "user", t) == None
  {
  }

  lemma NoBurstYet(c: Config, t: int)
    ensures AfterBurst(c, Run(c, Burst(0, t)), 0, t)
    ensures Guesses(c, Burst(0, t), "user", t) == 0 && NoSuccess(c, Burst(0, t), "user", t)
  {
  }

  // Below the threshold every attempt of the burst reaches the handler; the
  // attempt that meets it starts the first and shortest lockout.
  lemma {:induction false} BurstGuesses(c: Config, n: nat, t: int)
    requires n <= c.Failures()
    ensures AfterBurst(c, Run(c, Burst(n, t)), n, t)
    ensures Guesses(c, Burst(n, t), "user", t) == n && NoSuccess(c, Burst(n, t), "user", t)
  {
    hide Run, AfterBurst, Guesses, NoSuccess, Step, EffectOf, LockedUntil;
    if n == 0 {
      NoBurstYet(c, t);
    } else {
      var front := Burst(n - 1, t);
      BurstGuesses(c, n - 1, t);
      RunIsWellTyped(c, front);
      BurstIsUnlocked(c, Run(c, front), n - 1, t);
      OneMoreGuess(c, front, t, t);
      FailureExtendsBurst(c, Run(c, front), n - 1, t);
    }
  }

  // The instant at which rounding to whole seconds shortens a lockout most.
  ghost function WorstInstant(lockout: int): int {
    (SECOND - 1 - lockout) % SECOND
  }

  lemma RoundingAtWorstInstant(lockout: int)
    ensures WholeSeconds(WorstInstant(lockout) + lockout) * SECOND == WorstInstant(lockout) + lockout - (SECOND - 1)
  {
  }

  lemma BurstLockRunsOut(c: Config, s: State, t: int, again: int)
    requires AfterBurst(c, s, c.Failures(), t)
    requires again >= WholeSeconds(t + ShortestLockout(c)) * SECOND
    ensures LockedUntil(s, "user", again) == None
  {
    hide WholeSeconds, ShortestLockout, Count;
  }

  // With any shorter lockout some run gets one guess more than Failures.
  lemma ShorterLockoutBreaksTheBound(c: Config)
    requires ShortestLockout(c) < c.FailureWindow() + SECOND
    ensures exists ops, from, now ::
              Admissible(c, ops, "user", from, now) && Guesses(c, ops, "user", from) == c.Failures() + 1
  {
    hide Run, Guesses, NoSuccess, Burst, AfterBurst, LockedUntil, WorstInstant, ShortestLockout, EffectOf, Step,
         Plain, ValidCodes;
    var t := WorstInstant(ShortestLockout(c));
    RoundingAtWorstInstant(ShortestLockout(c));
    var until := WholeSeconds(t + ShortestLockout(c)) * SECOND;
    var again := if until > t then until else t;
    var burst := Burst(c.Failures(), t);
    BurstIsTimely(c.Failures(), t);
    BurstGuesses(c, c.Failures(), t);
    BurstLockRunsOut(c, Run(c, burst), t, again);
    OneMoreGuess(c, burst, t, again);
    FailedLoginIsHonest(t);
    FailedLoginIsHonest(again);
    var ops := burst + [FailedLogin(again)];
    assert Admissible(c, ops, "user", t, again);
    assert Guesses(c, ops, "user", t) == c.Failures() + 1;
  }

  // The guess rate is bounded in every run.
  ghost predicate RateIsBounded(c: Config) {
    forall ops, id, from, now :: Admissible(c, ops, id, from, now) ==> Guesses(c, ops, id, from) <= c.Failures()
  }

  // The configurations that bound the guess rate are exactly those whose lockouts
  // last a FailureWindow and a second.
  lemma RateIsBoundedIff(c: Config)
    ensures RateIsBounded(c) <==>
            c.Lockout() >= c.FailureWindow() + SECOND && c.MaxLockout() >= c.FailureWindow() + SECOND
  {
    if ShortestLockout(c) >= c.FailureWindow() + SECOND {
      forall ops, id, from, now | Admissible(c, ops, id, from, now)
        ensures Guesses(c, ops, id, from) <= c.Failures()
      {
        GuessRateBound(c, ops, id, from, now);
      }
    } else {
      ShorterLockoutBreaksTheBound(c);
    }
  }

  // ---- handlers that are not honest ----

  // A 401 behind an informational header.
  function HintedLogin(at: int): Op {
    GuardLoginOp(at, "user", "", [WriteHeader(103), WriteHeader(401)], at)
  }

  ghost function HintedBurst(n: nat, t: int): seq<Op> {
    if n == 0 then [] else HintedBurst(n - 1, t) + [HintedLogin(t)]
  }

  // Honesty is needed: such answers are never counted, so any number of them fits
  // into one instant, under every configuration.
  lemma {:induction false} HintedGuessesAreUnbounded(c: Config, n: nat, t: int)
    ensures Run(c, HintedBurst(n, t)) == map[]
    ensures Guesses(c, HintedBurst(n, t), "user", t) == n && NoSuccess(c, HintedBurst(n, t), "user", t)
  {
    if n > 0 {
      hide Step, IsGuess, IsSuccess, HintedLogin;
      HintedGuessesAreUnbounded(c, n - 1, t);
      FrontOfSnoc(HintedBurst(n - 1, t), HintedLogin(t));
      HintedStep(c, t);
    }
  }

  lemma HintedStep(c: Config, t: int)
    ensures Step(c, map[], HintedLogin(t)) == map[]
    ensures IsGuess(c, map[], HintedLogin(t), "user", t) && !IsSuccess(c, map[], HintedLogin(t), "user")
  {
    SilenceAndHints();
    hide Recorded, Answered;
  }
}
