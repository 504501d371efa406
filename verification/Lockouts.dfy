// The lockouts of an identity computed from its failures alone: a fold over the
// instants of failures and clears, without a store, an entry or an expiry.
module Lockouts {
  import opened Prelude
  import opened Streaks
  import opened TrackerModel
  import opened TrackerSpec
  import opened TrackerRuns
  import opened LoginHistory

  // The failure or clear that ends the log crosses the threshold.
  ghost predicate CrossesNow(c: Config, log: seq<Fact>)
    requires log != []
    decreases |log|, 0
  {
    match Last(log)
    case Reset => false
    case Hit(t) =>
      && Streak(Front(log), c.FailureWindow(), t) + 1 >= c.Failures()
      && (Deadline(c, Front(log)) == None || t >= Deadline(c, Front(log)).value * SECOND)
  }

  // Which of the failures crossed, with the clears in between.
  ghost function Crossings(c: Config, log: seq<Fact>): seq<Fact>
    decreases |log|, 1
  {
    if log == [] then []
    else Crossings(c, Front(log)) + if CrossesNow(c, log) || Last(log).Reset? then [Last(log)] else []
  }

  // The deadline the latest crossing set, in whole seconds.
  ghost function Deadline(c: Config, log: seq<Fact>): Option<int>
    decreases |log|, 1
  {
    if log == [] then None
    else if !CrossesNow(c, log) then Deadline(c, Front(log))
    else
      var t := Last(log).at;
      Some(WholeSeconds(t + LockoutOf(c, Streak(Crossings(c, Front(log)), c.BackoffWindow(), t) + 1)))
  }

  lemma FoldStep(c: Config, log: seq<Fact>, fact: Fact)
    ensures var longer := log + [fact];
            && Crossings(c, longer) ==
               Crossings(c, log) + (if CrossesNow(c, longer) || fact.Reset? then [fact] else [])
            && Deadline(c, longer) ==
               (if !CrossesNow(c, longer) then Deadline(c, log)
                else
                  var strike := Streak(Crossings(c, log), c.BackoffWindow(), fact.at) + 1;
                  Some(WholeSeconds(fact.at + LockoutOf(c, strike))))
            && (CrossesNow(c, longer) <==>
                && fact.Hit?
                && Streak(log, c.FailureWindow(), fact.at) + 1 >= c.Failures()
                && (Deadline(c, log) == None || fact.at >= Deadline(c, log).value * SECOND))
  {
    FrontOfSnoc(log, fact);
  }

  lemma LogsAfterFailure(c: Config, ops: seq<Op>, id: string, ip: string, t: int)
    requires ops != [] && EffectOf(c, Run(c, Front(ops)), Last(ops)) == Failed(id, ip, t) && End(Last(ops)) == t
    ensures FailureLog(c, ops, id) == FailureLog(c, Front(ops), id) + [Hit(t)]
    ensures CrossingLog(c, ops, id) == CrossingLog(c, Front(ops), id) + if CrossingAt(c, ops, id) then [Hit(t)] else []
    ensures LastDeadline(c, ops, id) ==
            if !CrossingAt(c, ops, id) then LastDeadline(c, Front(ops), id)
            else Some(WholeSeconds(t + LockoutOf(c, StrikeNumber(c, Front(ops), id, t))))
  {
    hide Run, EffectOf, LockoutOf, CrossingAt, StrikeNumber;
  }

  lemma LogsAfterOther(c: Config, ops: seq<Op>, id: string)
    requires ops != []
    requires var e := EffectOf(c, Run(c, Front(ops)), Last(ops)); e.Failed? ==> e.id != id
    ensures var cleared := EffectOf(c, Run(c, Front(ops)), Last(ops)) == Cleared(id);
            && FailureLog(c, ops, id) == FailureLog(c, Front(ops), id) + (if cleared then [Reset] else [])
            && CrossingLog(c, ops, id) == CrossingLog(c, Front(ops), id) + (if cleared then [Reset] else [])
    ensures LastDeadline(c, ops, id) == LastDeadline(c, Front(ops), id)
  {
    hide Run, EffectOf, LockoutOf, StrikeNumber;
  }

  lemma NothingHappened(c: Config, id: string)
    ensures FailureLog(c, [], id) == [] && CrossingLog(c, [], id) == [] && LastDeadline(c, [], id) == None
    ensures Crossings(c, []) == [] && Deadline(c, []) == None
  {
  }

  // The bookkeeping of a run agrees with the fold over its failure log.
  lemma {:induction false} RunFollowsFold(c: Config, ops: seq<Op>, id: string, now: int)
    requires Timely(ops, now) && id != ""
    ensures CrossingLog(c, ops, id) == Crossings(c, FailureLog(c, ops, id))
    ensures LastDeadline(c, ops, id) == Deadline(c, FailureLog(c, ops, id))
  {
    hide EffectOf, Run, LockoutOf, CrossingAt, Crossings, Deadline, CrossesNow, Streak, LockedUntil,
         FailureLog, CrossingLog, LastDeadline;
    if ops == [] {
      NothingHappened(c, id);
    } else {
      var s, op, log := Run(c, Front(ops)), Last(ops), FailureLog(c, Front(ops), id);
      var e := EffectOf(c, s, op);
      EffectTime(c, s, op);
      RunFollowsFold(c, Front(ops), id, op.at);
      if e.Failed? && e.id == id {
        FoldStep(c, log, Hit(e.at));
        LogsAfterFailure(c, ops, id, e.ip, e.at);
        FailureCrossesIff(c, ops, id, e.ip, e.at);
        LockIsLastCrossing(c, Front(ops), id, e.at);
      } else {
        FoldStep(c, log, Reset);
        LogsAfterOther(c, ops, id);
        assert log + [] == log;
      }
    }
  }

  // At every instant of every run an identity is locked exactly until the deadline
  // that the fold over its failures and clears gives.
  lemma LockFollowsFailures(c: Config, ops: seq<Op>, id: string, now: int)
    requires Timely(ops, now) && id != ""
    ensures LockedUntil(Run(c, ops), id, now) ==
            match Deadline(c, FailureLog(c, ops, id))
            case Some(deadline) => if now < deadline * SECOND then Some(deadline) else None
            case None => None
  {
    hide Run, LastDeadline, Deadline, FailureLog, LockedUntil;
    LockIsLastCrossing(c, ops, id, now);
    RunFollowsFold(c, ops, id, now);
  }
}
