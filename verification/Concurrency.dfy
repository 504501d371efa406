// Calls that interleave at single store operations. The counters are loaded and
// saved separately, so updates can be lost; a false lockout still cannot happen.
module Concurrency {
  import opened Prelude
  import opened Decimal
  import opened TtlMap
  import opened CappedList
  import opened TrackerModel
  import opened TrackerSpec
  import opened TrackerRuns

  // Where a call stands between two store operations, and what it remembers: n is
  // the loaded failure count plus one.
  datatype Thread =
    | Idle
    | LoadLock(id: string, ip: string, n: int)
    | LoadStrikes(id: string, ip: string, n: int)
    | SaveStrikes(id: string, ip: string, n: int, strikes: int)
    | SaveLock(id: string, ip: string, n: int, strikes: int)
    | LoadStuffing(id: string, ip: string, n: int)
    | SaveStuffing(id: string, ip: string, n: int, ids: seq<Name>)
    | SaveCount(id: string, n: int)
    | ClearStrikes(id: string)

  // The store, the calls in flight, and how many RecordFailure calls have made
  // their first store operation for each identity.
  datatype World = World(store: State, threads: map<nat, Thread>, begun: multiset<string>)

  // One step: a call begins with its first store operation, advances by its next
  // one, or the environment sweeps or uses the session half of the Tracker.
  // Every step reads the clock itself; readings are not even assumed ordered.
  datatype Move =
    | BeginFailure(tid: nat, id: string, ip: string, now: int)
    | BeginClear(tid: nat, id: string)
    | Advance(tid: nat, now: int)
    | Environment(op: Op)

  function ThreadOf(w: World, tid: nat): Thread {
    if tid in w.threads then w.threads[tid] else Idle
  }

  ghost function Resume(w: World, tid: nat, store: State, thread: Thread): World {
    w.(store := store, threads := w.threads[tid := thread])
  }

  ghost function AfterLock(c: Config, s: State, id: string, ip: string, n: int, now: int): Thread {
    if n >= c.Failures() && LockedUntil(s, id, now) == None then LoadStrikes(id, ip, n) else LoadStuffing(id, ip, n)
  }

  // A client without an address is not listed; a list that holds the identity is
  // not rewritten; a malformed list ends the call early.
  ghost function AfterStuffing(s: State, id: string, ip: string, n: int, now: int): Thread {
    if ip == "" then SaveCount(id, n)
    else
      match LoadNames(s, StuffingKey(ip), now)
      case None => Idle
      case Some(ids) => if Sha256(id) in ids then SaveCount(id, n) else SaveStuffing(id, ip, n, ids)
  }

  ghost function AdvanceCall(c: Config, w: World, tid: nat, now: int): World {
    var s := w.store;
    match ThreadOf(w, tid)
    case Idle => w
    case LoadLock(id, ip, n) => Resume(w, tid, s, AfterLock(c, s, id, ip, n, now))
    case LoadStrikes(id, ip, n) => Resume(w, tid, s, SaveStrikes(id, ip, n, Count(s, StrikeKey(id), now) + 1))
    case SaveStrikes(id, ip, n, strikes) =>
      Resume(w, tid, Save(s, StrikeKey(id), Text(Itoa(strikes)), c.BackoffWindow(), now), SaveLock(id, ip, n, strikes))
    case SaveLock(id, ip, n, strikes) =>
      var d := LockoutOf(c, strikes);
      Resume(w, tid, Save(s, LockKey(id), Deadline(WholeSeconds(now + d)), d, now), LoadStuffing(id, ip, n))
    case LoadStuffing(id, ip, n) => Resume(w, tid, s, AfterStuffing(s, id, ip, n, now))
    case SaveStuffing(id, ip, n, ids) =>
      var ids' := Remember(ids, Sha256(id), c.StuffingLimit());
      Resume(w, tid, Save(s, StuffingKey(ip), Names(ids'), c.FailureWindow(), now), SaveCount(id, n))
    case SaveCount(id, n) =>
      Resume(w, tid, Save(s, FailureKey(id), Text(Itoa(n)), c.FailureWindow(), now), Idle)
    case ClearStrikes(id) => Resume(w, tid, Delete(s, StrikeKey(id)), Idle)
  }

  predicate IsEnvironment(op: Op) {
    !op.RecordFailureOp? && !op.ClearFailuresOp? && !op.GuardLoginOp?
  }

  ghost function Apply(c: Config, w: World, m: Move): World {
    match m
    case BeginFailure(tid, id, ip, now) =>
      if ThreadOf(w, tid) != Idle || id == "" then w
      else
        var n := Count(w.store, FailureKey(id), now) + 1;
        Resume(w, tid, w.store, LoadLock(id, ip, n)).(begun := w.begun + multiset{id})
    case BeginClear(tid, id) =>
      if ThreadOf(w, tid) != Idle || id == "" then w
      else Resume(w, tid, Delete(w.store, FailureKey(id)), ClearStrikes(id))
    case Advance(tid, now) => AdvanceCall(c, w, tid, now)
    case Environment(op) => if IsEnvironment(op) then w.(store := Step(c, w.store, op)) else w
  }

  ghost function RunMoves(c: Config, moves: seq<Move>): World {
    if moves == [] then World(map[], map[], multiset{}) else Apply(c, RunMoves(c, Front(moves)), Last(moves))
  }

  // The RecordFailure calls made for an identity.
  ghost function Calls(moves: seq<Move>, id: string): nat {
    if moves == [] then 0
    else Calls(Front(moves), id) + if Last(moves).BeginFailure? && Last(moves).id == id then 1 else 0
  }

  // ---- no false lockout ----

  ghost predicate ThreadInv(c: Config, begun: multiset<string>, thread: Thread) {
    match thread
    case LoadLock(id, _, n) => n <= begun[id]
    case LoadStrikes(id, _, n) => c.Failures() <= n <= begun[id]
    case SaveStrikes(id, _, n, _) => c.Failures() <= n <= begun[id]
    case SaveLock(id, _, n, _) => c.Failures() <= n <= begun[id]
    case LoadStuffing(id, _, n) => n <= begun[id]
    case SaveStuffing(id, _, n, _) => n <= begun[id]
    case SaveCount(id, n) => n <= begun[id]
    case _ => true
  }

  ghost predicate EntryInv(c: Config, begun: multiset<string>, key: Key, value: Value) {
    match key
    case FailureKey(id) => value.Text? ==> Atoi(value.text) <= begun[id]
    case LockKey(id) => c.Failures() <= begun[id]
    case _ => true
  }

  ghost predicate Inv(c: Config, w: World) {
    && (forall tid :: tid in w.threads ==> ThreadInv(c, w.begun, w.threads[tid]))
    && (forall k :: k in w.store ==> EntryInv(c, w.begun, k, w.store[k].value))
  }

  lemma CountIsBegun(c: Config, w: World, id: string, now: int)
    requires Inv(c, w)
    ensures Count(w.store, FailureKey(id), now) <= w.begun[id]
  {
  }

  // A step on one key that keeps the entry invariant.
  lemma ResumeKeepsInv(c: Config, w: World, tid: nat, store: State, thread: Thread)
    requires Inv(c, w) && ThreadInv(c, w.begun, thread)
    requires forall k :: k in store ==> EntryInv(c, w.begun, k, store[k].value)
    ensures Inv(c, Resume(w, tid, store, thread))
  {
  }

  lemma AdvanceKeepsInv(c: Config, w: World, tid: nat, now: int)
    requires Inv(c, w)
    ensures Inv(c, AdvanceCall(c, w, tid, now))
  {
    hide LockoutOf, LockedUntil, Count, LoadNames, Remember, WholeSeconds;
    var w' := AdvanceCall(c, w, tid, now);
    var thread := ThreadOf(w, tid);
    if thread.SaveCount? {
      ParseOfItoa(thread.n);
    }
    if !thread.Idle? {
      ResumeKeepsInv(c, w, tid, w'.store, w'.threads[tid]);
    }
  }

  lemma EnvironmentKeepsInv(c: Config, w: World, op: Op)
    requires Inv(c, w) && IsEnvironment(op)
    ensures Inv(c, w.(store := Step(c, w.store, op)))
  {
    hide CheckVerdict, Bind, LoadNames, NetworkOf, Remember;
  }

  lemma ApplyKeepsInv(c: Config, w: World, m: Move)
    requires Inv(c, w)
    ensures Inv(c, Apply(c, w, m))
  {
    hide AdvanceCall, Step, Count;
    match m
    case BeginFailure(tid, id, ip, now) => CountIsBegun(c, w, id, now);
    case BeginClear(tid, id) =>
    case Advance(tid, now) => AdvanceKeepsInv(c, w, tid, now);
    case Environment(op) => if IsEnvironment(op) { EnvironmentKeepsInv(c, w, op); }
  }

  lemma {:induction false} RunKeepsInv(c: Config, moves: seq<Move>, id: string)
    ensures Inv(c, RunMoves(c, moves))
    ensures RunMoves(c, moves).begun[id] <= Calls(moves, id)
  {
    hide Inv, AdvanceCall, Step, Count;
    if moves == [] {
      assert Inv(c, RunMoves(c, moves)) by { EmptyWorld(c); }
    } else {
      RunKeepsInv(c, Front(moves), id);
      ApplyKeepsInv(c, RunMoves(c, Front(moves)), Last(moves));
      BegunStep(c, RunMoves(c, Front(moves)), Last(moves));
    }
  }

  lemma EmptyWorld(c: Config)
    ensures Inv(c, World(map[], map[], multiset{}))
  {
  }

  lemma BegunStep(c: Config, w: World, m: Move)
    ensures Apply(c, w, m).begun == w.begun || (m.BeginFailure? && Apply(c, w, m).begun == w.begun + multiset{m.id})
  {
    hide LockoutOf, LockedUntil, Count, LoadNames, Remember, WholeSeconds, Step;
  }

  // However calls, clears, sweeps and expiries interleave, the stored count never
  // exceeds the number of calls made, so a lockout means Failures calls at least.
  lemma NoFalseLockout(c: Config, moves: seq<Move>, id: string, now: int)
    ensures Count(RunMoves(c, moves).store, FailureKey(id), now) <= Calls(moves, id)
    ensures LockedUntil(RunMoves(c, moves).store, id, now).Some? ==> Calls(moves, id) >= c.Failures()
  {
    hide RunMoves, Calls;
    RunKeepsInv(c, moves, id);
    CountIsBegun(c, RunMoves(c, moves), id, now);
  }

  // ---- a call that is left alone ----

  function Rank(thread: Thread): nat {
    match thread
    case Idle => 0
    case LoadLock(_, _, _) => 7
    case LoadStrikes(_, _, _) => 6
    case SaveStrikes(_, _, _, _) => 5
    case SaveLock(_, _, _, _) => 4
    case LoadStuffing(_, _, _) => 3
    case SaveStuffing(_, _, _, _) => 2
    case SaveCount(_, _) => 1
    case ClearStrikes(_) => 1
  }

  lemma AdvanceDescends(c: Config, w: World, tid: nat, now: int)
    requires !ThreadOf(w, tid).Idle?
    ensures Rank(ThreadOf(AdvanceCall(c, w, tid, now), tid)) < Rank(ThreadOf(w, tid))
  {
    hide LockoutOf, LockedUntil, Count, LoadNames, Remember, WholeSeconds;
  }

  // The call runs to its end with no other step in between.
  ghost function Finish(c: Config, w: World, tid: nat, now: int): World
    decreases Rank(ThreadOf(w, tid))
  {
    if ThreadOf(w, tid).Idle? then w
    else
      AdvanceDescends(c, w, tid, now);
      Finish(c, AdvanceCall(c, w, tid, now), tid, now)
  }

  lemma FinishFromCount(c: Config, w: World, tid: nat, now: int)
    requires ThreadOf(w, tid).SaveCount?
    ensures var t := ThreadOf(w, tid);
            Finish(c, w, tid, now).store == Save(w.store, FailureKey(t.id), Text(Itoa(t.n)), c.FailureWindow(), now)
  {
    var w1 := AdvanceCall(c, w, tid, now);
    assert Finish(c, w, tid, now) == Finish(c, w1, tid, now) == w1;
  }

  lemma FinishFromStuffing(c: Config, w: World, tid: nat, now: int)
    requires ThreadOf(w, tid).LoadStuffing?
    ensures var t := ThreadOf(w, tid);
            Finish(c, w, tid, now).store ==
            match Stuff(c, w.store, t.id, t.ip, now)
            case None => w.store
            case Some(stuffed) => Save(stuffed, FailureKey(t.id), Text(Itoa(t.n)), c.FailureWindow(), now)
  {
    hide LoadNames, Remember;
    var w1 := AdvanceCall(c, w, tid, now);
    assert Finish(c, w, tid, now) == Finish(c, w1, tid, now);
    if ThreadOf(w1, tid).SaveCount? {
      FinishFromCount(c, w1, tid, now);
    } else if ThreadOf(w1, tid).SaveStuffing? {
      var w2 := AdvanceCall(c, w1, tid, now);
      assert Finish(c, w1, tid, now) == Finish(c, w2, tid, now);
      FinishFromCount(c, w2, tid, now);
    }
  }

  lemma FinishFromCrossing(c: Config, w: World, tid: nat, now: int) returns (w': World)
    requires ThreadOf(w, tid).LoadStrikes?
    requires Crosses(c, w.store, ThreadOf(w, tid).id, now)
    ensures Finish(c, w, tid, now) == Finish(c, w', tid, now)
    ensures w'.store == Punish(c, w.store, ThreadOf(w, tid).id, now)
    ensures ThreadOf(w', tid) == LoadStuffing(ThreadOf(w, tid).id, ThreadOf(w, tid).ip, ThreadOf(w, tid).n)
  {
    hide LoadNames, Remember, Crosses, LockoutOf, Count, WholeSeconds;
    var w1 := AdvanceCall(c, w, tid, now);
    var w2 := AdvanceCall(c, w1, tid, now);
    w' := AdvanceCall(c, w2, tid, now);
    assert ThreadOf(w1, tid).SaveStrikes? && ThreadOf(w2, tid).SaveLock? && ThreadOf(w', tid).LoadStuffing?;
    assert Finish(c, w, tid, now) == Finish(c, w1, tid, now);
    assert Finish(c, w1, tid, now) == Finish(c, w2, tid, now);
    assert Finish(c, w2, tid, now) == Finish(c, w', tid, now);
  }

  // Without interleaving the steps add up to RecordFailure.
  lemma AloneIsSequential(c: Config, w: World, tid: nat, id: string, ip: string, now: int)
    requires ThreadOf(w, tid).Idle? && id != ""
    ensures Finish(c, Apply(c, w, BeginFailure(tid, id, ip, now)), tid, now).store ==
            RecordFailure(c, w.store, id, ip, now).0
  {
    hide Count, LockedUntil, LoadNames, LockoutOf, Remember, Stuff, AfterStuffing, Finish;
    var begun := Apply(c, w, BeginFailure(tid, id, ip, now));
    var w1 := AdvanceCall(c, begun, tid, now);
    AdvanceOnce(c, begun, tid, now);
    if Crosses(c, w.store, id, now) {
      var w' := FinishFromCrossing(c, w1, tid, now);
      hide AdvanceCall, Punish;
      FinishFromStuffing(c, w', tid, now);
    } else {
      FinishFromStuffing(c, w1, tid, now);
    }
  }

  lemma AdvanceOnce(c: Config, w: World, tid: nat, now: int)
    requires !ThreadOf(w, tid).Idle?
    ensures Finish(c, w, tid, now) == Finish(c, AdvanceCall(c, w, tid, now), tid, now)
  {
  }

  lemma RunMovesSnoc(c: Config, moves: seq<Move>, m: Move)
    ensures RunMoves(c, moves + [m]) == Apply(c, RunMoves(c, moves), m)
    ensures forall id :: Calls(moves + [m], id) == Calls(moves, id) + if m.BeginFailure? && m.id == id then 1 else 0
  {
    FrontOfSnoc(moves, m);
  }

  lemma NoMoves(c: Config)
    ensures RunMoves(c, []) == World(map[], map[], multiset{}) && Calls([], "user") == 0
  {
  }

  // The call of thread tid, alone below the threshold and without a client
  // address, saves what it loaded plus one.
  lemma SaveWhatWasLoaded(c: Config, moves: seq<Move>, tid: nat, n: int) returns (longer: seq<Move>)
    requires ThreadOf(RunMoves(c, moves), tid) == LoadLock("user", "", n) && n < c.Failures()
    ensures Calls(longer, "user") == Calls(moves, "user")
    ensures var w := RunMoves(c, moves);
            && RunMoves(c, longer).store == Save(w.store, FailureKey("user"), Text(Itoa(n)), c.FailureWindow(), 0)
            && forall other :: other != tid ==> ThreadOf(RunMoves(c, longer), other) == ThreadOf(w, other)
  {
    hide RunMoves, Calls, LockedUntil;
    var step := Advance(tid, 0);
    RunMovesSnoc(c, moves, step);
    RunMovesSnoc(c, moves + [step], step);
    RunMovesSnoc(c, moves + [step] + [step], step);
    longer := moves + [step] + [step] + [step];
  }

  // With interleaving an update can be lost: two calls, one count.
  lemma UpdatesCanBeLost(c: Config)
    requires c.Failures() > 1
    ensures exists moves :: Calls(moves, "user") == 2 && Count(RunMoves(c, moves).store, FailureKey("user"), 0) == 1
  {
    hide RunMoves, Calls, AdvanceCall;
    var first, second := BeginFailure(0, "user", "", 0), BeginFailure(1, "user", "", 0);
    NoMoves(c);
    RunMovesSnoc(c, [], first);
    RunMovesSnoc(c, [] + [first], second);
    var moves := SaveWhatWasLoaded(c, [] + [first] + [second], 0, 1);
    moves := SaveWhatWasLoaded(c, moves, 1, 1);
    ParseOfItoa(1);
    assert Count(RunMoves(c, moves).store, FailureKey("user"), 0) == 1;
  }
}
