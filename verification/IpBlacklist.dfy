// httpval/ip_blacklist.go: ban an address after Threshold attacks in a window.
module IpBlacklist {
  import opened Prelude
  import opened Windows
  import opened MemoryBackend
  import B = BackendRuns

  datatype Policy = Policy(threshold: int, window: int, banDuration: int)

  class Blacklist {
    const storage: Memory
    const policy: Policy

    constructor (storage: Memory, policy: Policy)
      ensures this.storage == storage && this.policy == policy
    {
      this.storage := storage;
      this.policy := policy;
    }

    method RecordAttack(ip: string, now: int) returns (banned: bool)
      requires storage.Valid()
      modifies storage, storage.Events()
      ensures storage.Valid() && fresh(storage.Events() - old(storage.Events()))
      ensures var counted := old(storage.Model()).Incr(ip, Hit(now, policy.window));
              && (banned <==> counted.events[ip].count >= policy.threshold)
              && storage.Model() == if banned then counted.Block(ip, now + policy.banDuration) else counted
    {
      var count := storage.Incr(ip, policy.window, now);
      if count >= policy.threshold {
        storage.Block(ip, policy.banDuration, now);
        return true;
      }
      return false;
    }

    method Detect(ip: string, now: int) returns (detected: bool)
      ensures detected <==> storage.Model().IsBlocked(ip, now)
    {
      detected := storage.IsBlocked(ip, now);
    }
  }

  // ---- runs ----

  // Attacks reported through the blacklist, and whatever else uses its backend.
  datatype Op = Attack(time: int, ip: string) | Traffic(op: B.Op)

  function At(op: Op): int {
    if op.Attack? then op.time else op.op.at
  }

  ghost predicate Timely(ops: seq<Op>, now: int) {
    && (forall i, j :: 0 <= i < j < |ops| ==> At(ops[i]) <= At(ops[j]))
    && (forall i :: 0 <= i < |ops| ==> At(ops[i]) <= now)
  }

  // The requests an attack makes of the backend, in the state log leads to.
  function Requests(p: Policy, log: seq<B.Op>, op: Op): seq<B.Op> {
    match op
    case Traffic(o) => [o]
    case Attack(at, ip) =>
      var incr := B.Incr(at, ip, p.window);
      if Fires(p, log, ip, at) then [incr, B.Block(at, ip, p.banDuration)] else [incr]
  }

  // RecordAttack returns true.
  predicate Fires(p: Policy, log: seq<B.Op>, ip: string, at: int) {
    B.MemRun(log).Incr(ip, Hit(at, p.window)).events[ip].count >= p.threshold
  }

  // A run of the blacklist as a run of its backend.
  function Log(p: Policy, ops: seq<Op>): seq<B.Op> {
    if ops == [] then []
    else var log := Log(p, Front(ops)); log + Requests(p, log, Last(ops))
  }

  function State(p: Policy, ops: seq<Op>): Mem {
    B.MemRun(Log(p, ops))
  }

  predicate FiresLast(p: Policy, ops: seq<Op>, ip: string)
    requires ops != []
  {
    Last(ops).Attack? && Last(ops).ip == ip && Fires(p, Log(p, Front(ops)), ip, Last(ops).time)
  }

  lemma StateSteps(p: Policy, ops: seq<Op>)
    requires ops != []
    ensures match Last(ops)
            case Traffic(o) => State(p, ops) == B.MemStep(State(p, Front(ops)), o)
            case Attack(at, ip) =>
              var counted := State(p, Front(ops)).Incr(ip, Hit(at, p.window));
              State(p, ops) == if FiresLast(p, ops, ip) then counted.Block(ip, at + p.banDuration) else counted
  {
    var log := Log(p, Front(ops));
    match Last(ops)
    case Traffic(o) => FrontOfSnoc(log, o);
    case Attack(at, ip) =>
      var incr, block := B.Incr(at, ip, p.window), B.Block(at, ip, p.banDuration);
      FrontOfSnoc(log, incr);
      assert B.MemRun(log + [incr]) == B.MemRun(log).Incr(ip, Hit(at, p.window));
      if FiresLast(p, ops, ip) {
        assert log + [incr, block] == log + [incr] + [block];
        FrontOfSnoc(log + [incr], block);
        assert B.MemRun(log + [incr] + [block]) == B.MemRun(log + [incr]).Block(ip, at + p.banDuration);
      }
  }

  // ---- the ban interval ----

  ghost function LastFiring(p: Policy, ops: seq<Op>, ip: string): Option<int> {
    if ops == [] then None
    else if FiresLast(p, ops, ip) then Some(Last(ops).time)
    else LastFiring(p, Front(ops), ip)
  }

  // Nobody else bans the address.
  ghost predicate OnlyAttacksBan(ops: seq<Op>, ip: string) {
    forall i :: 0 <= i < |ops| && ops[i].Traffic? && ops[i].op.Block? ==> ops[i].op.key != ip
  }

  lemma {:induction false} BanTracked(p: Policy, ops: seq<Op>, ip: string, now: int)
    requires Timely(ops, now) && OnlyAttacksBan(ops, ip)
    ensures var firing := LastFiring(p, ops, ip);
            if ip in State(p, ops).blocked then
              firing.Some? && State(p, ops).blocked[ip] == firing.value + p.banDuration
            else
              firing.None? || now >= firing.value + p.banDuration
  {
    if ops != [] {
      hide State, FiresLast;
      BanTracked(p, Front(ops), ip, At(Last(ops)));
      StateSteps(p, ops);
      if ops == [Last(ops)] {
        assert State(p, Front(ops)).blocked == map[] by { EmptyState(p); }
      }
    } else {
      EmptyState(p);
    }
  }

  lemma EmptyState(p: Policy)
    ensures State(p, []) == Mem(map[], map[])
  {
  }

  // Some RecordAttack of the address so far returned true, and the ban it set is
  // running at now.
  ghost predicate BanRunning(p: Policy, ops: seq<Op>, ip: string, now: int) {
    ops != [] &&
    (|| (FiresLast(p, ops, ip) && Last(ops).time <= now < Last(ops).time + p.banDuration)
     || BanRunning(p, Front(ops), ip, now))
  }

  lemma {:induction false} LastFiringDecides(p: Policy, ops: seq<Op>, ip: string, upto: int, now: int)
    requires Timely(ops, upto) && upto <= now
    ensures var firing := LastFiring(p, ops, ip);
            && (firing.Some? ==> firing.value <= upto)
            && (BanRunning(p, ops, ip, now) <==> firing.Some? && now < firing.value + p.banDuration)
  {
    if ops != [] {
      LastFiringDecides(p, Front(ops), ip, At(Last(ops)), now);
    }
  }

  // Detect reports an address exactly while the ban of some attack that returned
  // true is running, whatever else happens to the backend.
  lemma DetectedIff(p: Policy, ops: seq<Op>, ip: string, now: int)
    requires Timely(ops, now) && OnlyAttacksBan(ops, ip)
    ensures State(p, ops).IsBlocked(ip, now) <==> BanRunning(p, ops, ip, now)
  {
    hide State, BanRunning;
    BanTracked(p, ops, ip, now);
    LastFiringDecides(p, ops, ip, now, now);
  }
}
