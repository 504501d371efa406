// When RecordAttack bans, against a true sliding window. Counting happens in
// fixed windows, so Threshold attacks close together need not ban.
module BanTrigger {
  import opened Prelude
  import opened Windows
  import opened IpBlacklist
  import B = BackendRuns

  // ---- counting the attacks of one address ----

  function Constant(times: seq<int>, window: int): seq<Hit> {
    seq(|times|, i requires 0 <= i < |times| => Hit(times[i], window))
  }

  // The counter after the given attacks.
  function CounterOf(times: seq<int>, window: int): Counter
    requires times != []
  {
    Fold(Constant(times, window)).value
  }

  // The count the j-th attack of the sequence is answered with.
  function CountAt(times: seq<int>, j: nat, window: int): int
    requires j < |times|
  {
    CounterOf(times[..j + 1], window).count
  }

  ghost predicate Sorted(times: seq<int>) {
    forall i, j :: 0 <= i < j < |times| ==> times[i] <= times[j]
  }

  lemma CounterStep(times: seq<int>, window: int)
    requires times != []
    ensures var c := CounterOf(times, window);
            if |times| == 1 || Last(times) - CounterOf(Front(times), window).start > window then
              c == Counter(1, Last(times), window)
            else c == Counter(CounterOf(Front(times), window).count + 1, CounterOf(Front(times), window).start, window)
  {
    var log := Constant(times, window);
    assert Front(log) == Constant(Front(times), window) && Last(log) == Hit(Last(times), window);
    if |times| == 1 {
      assert Fold(Front(log)) == None;
    } else {
      assert Fold(Front(log)) == Some(CounterOf(Front(times), window));
    }
  }

  // The counter counts the latest attacks, back to the one that opened its window;
  // they all fit in one window, and the window before it was over by then.
  lemma {:induction false} CounterSpans(times: seq<int>, window: int)
    requires times != [] && window > 0
    ensures var c := CounterOf(times, window);
            && 1 <= c.count <= |times|
            && c.start == times[|times| - c.count]
            && Last(times) - c.start <= window
            && (c.count < |times| ==> c.start - CounterOf(times[..|times| - c.count], window).start > window)
  {
    CounterStep(times, window);
    if |times| > 1 {
      var front := Front(times);
      CounterSpans(front, window);
      var c := CounterOf(times, window);
      assert times[..|times| - 1] == front;
      if c.count > 1 {
        assert times[..|times| - c.count] == front[..|front| - CounterOf(front, window).count];
      }
    }
  }

  // A count of n means n attacks within one window length of the last.
  lemma CountMeansBurst(times: seq<int>, window: int, n: nat)
    requires times != [] && window > 0 && Sorted(times) && 1 <= n <= CounterOf(times, window).count
    ensures n <= |times| && Last(times) - times[|times| - n] <= window
  {
    CounterSpans(times, window);
  }

  // Attacks i to i + n - 1 lie within one window length, and there are enough of
  // them for two fixed windows to be unable to share them below the threshold.
  lemma BurstReachesThreshold(times: seq<int>, window: int, threshold: int, i: nat, n: nat) returns (j: nat)
    requires window > 0 && Sorted(times)
    requires n >= 1 && n >= 2 * threshold - 2
    requires i + n <= |times| && times[i + n - 1] - times[i] <= window
    ensures i <= j < i + n && CountAt(times, j, window) >= threshold
  {
    var last := i + n - 1;
    var upto := times[..last + 1];
    CounterSpans(upto, window);
    var c := CounterOf(upto, window);
    var first := |upto| - c.count;
    if first <= i || c.count >= threshold {
      j := last;
    } else {
      // the window of the last attack opened inside the burst
      var before := times[..first];
      assert upto[..first] == before;
      CounterSpans(before, window);
      // the window before it opened earlier than the burst began
      assert CounterOf(before, window).start < times[i];
      j := first - 1;
    }
  }

  // One attack fewer is not enough: for every threshold above one and every
  // window, two full windows meet here without any count reaching the threshold.
  function Straddle(threshold: nat, window: int): seq<int>
    requires threshold >= 2
  {
    seq(2 * threshold - 2, i => if i == 0 then 0 else if i < threshold - 1 then window else window + 1)
  }

  lemma {:induction false} StraddleCounts(threshold: nat, window: int, j: nat)
    requires threshold >= 2 && window > 0 && j < 2 * threshold - 2
    ensures CounterOf(Straddle(threshold, window)[..j + 1], window) ==
            if j < threshold - 1 then Counter(j + 1, 0, window) else Counter(j - threshold + 2, window + 1, window)
  {
    var times := Straddle(threshold, window)[..j + 1];
    CounterStep(times, window);
    if j > 0 {
      assert Front(times) == Straddle(threshold, window)[..j];
      StraddleCounts(threshold, window, j - 1);
    }
  }

  // The last 2 * threshold - 3 attacks of the straddle lie within one window
  // length and none of the counts reaches the threshold.
  lemma BoundIsSharp(threshold: nat, window: int)
    requires threshold >= 2 && window > 0
    ensures var times := Straddle(threshold, window);
            && Sorted(times) && |times| == 1 + (2 * threshold - 3)
            && Last(times) - times[1] <= window
            && forall j :: 0 <= j < |times| ==> CountAt(times, j, window) < threshold
  {
    forall j | 0 <= j < 2 * threshold - 2
      ensures CountAt(Straddle(threshold, window), j, window) < threshold
    {
      StraddleCounts(threshold, window, j);
    }
  }

  // ---- runs ----

  // When the address was attacked, and what RecordAttack answered each time.
  ghost function Attacks(ops: seq<Op>, ip: string): seq<int> {
    if ops == [] then []
    else Attacks(Front(ops), ip) + if Last(ops).Attack? && Last(ops).ip == ip then [Last(ops).time] else []
  }

  ghost function Verdicts(p: Policy, ops: seq<Op>, ip: string): seq<bool> {
    if ops == [] then []
    else Verdicts(p, Front(ops), ip) + if Last(ops).Attack? && Last(ops).ip == ip then [FiresLast(p, ops, ip)] else []
  }

  // Only RecordAttack increments the counter of the address.
  ghost predicate OnlyAttacksCount(ops: seq<Op>, ip: string) {
    forall i :: 0 <= i < |ops| && ops[i].Traffic? && ops[i].op.Incr? ==> ops[i].op.key != ip
  }

  lemma {:induction false} AttacksAreSorted(ops: seq<Op>, ip: string, now: int)
    requires Timely(ops, now)
    ensures Sorted(Attacks(ops, ip))
    ensures forall i :: 0 <= i < |Attacks(ops, ip)| ==> Attacks(ops, ip)[i] <= now
  {
    if ops != [] {
      AttacksAreSorted(Front(ops), ip, At(Last(ops)));
    }
  }

  lemma HitsSnoc(log: seq<B.Op>, op: B.Op, key: string)
    ensures B.Hits(log + [op], key) ==
            B.Hits(log, key) + if op.Incr? && op.key == key then [Hit(op.at, op.window)] else []
  {
    FrontOfSnoc(log, op);
    assert B.Hits(log, key) + [] == B.Hits(log, key);
  }

  lemma TimelySnoc(log: seq<B.Op>, op: B.Op)
    requires B.Timely(log, op.at)
    ensures B.Timely(log + [op], op.at)
  {
  }

  // What one operation of the blacklist adds to the log of its backend.
  lemma RequestsHits(p: Policy, log: seq<B.Op>, op: Op, ip: string)
    requires B.Timely(log, At(op))
    requires op.Traffic? && op.op.Incr? ==> op.op.key != ip
    ensures B.Timely(log + Requests(p, log, op), At(op))
    ensures B.Hits(log + Requests(p, log, op), ip) ==
            B.Hits(log, ip) + if op.Attack? && op.ip == ip then [Hit(op.time, p.window)] else []
  {
    hide B.Hits, Fires;
    var requests := Requests(p, log, op);
    HitsSnoc(log, requests[0], ip);
    TimelySnoc(log, requests[0]);
    if |requests| == 1 {
      assert requests == [requests[0]];
    } else {
      assert log + requests == log + [requests[0]] + [requests[1]];
      HitsSnoc(log + [requests[0]], requests[1], ip);
      TimelySnoc(log + [requests[0]], requests[1]);
    }
  }

  lemma {:induction false} LogHits(p: Policy, ops: seq<Op>, ip: string, now: int)
    requires Timely(ops, now) && OnlyAttacksCount(ops, ip)
    ensures B.Timely(Log(p, ops), now)
    ensures B.Hits(Log(p, ops), ip) == Constant(Attacks(ops, ip), p.window)
  {
    if ops != [] {
      hide Requests, Constant, B.Hits, B.Timely;
      LogHits(p, Front(ops), ip, At(Last(ops)));
      RequestsHits(p, Log(p, Front(ops)), Last(ops), ip);
      TimelyLater(Log(p, ops), At(Last(ops)), now);
      ConstantSnoc(Attacks(Front(ops), ip), At(Last(ops)), p.window);
    } else {
      assert Constant([], p.window) == [];
    }
  }

  lemma TimelyLater(log: seq<B.Op>, earlier: int, now: int)
    requires B.Timely(log, earlier) && earlier <= now
    ensures B.Timely(log, now)
  {
  }

  lemma ConstantSnoc(times: seq<int>, t: int, window: int)
    ensures Constant(times + [t], window) == Constant(times, window) + [Hit(t, window)]
    ensures Constant(times + [], window) == Constant(times, window) + []
  {
    assert times + [] == times;
  }

  lemma ConstantIsSettled(times: seq<int>, window: int)
    requires window > 0
    ensures Settled(Constant(times, window))
  {
  }

  // Each verdict says whether the count at that attack reached the threshold.
  ghost predicate AreCounts(verdicts: seq<bool>, times: seq<int>, p: Policy) {
    && |verdicts| == |times|
    && forall j :: 0 <= j < |times| ==> (verdicts[j] <==> CountAt(times, j, p.window) >= p.threshold)
  }

  lemma OneMoreVerdict(verdicts: seq<bool>, times: seq<int>, p: Policy, verdict: bool, t: int)
    requires AreCounts(verdicts, times, p)
    requires verdict <==> CounterOf(times + [t], p.window).count >= p.threshold
    ensures AreCounts(verdicts + [verdict], times + [t], p)
  {
    hide CounterOf;
    forall j | 0 <= j < |times| ensures CountAt(times + [t], j, p.window) == CountAt(times, j, p.window) {
      assert (times + [t])[..j + 1] == times[..j + 1];
    }
    assert (times + [t])[..|times| + 1] == times + [t];
  }

  // Every answer of RecordAttack is the count over the attack times.
  lemma {:induction false} VerdictsAreCounts(p: Policy, ops: seq<Op>, ip: string, now: int)
    requires Timely(ops, now) && OnlyAttacksCount(ops, ip) && p.window > 0
    ensures AreCounts(Verdicts(p, ops, ip), Attacks(ops, ip), p)
  {
    if ops != [] {
      hide FiresLast, CounterOf, AreCounts;
      var front, op := Front(ops), Last(ops);
      VerdictsAreCounts(p, front, ip, At(op));
      if op.Attack? && op.ip == ip {
        LastVerdict(p, ops, ip);
        OneMoreVerdict(Verdicts(p, front, ip), Attacks(front, ip), p, FiresLast(p, ops, ip), op.time);
      } else {
        assert Attacks(ops, ip) == Attacks(front, ip) && Verdicts(p, ops, ip) == Verdicts(p, front, ip);
      }
    } else {
      assert Verdicts(p, ops, ip) == [] && Attacks(ops, ip) == [];
    }
  }

  lemma LastVerdict(p: Policy, ops: seq<Op>, ip: string)
    requires ops != [] && Last(ops).Attack? && Last(ops).ip == ip
    requires Timely(ops, Last(ops).time) && OnlyAttacksCount(ops, ip) && p.window > 0
    ensures FiresLast(p, ops, ip) <==> CounterOf(Attacks(ops, ip), p.window).count >= p.threshold
  {
    hide B.MemRun, Log, Fold;
    var log, t, times := Log(p, Front(ops)), Last(ops).time, Attacks(Front(ops), ip);
    LogHits(p, Front(ops), ip, t);
    ConstantSnoc(times, t, p.window);
    ConstantIsSettled(times + [t], p.window);
    B.SettledRefinesHistory(log, ip, Hit(t, p.window), t);
  }

  // One attack at each of the given instants.
  ghost function AttackRun(times: seq<int>, ip: string): seq<Op> {
    seq(|times|, i requires 0 <= i < |times| => Attack(times[i], ip))
  }

  lemma {:induction false} AttackRunAttacks(times: seq<int>, ip: string)
    ensures Attacks(AttackRun(times, ip), ip) == times
  {
    if times != [] {
      assert Front(AttackRun(times, ip)) == AttackRun(Front(times), ip);
      AttackRunAttacks(Front(times), ip);
    }
  }

  // In a run, 2 * Threshold - 3 attacks within one window length can all be answered
  // with false.
  lemma SharpRun(p: Policy, ip: string) returns (ops: seq<Op>)
    requires p.threshold >= 2 && p.window > 0
    ensures Timely(ops, p.window + 1) && OnlyAttacksCount(ops, ip)
    ensures var times := Attacks(ops, ip);
            && |times| == 1 + (2 * p.threshold - 3) && Last(times) - times[1] <= p.window
            && |Verdicts(p, ops, ip)| == |times|
            && forall j :: 0 <= j < |times| ==> !Verdicts(p, ops, ip)[j]
  {
    hide Verdicts, Attacks, CountAt;
    var times := Straddle(p.threshold, p.window);
    ops := AttackRun(times, ip);
    AttackRunAttacks(times, ip);
    BoundIsSharp(p.threshold, p.window);
    VerdictsAreCounts(p, ops, ip, p.window + 1);
  }

  // RecordAttack returns true only if Threshold attacks of the address fell within
  // one window length, this one the last of them.
  lemma FiresOnlyOnBurst(p: Policy, ops: seq<Op>, ip: string, now: int, j: nat)
    requires Timely(ops, now) && OnlyAttacksCount(ops, ip) && p.window > 0 && p.threshold >= 1
    requires j < |Verdicts(p, ops, ip)| && Verdicts(p, ops, ip)[j]
    ensures |Attacks(ops, ip)| == |Verdicts(p, ops, ip)|
    ensures var times := Attacks(ops, ip);
            p.threshold <= j + 1 && times[j] - times[j + 1 - p.threshold] <= p.window
  {
    hide Verdicts, Attacks, CounterOf;
    var times := Attacks(ops, ip);
    VerdictsAreCounts(p, ops, ip, now);
    AttacksAreSorted(ops, ip, now);
    CountMeansBurst(times[..j + 1], p.window, p.threshold);
  }

  // Among 2 * Threshold - 2 attacks within one window length (one attack, for a
  // threshold of one) some call returns true.
  lemma BurstFires(p: Policy, ops: seq<Op>, ip: string, now: int, i: nat, n: nat)
    requires Timely(ops, now) && OnlyAttacksCount(ops, ip) && p.window > 0
    requires n >= 1 && n >= 2 * p.threshold - 2
    requires var times := Attacks(ops, ip); i + n <= |times| && times[i + n - 1] - times[i] <= p.window
    ensures |Attacks(ops, ip)| == |Verdicts(p, ops, ip)|
    ensures exists j :: i <= j < i + n && Verdicts(p, ops, ip)[j]
  {
    hide Verdicts, Attacks, CounterOf;
    VerdictsAreCounts(p, ops, ip, now);
    AttacksAreSorted(ops, ip, now);
    var j := BurstReachesThreshold(Attacks(ops, ip), p.window, p.threshold, i, n);
    assert Verdicts(p, ops, ip)[j];
  }
}
