// Credential stuffing as the documentation tells it, StuffingLimit distinct
// identities inside FailureWindow, against what the list of a client counts.
module StuffingWindow {
  import opened Prelude
  import opened CappedList
  import opened EpochWindows
  import opened TrackerModel
  import opened TrackerSpec
  import opened TrackerRuns
  import opened ListHistory
  import opened LoginHistory
  import L = Lockouts

  // The distinct identities that failed from the client in the last FailureWindow.
  ghost function FailedInWindow(c: Config, ops: seq<Op>, ip: string, now: int): set<Name> {
    Recent(StuffingLog(c, ops, ip), c.FailureWindow(), now)
  }

  // Those of the live epoch of its list.
  ghost function FailedInEpoch(c: Config, ops: seq<Op>, ip: string, now: int): set<Name> {
    Live(StuffingLog(c, ops, ip), c.StuffingLimit(), c.FailureWindow(), now)
  }

  // Where that epoch begins in the log.
  ghost function EpochStart(c: Config, ops: seq<Op>, ip: string, now: int): nat {
    LiveFrom(StuffingLog(c, ops, ip), c.StuffingLimit(), c.FailureWindow(), now)
  }

  // An identity that is not locked is turned away exactly if the live epoch holds
  // StuffingLimit distinct identities.
  lemma DeniedIffEpochIsFull(c: Config, ops: seq<Op>, id: string, ip: string, now: int)
    requires Timely(ops, now) && ip != ""
    requires id == "" || LockedUntil(Run(c, ops), id, now) == None
    ensures CheckLogin(c, Run(c, ops), id, ip, now) ==
            if |FailedInEpoch(c, ops, ip, now)| >= c.StuffingLimit() then Deny("credential_stuffing") else Pass
  {
    hide Run, StuffingLog, CheckLogin, LockedUntil, Epochs, Live;
    StuffingDeniedIff(c, ops, id, ip, now);
    CountIsLive(StuffingLog(c, ops, ip), c.StuffingLimit(), c.FailureWindow(), now);
  }

  // Every answer of CheckLogin, from the failures and clears of the identity and the
  // failures from the client alone.
  lemma LoginFollowsHistory(c: Config, ops: seq<Op>, id: string, ip: string, now: int)
    requires Timely(ops, now)
    ensures CheckLogin(c, Run(c, ops), id, ip, now) ==
            var deadline := L.Deadline(c, FailureLog(c, ops, id));
            if id != "" && deadline.Some? && now < deadline.value * SECOND then Deny("token_locked")
            else if ip != "" && |FailedInEpoch(c, ops, ip, now)| >= c.StuffingLimit() then Deny("credential_stuffing")
            else Pass
  {
    hide Run, FailureLog, L.Deadline, FailedInEpoch, LockedUntil, StuffingCount;
    if id != "" {
      L.LockFollowsFailures(c, ops, id, now);
    }
    if ip != "" && (id == "" || LockedUntil(Run(c, ops), id, now) == None) {
      DeniedIffEpochIsFull(c, ops, id, ip, now);
    }
  }

  // ---- under-counting ----

  // The epoch has every identity of the window exactly if none of them failed only
  // before it began.
  lemma NoSweepIsMissedIff(c: Config, ops: seq<Op>, ip: string, now: int)
    ensures FailedInWindow(c, ops, ip, now) <= FailedInEpoch(c, ops, ip, now) <==>
            NothingLost(StuffingLog(c, ops, ip), c.StuffingLimit(), c.FailureWindow(), now)
  {
    hide StuffingLog, Live, Recent, NothingLost;
    EpochCoversWindowIff(StuffingLog(c, ops, ip), c.StuffingLimit(), c.FailureWindow(), now);
  }

  // A sweep of the window that passes has such a failure, and it was the failure
  // of an identity the list held already.
  lemma MissedSweepIsOldRepeat(c: Config, ops: seq<Op>, ip: string, now: int) returns (i: nat)
    requires Timely(ops, now)
    requires |FailedInWindow(c, ops, ip, now)| >= c.StuffingLimit() > |FailedInEpoch(c, ops, ip, now)|
    ensures i < |StuffingLog(c, ops, ip)| && i < EpochStart(c, ops, ip, now)
    ensures var log := StuffingLog(c, ops, ip);
            && now - log[i].at <= c.FailureWindow()
            && log[i].x !in FailedInEpoch(c, ops, ip, now)
            && !Inserts(log, i, c.StuffingLimit(), c.FailureWindow())
  {
    hide StuffingLog, Live, Recent, Epochs;
    var log, cap, w := StuffingLog(c, ops, ip), c.StuffingLimit(), c.FailureWindow();
    if Recent(log, w, now) <= Live(log, cap, w, now) {
      SubsetSize(Recent(log, w, now), Live(log, cap, w, now));
    }
    EpochCoversWindowIff(log, cap, w, now);
    i :| 0 <= i < LiveFrom(log, cap, w, now) && now - log[i].at <= w && log[i].x !in Live(log, cap, w, now);
    StuffingLogIsSorted(c, ops, ip, now);
    if Inserts(log, i, cap, w) {
      LostIsRepeated(log, i, cap, w, now);
    }
  }

  lemma {:induction false} StuffingLogIsSorted(c: Config, ops: seq<Op>, ip: string, now: int)
    requires Timely(ops, now)
    ensures Sorted(StuffingLog(c, ops, ip), now)
  {
    if ops != [] {
      hide EffectOf, Run;
      EffectTime(c, Run(c, Front(ops)), Last(ops));
      StuffingLogIsSorted(c, Front(ops), ip, Last(ops).at);
    }
  }

  // ---- over-counting ----

  // The epoch has no identity but those of the window exactly if each of them
  // failed again recently enough.
  lemma NoSweepIsStaleIff(c: Config, ops: seq<Op>, ip: string, now: int)
    ensures FailedInEpoch(c, ops, ip, now) <= FailedInWindow(c, ops, ip, now) <==>
            NothingStale(StuffingLog(c, ops, ip), c.StuffingLimit(), c.FailureWindow(), now)
  {
    hide StuffingLog, Live, Recent, NothingStale;
    WindowCoversEpochIff(StuffingLog(c, ops, ip), c.StuffingLimit(), c.FailureWindow(), now);
  }

  // A client turned away for fewer than StuffingLimit identities of the window has
  // an identity in its epoch that has not failed for a FailureWindow.
  lemma StaleSweepHasOldIdentity(c: Config, ops: seq<Op>, ip: string, now: int) returns (i: nat)
    requires |FailedInEpoch(c, ops, ip, now)| >= c.StuffingLimit() > |FailedInWindow(c, ops, ip, now)|
    ensures EpochStart(c, ops, ip, now) <= i < |StuffingLog(c, ops, ip)|
    ensures !PresentedWithin(StuffingLog(c, ops, ip), StuffingLog(c, ops, ip)[i].x, c.FailureWindow(), now)
  {
    hide StuffingLog, Live, Recent, Epochs, LiveFrom, PresentedWithin;
    var log, cap, w := StuffingLog(c, ops, ip), c.StuffingLimit(), c.FailureWindow();
    if Live(log, cap, w, now) <= Recent(log, w, now) {
      SubsetSize(Live(log, cap, w, now), Recent(log, w, now));
    }
    WindowCoversEpochIff(log, cap, w, now);
    i :| LiveFrom(log, cap, w, now) <= i < |log| && !PresentedWithin(log, log[i].x, w, now);
  }

  // With nothing lost and nothing stale the answer is the documented one.
  lemma DocumentedWhenSetsAgree(c: Config, ops: seq<Op>, ip: string, now: int)
    requires Timely(ops, now) && ip != ""
    requires NothingLost(StuffingLog(c, ops, ip), c.StuffingLimit(), c.FailureWindow(), now)
    requires NothingStale(StuffingLog(c, ops, ip), c.StuffingLimit(), c.FailureWindow(), now)
    ensures CheckLogin(c, Run(c, ops), "", ip, now) ==
            if |FailedInWindow(c, ops, ip, now)| >= c.StuffingLimit() then Deny("credential_stuffing") else Pass
  {
    hide Run, CheckLogin, FailedInWindow, FailedInEpoch, StuffingLog, NothingLost, NothingStale;
    NoSweepIsMissedIff(c, ops, ip, now);
    NoSweepIsStaleIff(c, ops, ip, now);
    assert FailedInWindow(c, ops, ip, now) == FailedInEpoch(c, ops, ip, now);
    DeniedIffEpochIsFull(c, ops, "", ip, now);
  }

  // ---- both happen ----

  // Failures of the given identities from one client.
  ghost function Failures(ids: seq<string>, times: seq<int>): seq<Op>
    requires |ids| == |times|
  {
    seq(|ids|, i requires 0 <= i < |ids| => RecordFailureOp(times[i], ids[i], "ip"))
  }

  ghost function Presented(ids: seq<string>, times: seq<int>): seq<Presentation<Name>>
    requires |ids| == |times|
  {
    seq(|ids|, i requires 0 <= i < |ids| => Presentation(Sha256(ids[i]), times[i]))
  }

  lemma {:induction false} FailuresPresent(c: Config, ids: seq<string>, times: seq<int>)
    requires |ids| == |times| && forall i :: 0 <= i < |ids| ==> ids[i] != ""
    ensures StuffingLog(c, Failures(ids, times), "ip") == Presented(ids, times)
  {
    if ids != [] {
      hide Run, StuffingLog, Failures, Presented;
      FailuresGrow(ids, times);
      FailuresPresent(c, Front(ids), Front(times));
      OneMorePresentation(c, Failures(Front(ids), Front(times)), Last(ids), Last(times));
    }
  }

  lemma FailuresGrow(ids: seq<string>, times: seq<int>)
    requires |ids| == |times| > 0
    ensures Failures(ids, times) ==
            Failures(Front(ids), Front(times)) + [RecordFailureOp(Last(times), Last(ids), "ip")]
    ensures Presented(ids, times) ==
            Presented(Front(ids), Front(times)) + [Presentation(Sha256(Last(ids)), Last(times))]
  {
  }

  lemma OneMorePresentation(c: Config, ops: seq<Op>, id: string, at: int)
    requires id != ""
    ensures StuffingLog(c, ops + [RecordFailureOp(at, id, "ip")], "ip") ==
            StuffingLog(c, ops, "ip") + [Presentation(Sha256(id), at)]
  {
    hide Run;
    FrontOfSnoc(ops, RecordFailureOp(at, id, "ip"));
  }

  lemma FirstEpoch(log: seq<Presentation<Name>>, cap: nat, ttl: int)
    requires |log| == 1 && cap > 0
    ensures Epochs(log, cap, ttl) == Epoch({log[0].x}, [log[0].x], log[0].at + ttl, 0)
  {
    assert Front(log) == [];
  }

  // With a limit of two: b fails one nanosecond after a, and the client passes. The
  // second failure of a did not renew the list, which died between the two.
  lemma SweepCanPass(c: Config)
    requires c.StuffingLimit() == 2
    ensures var w := c.FailureWindow();
            var ops := Failures(["a", "a", "b"], [0, w, w + 1]);
            && Timely(ops, w + 1)
            && {Sha256("a"), Sha256("b")} <= FailedInWindow(c, ops, "ip", w + 1)
            && CheckLogin(c, Run(c, ops), "", "ip", w + 1) == Pass
  {
    hide Run, CheckLogin;
    var w := c.FailureWindow();
    var ids, times := ["a", "a", "b"], [0, w, w + 1];
    var ops, log := Failures(ids, times), Presented(ids, times);
    FailuresPresent(c, ids, times);
    assert log[1].x == Sha256("a") && log[2].x == Sha256("b");
    assert Front(log) == Presented(["a", "a"], [0, w]) && Front(Front(log)) == Presented(["a"], [0]);
    assert Front(Front(Front(log))) == [];
    FirstEpoch(Front(Front(log)), 2, w);
    assert Epochs(Front(log), 2, w) == Epoch({Sha256("a")} + {Sha256("a")}, [Sha256("a")], w, 0);
    assert Epochs(log, 2, w) == Epoch({Sha256("b")}, [Sha256("b")], w + 1 + w, 2);
    StuffingDeniedIff(c, ops, "", "ip", w + 1);
  }

  // With the same limit: b fails one FailureWindow after a, and one FailureWindow
  // later the client is still turned away for a single recent identity.
  lemma StaleSweepCanBeDenied(c: Config)
    requires c.StuffingLimit() == 2
    ensures var w := c.FailureWindow();
            var ops := Failures(["a", "b"], [0, w]);
            && Timely(ops, w + w)
            && FailedInWindow(c, ops, "ip", w + w) == {Sha256("b")}
            && CheckLogin(c, Run(c, ops), "", "ip", w + w) == Deny("credential_stuffing")
  {
    hide Run, CheckLogin;
    var w := c.FailureWindow();
    var ids, times := ["a", "b"], [0, w];
    var ops, log := Failures(ids, times), Presented(ids, times);
    FailuresPresent(c, ids, times);
    assert log[1].x == Sha256("b") && log[1].at == w && log[0].at == 0;
    assert Front(log) == Presented(["a"], [0]) && Front(Front(log)) == [];
    FirstEpoch(Front(log), 2, w);
    assert Epochs(log, 2, w) == Epoch({Sha256("a")} + {Sha256("b")}, [Sha256("a")] + [Sha256("b")], w + w, 0);
    assert |{Sha256("a")} + {Sha256("b")}| == 2;
    StuffingDeniedIff(c, ops, "", "ip", w + w);
  }
}
