// The two capped lists of a Tracker as functions of history: the identities one
// client failed against, and the networks a user logged in from.
module ListHistory {
  import opened Prelude
  import opened TtlMap
  import opened CappedList
  import opened TrackerModel
  import opened TrackerSpec
  import opened TrackerRuns

  // The hashed identities that failed from one client address.
  ghost function StuffingLog(c: Config, ops: seq<Op>, ip: string): seq<Presentation<Name>> {
    if ops == [] then []
    else
      var log := StuffingLog(c, Front(ops), ip);
      match EffectOf(c, Run(c, Front(ops)), Last(ops))
      case Failed(id, from, t) => if from == ip && id != "" then log + [Presentation(Sha256(id), t)] else log
      case _ => log
  }

  // The networks presented to Observe for one user.
  ghost function NetworkLog(c: Config, ops: seq<Op>, user: string): seq<Presentation<Name>> {
    if ops == [] then []
    else
      var log := NetworkLog(c, Front(ops), user);
      match Last(ops)
      case ObserveOp(at, u, ip) => if u == user then log + [Presentation(Network(NetworkOf(c, ip)), at)] else log
      case _ => log
  }

  // The list under key is what the epoch leaves behind, for as long as it lives.
  ghost predicate Lists(s: State, key: Key, e: Epoch<Name>, cap: nat, now: int) {
    if key in s then
      e.inserted != [] && s[key] == Entry(Names(LastN(e.inserted, cap)), e.expires)
    else
      e.inserted == [] || now > e.expires
  }

  lemma ListedNames(s: State, key: Key, e: Epoch<Name>, cap: nat, now: int)
    requires Lists(s, key, e, cap, now)
    ensures LoadNames(s, key, now) == Some(if e.inserted == [] || now > e.expires then [] else LastN(e.inserted, cap))
  {
  }

  // The store after the list keeper was given x at time t.
  ghost function Remembered(s: State, key: Key, x: Name, cap: nat, ttl: int, t: int): State
    requires LoadNames(s, key, t).Some?
  {
    var names := LoadNames(s, key, t).value;
    if x in names then s else Save(s, key, Names(Remember(names, x, cap)), ttl, t)
  }

  lemma RememberedIsListed(s: State, s': State, key: Key, log: seq<Presentation<Name>>, x: Name, cap: nat, ttl: int,
                           t: int, now: int)
    requires cap > 0 && ttl > 0 && t <= now
    requires Lists(s, key, Epochs(log, cap, ttl), cap, t)
    requires LoadNames(s, key, t).Some?
    requires AgreeOn(Remembered(s, key, x, cap, ttl, t), s', key)
    ensures Lists(s', key, Epochs(log + [Presentation(x, t)], cap, ttl), cap, now)
  {
    var e := Epochs(log, cap, ttl);
    ListedNames(s, key, e, cap, t);
    FrontOfSnoc(log, Presentation(x, t));
    RememberFollowsEpoch(e.inserted, x, cap);
    assert [] + [x] == [x];
  }

  ghost predicate AgreeOn(s: State, s': State, key: Key) {
    (key in s <==> key in s') && (key in s ==> s'[key] == s[key])
  }

  // ---- what each operation does to the lists ----

  lemma StuffingStep(c: Config, s: State, op: Op, id: string, ip: string, t: int)
    requires WellTyped(s) && id != "" && ip != "" && EffectOf(c, s, op) == Failed(id, ip, t)
    ensures LoadNames(s, StuffingKey(ip), t).Some?
    ensures AgreeOn(Remembered(s, StuffingKey(ip), Sha256(id), c.StuffingLimit(), c.FailureWindow(), t),
                    Step(c, s, op), StuffingKey(ip))
  {
    hide LockoutOf, Count, Crosses, CheckLogin, Remember;
    PunishEntries(c, s, id, t);
    var punished := Punish(c, s, id, t);
    assert AgreeOn(s, punished, StuffingKey(ip));
    PunishKeepsTypes(c, s, id, t);
  }

  lemma StuffingUntouched(c: Config, s: State, op: Op, ip: string)
    requires WellTyped(s) && ip != ""
    requires var e := EffectOf(c, s, op); e.Failed? && e.id != "" ==> e.ip != ip
    ensures Untouched(s, Step(c, s, op), op, StuffingKey(ip))
  {
    hide LockoutOf, Count, Crosses, CheckLogin, CheckVerdict, Bind, NetworkOf, LoadNames, Punish;
    var e := EffectOf(c, s, op);
    if e.Failed? && e.id != "" {
      FailureEntries(c, s, e.id, e.ip, e.at);
      PunishEntries(c, s, e.id, e.at);
    }
  }

  lemma NetworksUntouched(c: Config, s: State, op: Op, user: string)
    requires WellTyped(s)
    requires op.ObserveOp? ==> op.user != user || user == ""
    ensures Untouched(s, Step(c, s, op), op, NetsKey(user))
  {
    hide LockoutOf, Count, Crosses, CheckLogin, CheckVerdict, Bind, NetworkOf, LoadNames, Punish;
    var e := EffectOf(c, s, op);
    if e.Failed? && e.id != "" {
      FailureEntries(c, s, e.id, e.ip, e.at);
      PunishEntries(c, s, e.id, e.at);
    }
  }

  // ---- runs ----

  lemma {:induction false} StuffingTracked(c: Config, ops: seq<Op>, ip: string, now: int)
    requires Timely(ops, now) && ip != ""
    ensures Lists(Run(c, ops), StuffingKey(ip),
                  Epochs(StuffingLog(c, ops, ip), c.StuffingLimit(), c.FailureWindow()), c.StuffingLimit(), now)
  {
    hide Step, EffectOf, Remember, Remembered, LoadNames, Epochs;
    if ops == [] {
      assert Epochs<Name>([], c.StuffingLimit(), c.FailureWindow()).inserted == [] by {
        NoEpochYet<Name>(c.StuffingLimit(), c.FailureWindow());
      }
    } else {
      var s, op := Run(c, Front(ops)), Last(ops);
      var e := EffectOf(c, s, op);
      RunIsWellTyped(c, Front(ops));
      EffectTime(c, s, op);
      if e.Failed? && e.ip == ip && e.id != "" {
        StuffingTracked(c, Front(ops), ip, e.at);
        StuffingStep(c, s, op, e.id, ip, e.at);
        RememberedIsListed(s, Step(c, s, op), StuffingKey(ip), StuffingLog(c, Front(ops), ip), Sha256(e.id),
                           c.StuffingLimit(), c.FailureWindow(), e.at, now);
      } else {
        StuffingTracked(c, Front(ops), ip, op.at);
        StuffingUntouched(c, s, op, ip);
      }
    }
  }

  lemma NoEpochYet<T>(cap: nat, ttl: int)
    requires cap > 0
    ensures Epochs<T>([], cap, ttl).inserted == []
  {
  }

  lemma ObserveStep(c: Config, s: State, op: Op)
    requires WellTyped(s) && op.ObserveOp? && op.user != ""
    ensures LoadNames(s, NetsKey(op.user), op.at).Some?
    ensures Step(c, s, op) ==
            Remembered(s, NetsKey(op.user), Network(NetworkOf(c, op.ip)), c.KnownNets(), c.KnownNetTtl(), op.at)
  {
    hide NetworkOf, Remember;
  }

  lemma {:induction false} NetworksTracked(c: Config, ops: seq<Op>, user: string, now: int)
    requires Timely(ops, now) && user != ""
    ensures Lists(Run(c, ops), NetsKey(user),
                  Epochs(NetworkLog(c, ops, user), c.KnownNets(), c.KnownNetTtl()), c.KnownNets(), now)
  {
    hide Step, EffectOf, Remember, Remembered, LoadNames, Epochs, NetworkOf;
    if ops == [] {
      assert Epochs<Name>([], c.KnownNets(), c.KnownNetTtl()).inserted == [] by {
        NoEpochYet<Name>(c.KnownNets(), c.KnownNetTtl());
      }
    } else {
      var s, op := Run(c, Front(ops)), Last(ops);
      RunIsWellTyped(c, Front(ops));
      NetworksTracked(c, Front(ops), user, op.at);
      if op.ObserveOp? && op.user == user {
        ObserveStep(c, s, op);
        RememberedIsListed(s, Step(c, s, op), NetsKey(user), NetworkLog(c, Front(ops), user),
                           Network(NetworkOf(c, op.ip)), c.KnownNets(), c.KnownNetTtl(), op.at, now);
      } else {
        NetworksUntouched(c, s, op, user);
      }
    }
  }

  // ---- answers ----

  // The stuffing count is the number of distinct identities that failed from the
  // client in the live epoch, up to StuffingLimit; the list holds no identity
  // twice.
  lemma StuffingCountIsDistinctFailures(c: Config, ops: seq<Op>, ip: string, now: int)
    requires Timely(ops, now) && ip != ""
    ensures var e := Epochs(StuffingLog(c, ops, ip), c.StuffingLimit(), c.FailureWindow());
            && StuffingCount(Run(c, ops), ip, now) ==
               (if e.inserted == [] || now > e.expires then 0
                else if |e.presented| < c.StuffingLimit() then |e.presented| else c.StuffingLimit())
            && LoadNames(Run(c, ops), StuffingKey(ip), now).Some?
            && Distinct(LoadNames(Run(c, ops), StuffingKey(ip), now).value)
  {
    hide Run, StuffingLog, Epochs;
    var log := StuffingLog(c, ops, ip);
    StuffingTracked(c, ops, ip, now);
    ListedNames(Run(c, ops), StuffingKey(ip), Epochs(log, c.StuffingLimit(), c.FailureWindow()), c.StuffingLimit(),
                now);
    CountIsDistinctUpToCap(log, c.StuffingLimit(), c.FailureWindow());
    EpochsExplain(log, c.StuffingLimit(), c.FailureWindow());
  }

  // An identity that is not locked is turned away exactly if the client has failed
  // against StuffingLimit distinct identities in the live epoch.
  lemma StuffingDeniedIff(c: Config, ops: seq<Op>, id: string, ip: string, now: int)
    requires Timely(ops, now) && ip != ""
    requires id == "" || LockedUntil(Run(c, ops), id, now) == None
    ensures var e := Epochs(StuffingLog(c, ops, ip), c.StuffingLimit(), c.FailureWindow());
            CheckLogin(c, Run(c, ops), id, ip, now) ==
            if e.inserted != [] && now <= e.expires && |e.presented| >= c.StuffingLimit()
            then Deny("credential_stuffing") else Pass
  {
    hide Run, StuffingLog, Epochs, StuffingCount, LockedUntil;
    StuffingCountIsDistinctFailures(c, ops, ip, now);
  }

  // Observe alerts exactly when the user has a live baseline and the network is
  // not among the last KnownNets that were inserted into it.
  lemma ObserveAlertsIff(c: Config, ops: seq<Op>, user: string, ip: string, now: int)
    requires Timely(ops, now) && user != ""
    ensures var e := Epochs(NetworkLog(c, ops, user), c.KnownNets(), c.KnownNetTtl());
            var older := if |e.inserted| > c.KnownNets() then |e.inserted| - c.KnownNets() else 0;
            && ObserveVerdict(c, Run(c, ops), user, ip, now) ==
               (if && e.inserted != [] && now <= e.expires
                   && Network(NetworkOf(c, ip)) !in e.inserted[older..]
                then Deny("remote_login") else Pass)
            && Distinct(e.inserted[older..])
  {
    hide Run, NetworkLog, Epochs, NetworkOf;
    EpochsExplain(NetworkLog(c, ops, user), c.KnownNets(), c.KnownNetTtl());
    var e := Epochs(NetworkLog(c, ops, user), c.KnownNets(), c.KnownNetTtl());
    NetworksTracked(c, ops, user, now);
    ListedNames(Run(c, ops), NetsKey(user), e, c.KnownNets(), now);
    TailOfInserted(e.inserted, c.KnownNets());
  }

  lemma TailOfInserted<T>(inserted: seq<T>, cap: nat)
    ensures LastN(inserted, cap) == inserted[if |inserted| > cap then |inserted| - cap else 0..]
  {
  }

  // The network a user was last seen in never alerts, however many came before it
  // and however much later the next login is.
  lemma LatestNetworkPasses(c: Config, ops: seq<Op>, user: string, ip: string, now: int)
    requires Timely(ops, now) && user != ""
    requires NetworkLog(c, ops, user) != [] && Last(NetworkLog(c, ops, user)).x == Network(NetworkOf(c, ip))
    ensures ObserveVerdict(c, Run(c, ops), user, ip, now) == Pass
  {
    hide Run, NetworkLog, Epochs, NetworkOf;
    var log := NetworkLog(c, ops, user);
    NetworksTracked(c, ops, user, now);
    ListedNames(Run(c, ops), NetsKey(user), Epochs(log, c.KnownNets(), c.KnownNetTtl()), c.KnownNets(), now);
    LatestIsListed(log, c.KnownNets(), c.KnownNetTtl());
  }

  // What a user saw inserted stays known, for one KnownNetTtl, through fewer than
  // KnownNets insertions; the next one after that pushes it out.
  lemma InsertedIsKnownIff(c: Config, ops: seq<Op>, user: string, ip: string, now: int, i: nat)
    requires Timely(ops, now) && user != ""
    requires var e := Epochs(NetworkLog(c, ops, user), c.KnownNets(), c.KnownNetTtl());
             && now <= e.expires && i < |e.inserted| && e.inserted[i] == Network(NetworkOf(c, ip))
             && e.inserted[i] !in e.inserted[i + 1..]
    ensures var e := Epochs(NetworkLog(c, ops, user), c.KnownNets(), c.KnownNetTtl());
            ObserveVerdict(c, Run(c, ops), user, ip, now) == Pass <==> |e.inserted| - i <= c.KnownNets()
  {
    hide Run, NetworkLog, Epochs, NetworkOf, ObserveVerdict;
    ObserveAlertsIff(c, ops, user, ip, now);
    var inserted := Epochs(NetworkLog(c, ops, user), c.KnownNets(), c.KnownNetTtl()).inserted;
    var older := if |inserted| > c.KnownNets() then |inserted| - c.KnownNets() else 0;
    if i < older {
      assert inserted[older..] == inserted[i + 1..][older - i - 1..];
    } else {
      assert inserted[older..][i - older] == inserted[i];
    }
  }
}
