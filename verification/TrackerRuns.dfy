// Runs of a Tracker: any sequence of its operations, in any order, with the
// reaper of the store sweeping at any time.
module TrackerRuns {
  import opened Prelude
  import opened TtlMap
  import opened TrackerModel
  import opened TrackerSpec
  import opened Decimal
  import opened Handler

  datatype Op =
    | RecordFailureOp(at: int, id: string, ip: string)
    | ClearFailuresOp(at: int, id: string)
    | GuardLoginOp(at: int, id: string, ip: string, handler: seq<Write>, answered: int)
    | SweepOp(at: int)
    | IssueOp(at: int, token: string, req: Request)
    | RevokeOp(at: int, token: string)
    | CheckOp(at: int, req: Request)
    | ObserveOp(at: int, user: string, ip: string)

  // A guarded login ends when its handler has answered.
  function End(op: Op): int {
    if op.GuardLoginOp? then op.answered else op.at
  }

  ghost function EffectOf(c: Config, s: State, op: Op): Effect {
    match op
    case RecordFailureOp(at, id, ip) => Failed(id, ip, at)
    case ClearFailuresOp(at, id) => Cleared(id)
    case GuardLoginOp(at, id, ip, handler, answered) => LoginEffect(c, s, id, ip, Recorded(handler), at, answered)
    case _ => Nothing
  }

  ghost function Step(c: Config, s: State, op: Op): State {
    match op
    case SweepOp(at) => Sweep(s, at)
    case IssueOp(at, token, req) => Issue(c, s, token, req, at)
    case RevokeOp(at, token) => Revoke(s, token)
    case CheckOp(at, req) => Check(c, s, req, at)
    case ObserveOp(at, user, ip) => Observe(c, s, user, ip, at)
    case _ => ApplyEffect(c, s, EffectOf(c, s, op))
  }

  ghost function Run(c: Config, ops: seq<Op>): State {
    if ops == [] then map[] else Step(c, Run(c, Front(ops)), Last(ops))
  }

  // Operations follow one another and the clock never goes backwards.
  ghost predicate Timely(ops: seq<Op>, now: int) {
    && (forall i :: 0 <= i < |ops| ==> ops[i].at <= End(ops[i]) <= now)
    && (forall i, j :: 0 <= i < j < |ops| ==> End(ops[i]) <= ops[j].at)
  }

  // Each key family holds its own kind of value, never under an empty name, and a
  // lockout entry never dies before the deadline inside it.
  predicate Fits(key: Key, e: Entry<Value>) {
    match key
    case SessionKey(token) => token != "" && e.value.Binding?
    case NetsKey(user) => user != "" && e.value.Names?
    case StuffingKey(ip) => ip != "" && e.value.Names?
    case FailureKey(id) => id != "" && e.value.Text? && Atoi(e.value.text) > 0
    case StrikeKey(id) => id != "" && e.value.Text? && Atoi(e.value.text) > 0
    case LockKey(id) => id != "" && e.value.Deadline? && e.value.seconds * SECOND <= e.expires
  }

  ghost predicate WellTyped(s: State) {
    forall k :: k in s ==> Fits(k, s[k])
  }

  // s' differs from s at most under the given keys.
  ghost predicate AgreeExcept(s: State, s': State, keys: set<Key>) {
    forall k :: k !in keys ==> (k in s <==> k in s') && (k in s ==> s'[k] == s[k])
  }

  lemma PunishEntries(c: Config, s: State, id: string, now: int)
    ensures var s' := Punish(c, s, id, now);
            if !Crosses(c, s, id, now) then s' == s
            else
              var strikes := Count(s, StrikeKey(id), now) + 1;
              var d := LockoutOf(c, strikes);
              && AgreeExcept(s, s', {StrikeKey(id), LockKey(id)})
              && StrikeKey(id) in s' && LockKey(id) in s'
              && s'[StrikeKey(id)] == Entry(Text(Itoa(strikes)), now + c.BackoffWindow())
              && s'[LockKey(id)] == Entry(Deadline(WholeSeconds(now + d)), now + d)
  {
  }

  lemma PunishKeepsTypes(c: Config, s: State, id: string, now: int)
    requires WellTyped(s) && id != ""
    ensures WellTyped(Punish(c, s, id, now))
  {
    hide Punish, LockoutOf;
    PunishEntries(c, s, id, now);
    ParseOfItoa(Count(s, StrikeKey(id), now) + 1);
  }

  lemma StuffEntries(c: Config, s: State, id: string, ip: string, now: int)
    requires WellTyped(s)
    ensures Stuff(c, s, id, ip, now).Some?
    ensures var s' := Stuff(c, s, id, ip, now).value;
            AgreeExcept(s, s', {StuffingKey(ip)}) && WellTyped(s')
  {
  }

  // Everything one recorded failure writes.
  lemma FailureEntries(c: Config, s: State, id: string, ip: string, now: int)
    requires WellTyped(s) && id != ""
    ensures RecordFailure(c, s, id, ip, now).1
    ensures var s' := RecordFailure(c, s, id, ip, now).0;
            && WellTyped(s')
            && FailureKey(id) in s'
            && s'[FailureKey(id)] == Entry(Text(Itoa(Count(s, FailureKey(id), now) + 1)), now + c.FailureWindow())
            && AgreeExcept(Punish(c, s, id, now), s', {FailureKey(id), StuffingKey(ip)})
  {
    ParseOfItoa(Count(s, FailureKey(id), now) + 1);
    PunishKeepsTypes(c, s, id, now);
    var punished := Punish(c, s, id, now);
    StuffEntries(c, punished, id, ip, now);
  }

  lemma StepKeepsTypes(c: Config, s: State, op: Op)
    requires WellTyped(s)
    ensures WellTyped(Step(c, s, op))
  {
    var e := EffectOf(c, s, op);
    if e.Failed? && e.id != "" {
      FailureEntries(c, s, e.id, e.ip, e.at);
    }
  }

  lemma {:induction false} RunIsWellTyped(c: Config, ops: seq<Op>)
    ensures WellTyped(Run(c, ops))
  {
    if ops != [] {
      RunIsWellTyped(c, Front(ops));
      StepKeepsTypes(c, Run(c, Front(ops)), Last(ops));
    }
  }

  // In a run no list is ever malformed, so recording a failure cannot fail.
  lemma FailuresAreRecorded(c: Config, ops: seq<Op>, id: string, ip: string, now: int)
    ensures RecordFailure(c, Run(c, ops), id, ip, now).1 <==> id != ""
  {
    RunIsWellTyped(c, ops);
    if id != "" {
      FailureEntries(c, Run(c, ops), id, ip, now);
    }
  }

  // The entry under one key after a step that does not write it.
  ghost predicate Untouched(before: State, after: State, op: Op, key: Key) {
    if op.SweepOp? && key in before && op.at > before[key].expires then key !in after
    else (key in after <==> key in before) && (key in before ==> after[key] == before[key])
  }

  // The login entries of id after an operation that records a failure of id.
  lemma FailureStep(c: Config, s: State, op: Op, id: string, ip: string, t: int)
    requires WellTyped(s) && id != "" && EffectOf(c, s, op) == Failed(id, ip, t)
    ensures var s' := Step(c, s, op);
            && End(op) == t && !op.SweepOp?
            && FailureKey(id) in s'
            && s'[FailureKey(id)] == Entry(Text(Itoa(Count(s, FailureKey(id), t) + 1)), t + c.FailureWindow())
            && (if Crosses(c, s, id, t) then
                  var strikes := Count(s, StrikeKey(id), t) + 1;
                  var d := LockoutOf(c, strikes);
                  && StrikeKey(id) in s' && LockKey(id) in s'
                  && s'[StrikeKey(id)] == Entry(Text(Itoa(strikes)), t + c.BackoffWindow())
                  && s'[LockKey(id)] == Entry(Deadline(WholeSeconds(t + d)), t + d)
                else
                  Untouched(s, s', op, StrikeKey(id)) && Untouched(s, s', op, LockKey(id)))
  {
    hide LockoutOf, Count, Crosses, CheckLogin;
    FailureEntries(c, s, id, ip, t);
    PunishEntries(c, s, id, t);
  }

  lemma ClearStep(c: Config, s: State, op: Op, id: string)
    requires id != "" && EffectOf(c, s, op) == Cleared(id)
    ensures FailureKey(id) !in Step(c, s, op) && StrikeKey(id) !in Step(c, s, op)
  {
  }

  // Whatever an operation records, it records when it ends.
  lemma EffectTime(c: Config, s: State, op: Op)
    ensures EffectOf(c, s, op).Failed? ==> EffectOf(c, s, op).at == End(op)
    ensures EffectOf(c, s, op) != Nothing ==> !op.SweepOp?
  {
  }

  predicate IsLoginKey(key: Key, id: string) {
    key == FailureKey(id) || key == StrikeKey(id) || key == LockKey(id)
  }

  // The login entries of an identity change only when that identity fails or is
  // cleared; clearing leaves its lockout alone.
  lemma LoginEntriesUntouched(c: Config, s: State, op: Op, id: string, key: Key)
    requires WellTyped(s) && id != "" && IsLoginKey(key, id)
    requires match EffectOf(c, s, op)
             case Failed(i, _, _) => i != id
             case Cleared(i) => i != id || key.LockKey?
             case Nothing => true
    ensures Untouched(s, Step(c, s, op), op, key)
  {
    hide LockoutOf, Count, Crosses, CheckLogin, CheckVerdict, Bind, NetworkOf, LoadNames, Punish;
    var e := EffectOf(c, s, op);
    if e.Failed? && e.id != "" {
      FailureEntries(c, s, e.id, e.ip, e.at);
      PunishEntries(c, s, e.id, e.at);
    }
  }

  // The outcomes of a guarded login. Going by the recorded status, a 2xx forgets
  // failures and strikes but not the lock; a 401 records a failure; any other, and
  // a request that never reached the handler or names nobody, changes nothing.
  lemma LoginOutcomes(c: Config, s: State, op: Op, now: int)
    requires op.GuardLoginOp?
    ensures var s', status := Step(c, s, op), Recorded(op.handler);
            if CheckLogin(c, s, op.id, op.ip, op.at) != Pass || op.id == "" then s' == s
            else if status == 401 then s' == RecordFailure(c, s, op.id, op.ip, op.answered).0
            else if status / 100 == 2 then
              && Count(s', FailureKey(op.id), now) == 0 && Count(s', StrikeKey(op.id), now) == 0
              && AgreeExcept(s, s', {FailureKey(op.id), StrikeKey(op.id)})
            else s' == s
  {
    hide CheckLogin, RecordFailure;
    NobodyFails(c, s, op.ip, op.answered);
  }

  lemma NobodyFails(c: Config, s: State, ip: string, now: int)
    ensures RecordFailure(c, s, "", ip, now).0 == s
  {
  }

  // What the client is answered decides in the same way if the handler is plain. A
  // silent handler answers 200, but nothing is forgotten.
  lemma AnsweredOutcomes(c: Config, s: State, op: Op, now: int)
    requires op.GuardLoginOp? && op.id != "" && ValidCodes(op.handler)
    requires CheckLogin(c, s, op.id, op.ip, op.at) == Pass
    ensures var s', status := Step(c, s, op), Answered(op.handler);
            && (Plain(op.handler) && status == 401 ==> s' == RecordFailure(c, s, op.id, op.ip, op.answered).0)
            && (Plain(op.handler) && status / 100 == 2 ==>
                  Count(s', FailureKey(op.id), now) == 0 && Count(s', StrikeKey(op.id), now) == 0)
            && (op.handler == [] ==> status == 200 && s' == s)
  {
    hide CheckLogin, RecordFailure, Answered;
    LoginOutcomes(c, s, op, now);
    RecordedIsAnsweredIff(op.handler);
    SilenceAndHints();
  }

  // A stored value of the wrong kind is a store error: FailClosed alone decides, and
  // nothing is renewed or remembered.
  lemma WrongKindFollowsPolicy(c: Config, s: State, req: Request, user: string, ip: string, now: int)
    ensures req.token != "" && Read(s, SessionKey(req.token), now).Some? &&
            !Read(s, SessionKey(req.token), now).value.Binding? ==>
              && CheckVerdict(c, s, req, now) == (if c.failClosed then Deny("store_error") else Pass)
              && Check(c, s, req, now) == s
    ensures user != "" && Read(s, NetsKey(user), now).Some? && !Read(s, NetsKey(user), now).value.Names? ==>
              && ObserveVerdict(c, s, user, ip, now) == (if c.failClosed then Deny("store_error") else Pass)
              && Observe(c, s, user, ip, now) == s
  {
    hide LockedUntil, Compare, NetworkOf, Bind;
  }

  // Text that is no number counts as no failures, and what is no deadline as no lock.
  // With a malformed list a client is not turned away for stuffing, and recording a
  // failure errs: it may lock, but the count and the list stay.
  lemma MalformedValuesAreHarmless(c: Config, s: State, id: string, ip: string, now: int)
    ensures (match Read(s, FailureKey(id), now) case Some(Text(t)) => Parse(t) == None case _ => true) ==>
              Count(s, FailureKey(id), now) == 0
    ensures (match Read(s, LockKey(id), now) case Some(Deadline(_)) => false case _ => true) ==>
              LockedUntil(s, id, now) == None
    ensures Read(s, StuffingKey(ip), now).Some? && !Read(s, StuffingKey(ip), now).value.Names? ==>
              && CheckLogin(c, s, id, ip, now) != Deny("credential_stuffing")
              && (id != "" && ip != "" ==>
                    var (s', ok) := RecordFailure(c, s, id, ip, now);
                    !ok && AgreeExcept(s, s', {StrikeKey(id), LockKey(id)}))
  {
    hide LockoutOf, Parse, Crosses;
    PunishEntries(c, s, id, now);
  }
}
