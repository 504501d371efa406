// Sessions as functions of history: which binding a token has, how long it lives,
// and exactly which requests are accepted.
module SessionHistory {
  import opened Prelude
  import opened TtlMap
  import opened TrackerModel
  import opened TrackerSpec
  import opened TrackerRuns

  // The client a token was issued to.
  datatype Issued = Issued(req: Request, at: int)

  // The latest Issue of the token, unless it was revoked since.
  ghost function LatestIssue(ops: seq<Op>, token: string): Option<Issued> {
    if ops == [] then None
    else
      match Last(ops)
      case IssueOp(at, t, req) => if t == token then Some(Issued(req, at)) else LatestIssue(Front(ops), token)
      case RevokeOp(_, t) => if t == token then None else LatestIssue(Front(ops), token)
      case _ => LatestIssue(Front(ops), token)
  }

  ghost predicate Accepted(c: Config, ops: seq<Op>, token: string)
    requires ops != []
  {
    match Last(ops)
    case CheckOp(at, req) => req.token == token && CheckVerdict(c, Run(c, Front(ops)), req, at) == Pass
    case _ => false
  }

  // The latest accepted request of the token, or the Issue before any.
  ghost function LastRenewal(c: Config, ops: seq<Op>, token: string): int {
    if ops == [] then 0
    else if Accepted(c, ops, token) || (Last(ops).IssueOp? && Last(ops).token == token) then Last(ops).at
    else LastRenewal(c, Front(ops), token)
  }

  // What the country lookup says of an address; nothing if none is configured.
  function Located(c: Config, ip: string): string {
    if c.countryOf == None then "" else c.countryOf.value(ip)
  }

  // The session of a token: the client it was issued to, when, and its latest
  // renewal.
  function SessionOf(c: Config, issue: Issued, renewed: int): Session {
    var req := issue.req;
    Session(req.ip, req.userAgent, req.fingerprint, Located(c, req.ip), issue.at, renewed)
  }

  ghost predicate Holds(c: Config, s: State, token: string, issue: Option<Issued>, renewed: int, now: int) {
    if SessionKey(token) in s then
      && issue.Some?
      && s[SessionKey(token)] == Entry(Binding(SessionOf(c, issue.value, renewed)), renewed + c.Ttl())
    else
      issue.None? || now > renewed + c.Ttl()
  }

  lemma SessionUntouched(c: Config, s: State, op: Op, token: string)
    requires WellTyped(s) && token != ""
    requires match op
             case IssueOp(_, t, _) => t != token
             case RevokeOp(_, t) => t != token
             case CheckOp(at, req) => req.token != token || CheckVerdict(c, s, req, at) != Pass
             case _ => true
    ensures Untouched(s, Step(c, s, op), op, SessionKey(token))
  {
    hide LockoutOf, Count, Crosses, CheckLogin, CheckVerdict, Bind, NetworkOf, LoadNames, Punish;
    var e := EffectOf(c, s, op);
    if e.Failed? && e.id != "" {
      FailureEntries(c, s, e.id, e.ip, e.at);
      PunishEntries(c, s, e.id, e.at);
    }
  }

  // An accepted request finds a live session and pushes its deadline back.
  lemma AcceptedRenews(c: Config, s: State, op: Op)
    requires WellTyped(s) && op.CheckOp? && CheckVerdict(c, s, op.req, op.at) == Pass
    ensures var key := SessionKey(op.req.token);
            && key in s && s[key].value.Binding? && op.at <= s[key].expires
            && var s' := Step(c, s, op);
            && key in s' && s'[key] == Entry(Binding(s[key].value.session.(lastSeen := op.at)), op.at + c.Ttl())
  {
    hide Compare, LockedUntil;
  }

  lemma {:induction false} SessionTracked(c: Config, ops: seq<Op>, token: string, now: int)
    requires Timely(ops, now) && token != ""
    ensures Holds(c, Run(c, ops), token, LatestIssue(ops, token), LastRenewal(c, ops, token), now)
  {
    if ops != [] {
      var s, op := Run(c, Front(ops)), Last(ops);
      RunIsWellTyped(c, Front(ops));
      SessionTracked(c, Front(ops), token, op.at);
      if Accepted(c, ops, token) {
        hide Step, CheckVerdict, Bind;
        AcceptedRenews(c, s, op);
      } else if (op.IssueOp? || op.RevokeOp?) && op.token == token {
        hide EffectOf, Bind;
      } else {
        SessionUntouched(c, s, op, token);
        hide Step, CheckVerdict, Bind;
      }
    }
  }

  // The comparison in the reader's terms: everything the binding recorded.
  ghost predicate Matches(c: Config, issue: Request, req: Request) {
    && (issue.userAgent != "" ==> req.userAgent == issue.userAgent)
    && (issue.fingerprint != "" && req.fingerprint != "" ==> req.fingerprint == issue.fingerprint)
    && (Located(c, issue.ip) != "" && Located(c, req.ip) != "" ==> Located(c, req.ip) == Located(c, issue.ip))
    && NetworkOf(c, req.ip) == NetworkOf(c, issue.ip)
  }

  ghost predicate SameClient(issue: Request, req: Request) {
    && (issue.userAgent != "" ==> req.userAgent == issue.userAgent)
    && (issue.fingerprint != "" && req.fingerprint != "" ==> req.fingerprint == issue.fingerprint)
  }

  // The answer to a request, from the history of its token alone: the checks in
  // the order in which they are reported.
  ghost function Expected(c: Config, issue: Option<Issued>, renewed: int, locked: bool, req: Request, now: int): Verdict
  {
    if req.token == "" then Deny("missing_token")
    else if locked then Deny("token_locked")
    else if issue == None || now > renewed + c.Ttl() then Deny("unknown_token")
    else if !SameClient(issue.value.req, req) then Deny("client_hijack")
    else if !Matches(c, issue.value.req, req) then Deny("remote_login")
    else Pass
  }

  lemma CompareWithIssue(c: Config, issue: Issued, renewed: int, req: Request)
    ensures Compare(c, SessionOf(c, issue, renewed), req) ==
            if !SameClient(issue.req, req) then Deny("client_hijack")
            else if !Matches(c, issue.req, req) then Deny("remote_login") else Pass
  {
    hide NetworkOf;
  }

  // Every answer of Check follows from the latest Issue not revoked since, the
  // latest renewal and the lock of the token. Renewals never move the binding.
  lemma CheckFollowsHistory(c: Config, ops: seq<Op>, req: Request, now: int)
    requires Timely(ops, now)
    ensures CheckVerdict(c, Run(c, ops), req, now) ==
            Expected(c, LatestIssue(ops, req.token), LastRenewal(c, ops, req.token),
                     LockedUntil(Run(c, ops), req.token, now).Some?, req, now)
  {
    hide Run, LatestIssue, LastRenewal, LockedUntil, Compare, SameClient, Matches, Located;
    if req.token != "" {
      var s, key := Run(c, ops), SessionKey(req.token);
      RunIsWellTyped(c, ops);
      SessionTracked(c, ops, req.token, now);
      if key in s {
        CompareWithIssue(c, LatestIssue(ops, req.token).value, LastRenewal(c, ops, req.token), req);
      }
    }
  }

  // A request is accepted exactly if its token was issued and not revoked since,
  // no lockout of the token runs, the latest renewal is no older than the TTL,
  // and the request matches the client the token was issued to.
  lemma AcceptedIff(c: Config, ops: seq<Op>, req: Request, now: int)
    requires Timely(ops, now)
    ensures CheckVerdict(c, Run(c, ops), req, now) == Pass <==>
            var issue := LatestIssue(ops, req.token);
            && req.token != ""
            && issue.Some?
            && LockedUntil(Run(c, ops), req.token, now) == None
            && now <= LastRenewal(c, ops, req.token) + c.Ttl()
            && Matches(c, issue.value.req, req)
  {
    hide Run, LatestIssue, LastRenewal, LockedUntil, CheckVerdict;
    CheckFollowsHistory(c, ops, req, now);
  }

  // Nothing but an accepted request extends a session, and nothing but Issue and
  // Revoke of its token changes or ends it otherwise: the stored entry stays, until
  // a sweep after its deadline.
  lemma OnlyAcceptedRequestsRenew(c: Config, ops: seq<Op>, op: Op, token: string)
    requires token != "" && !(op.IssueOp? && op.token == token) && !(op.RevokeOp? && op.token == token)
    requires !Accepted(c, ops + [op], token)
    ensures Untouched(Run(c, ops), Run(c, ops + [op]), op, SessionKey(token))
    ensures LastRenewal(c, ops + [op], token) == LastRenewal(c, ops, token)
    ensures LatestIssue(ops + [op], token) == LatestIssue(ops, token)
  {
    hide Step, CheckVerdict, Untouched;
    FrontOfSnoc(ops, op);
    RunIsWellTyped(c, ops);
    SessionUntouched(c, Run(c, ops), op, token);
  }
}
