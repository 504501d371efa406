// Every Tracker operation as a function of the store: the state it leaves and
// the answer it gives. The class in Tracker.dfy is proved to do exactly this;
// the theorems about whole runs are proved about these functions.
module TrackerSpec {
  import opened Prelude
  import opened Decimal
  import opened TtlMap
  import opened CappedList
  import opened LockDuration
  import opened TrackerModel

  // ---- session/lockout.go and session/bruteforce.go ----

  function Read(s: State, key: Key, now: int): Option<Value> {
    Load(s, key, now)
  }

  // A decimal counter; text that is no number counts as zero.
  function Count(s: State, key: Key, now: int): int {
    match Read(s, key, now)
    case Some(Text(t)) => Atoi(t)
    case _ => 0
  }

  // The deadline of a running lockout, in whole seconds.
  function LockedUntil(s: State, id: string, now: int): Option<int> {
    match Read(s, LockKey(id), now)
    case Some(Deadline(d)) => if now < d * SECOND then Some(d) else None
    case _ => None
  }

  predicate Crosses(c: Config, s: State, id: string, now: int) {
    Count(s, FailureKey(id), now) + 1 >= c.Failures() && LockedUntil(s, id, now) == None
  }

  ghost function LockoutOf(c: Config, strikes: int): int {
    LockoutAfter(c.Lockout(), c.MaxLockout(), strikes)
  }

  // A fresh crossing is remembered as a strike, then locked for the escalated time.
  ghost function Punish(c: Config, s: State, id: string, now: int): State {
    if !Crosses(c, s, id, now) then s
    else
      var strikes := Count(s, StrikeKey(id), now) + 1;
      var d := LockoutOf(c, strikes);
      var struck := Save(s, StrikeKey(id), Text(Itoa(strikes)), c.BackoffWindow(), now);
      Save(struck, LockKey(id), Deadline(WholeSeconds(now + d)), d, now)
  }

  // A remembered list; None when the stored value is no list.
  function LoadNames(s: State, key: Key, now: int): Option<seq<Name>> {
    match Read(s, key, now)
    case None => Some([])
    case Some(Names(names)) => Some(names)
    case _ => None
  }

  ghost function Stuff(c: Config, s: State, id: string, ip: string, now: int): Option<State> {
    if ip == "" then Some(s)
    else
      match LoadNames(s, StuffingKey(ip), now)
      case None => None
      case Some(ids) =>
        if Sha256(id) in ids then Some(s)
        else
          var ids' := Remember(ids, Sha256(id), c.StuffingLimit());
          Some(Save(s, StuffingKey(ip), Names(ids'), c.FailureWindow(), now))
  }

  // The state after a failed attempt, and whether the call returned no error.
  ghost function RecordFailure(c: Config, s: State, id: string, ip: string, now: int): (State, bool) {
    if id == "" then (s, false)
    else
      var n := Count(s, FailureKey(id), now) + 1;
      var punished := Punish(c, s, id, now);
      match Stuff(c, punished, id, ip, now)
      case None => (punished, false)
      case Some(stuffed) => (Save(stuffed, FailureKey(id), Text(Itoa(n)), c.FailureWindow(), now), true)
  }

  function ClearFailures(s: State, id: string): State {
    if id == "" then s else Delete(Delete(s, FailureKey(id)), StrikeKey(id))
  }

  function StuffingCount(s: State, ip: string, now: int): nat {
    match LoadNames(s, StuffingKey(ip), now)
    case Some(ids) => |ids|
    case None => 0
  }

  function CheckLogin(c: Config, s: State, id: string, ip: string, now: int): Verdict {
    if id != "" && LockedUntil(s, id, now).Some? then Deny("token_locked")
    else if ip != "" && StuffingCount(s, ip, now) >= c.StuffingLimit() then Deny("credential_stuffing")
    else Pass
  }

  predicate Succeeded(status: int) { 200 <= status < 300 }

  // What one guarded login does to the counters: the check and the bookkeeping
  // after the handler read the clock separately.
  datatype Effect = Nothing | Failed(id: string, ip: string, at: int) | Cleared(id: string)

  function LoginEffect(c: Config, s: State, id: string, ip: string, status: int, checked: int, answered: int): Effect {
    if CheckLogin(c, s, id, ip, checked) != Pass then Nothing
    else if status == 401 then Failed(id, ip, answered)
    else if Succeeded(status) then Cleared(id)
    else Nothing
  }

  ghost function ApplyEffect(c: Config, s: State, e: Effect): State {
    match e
    case Nothing => s
    case Failed(id, ip, at) => RecordFailure(c, s, id, ip, at).0
    case Cleared(id) => ClearFailures(s, id)
  }

  // ---- session/tracker.go ----

  function Country(c: Config, ip: string): string {
    match c.countryOf
    case Some(f) => f(ip)
    case None => ""
  }

  function Bind(c: Config, req: Request, now: int): Session {
    Session(req.ip, req.userAgent, req.fingerprint, Country(c, req.ip), now, now)
  }

  function Issue(c: Config, s: State, token: string, req: Request, now: int): State {
    if token == "" then s else Save(s, SessionKey(token), Binding(Bind(c, req, now)), c.Ttl(), now)
  }

  function Revoke(s: State, token: string): State {
    Delete(s, SessionKey(token))
  }

  // The comparison of a request with the binding of its session.
  function Compare(c: Config, bound: Session, req: Request): Verdict {
    if bound.userAgent != "" && req.userAgent != bound.userAgent then Deny("client_hijack")
    else if bound.fingerprint != "" && req.fingerprint != "" && req.fingerprint != bound.fingerprint then
      Deny("client_hijack")
    else if
      && c.countryOf.Some? && bound.country != ""
      && Country(c, req.ip) != "" && Country(c, req.ip) != bound.country then
      Deny("remote_login")
    else if NetworkOf(c, req.ip) != NetworkOf(c, bound.ip) then Deny("remote_login")
    else Pass
  }

  function CheckVerdict(c: Config, s: State, req: Request, now: int): Verdict {
    if req.token == "" then Deny("missing_token")
    else
      var value := Read(s, SessionKey(req.token), now);
      if value.Some? && !value.value.Binding? then StoreError(c)
      else if LockedUntil(s, req.token, now).Some? then Deny("token_locked")
      else if value == None then Deny("unknown_token")
      else Compare(c, value.value.session, req)
  }

  // Only an accepted request renews its session, and it keeps the binding.
  function Check(c: Config, s: State, req: Request, now: int): State {
    var value := Read(s, SessionKey(req.token), now);
    if CheckVerdict(c, s, req, now) == Pass && value.Some? && value.value.Binding? then
      Save(s, SessionKey(req.token), Binding(value.value.session.(lastSeen := now)), c.Ttl(), now)
    else s
  }

  function ObserveVerdict(c: Config, s: State, user: string, ip: string, now: int): Verdict {
    if user == "" then Pass
    else
      match LoadNames(s, NetsKey(user), now)
      case None => StoreError(c)
      case Some(nets) =>
        if nets == [] || Network(NetworkOf(c, ip)) in nets then Pass else Deny("remote_login")
  }

  function Observe(c: Config, s: State, user: string, ip: string, now: int): State {
    var nets := LoadNames(s, NetsKey(user), now);
    var here := Network(NetworkOf(c, ip));
    if user == "" || nets == None || here in nets.value then s
    else Save(s, NetsKey(user), Names(Remember(nets.value, here, c.KnownNets())), c.KnownNetTtl(), now)
  }
}
