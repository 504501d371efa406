// session.Tracker over a store, each operation proved against TrackerSpec. The
// clock is read once by every call; its reading is the argument now.
module TrackerClass {
  import opened Prelude
  import opened Decimal
  import opened CappedList
  import opened LockDuration
  import opened TrackerModel
  import opened SessionStore
  import opened Handler
  import Spec = TrackerSpec

  // What a guarded endpoint answers.
  datatype Answer = TooManyAttempts(retryAfter: Option<int>) | Handled(status: int)

  class Tracker {
    const config: Config
    const store: TtlStore<Key, Value>

    constructor (config: Config, store: TtlStore<Key, Value>)
      ensures this.config == config && this.store == store
    {
      this.config := config;
      this.store := store;
    }

    method Count(key: Key, now: int) returns (n: int)
      ensures n == Spec.Count(store.entries, key, now)
    {
      var value := store.Load(key, now);
      n := 0;
      if value.Some? && value.value.Text? {
        n := Atoi(value.value.text);
      }
    }

    method Locked(id: string, now: int) returns (until: Option<int>)
      ensures until == Spec.LockedUntil(store.entries, id, now)
    {
      var value := store.Load(LockKey(id), now);
      if value == None || !value.value.Deadline? {
        return None;
      }
      if !(now < value.value.seconds * SECOND) {
        return None;
      }
      until := Some(value.value.seconds);
    }

    // An empty identity reads as unlocked.
    method IsLocked(id: string, now: int) returns (until: Option<int>)
      ensures until == if id == "" then None else Spec.LockedUntil(store.entries, id, now)
    {
      until := None;
      if id != "" {
        until := Locked(id, now);
      }
    }

    method Bump(key: Key, ttl: int, now: int) returns (n: int)
      modifies store
      ensures n == Spec.Count(old(store.entries), key, now) + 1
      ensures store.entries == TtlMap.Save(old(store.entries), key, Text(Itoa(n)), ttl, now)
    {
      n := Count(key, now);
      n := n + 1;
      store.Save(key, Text(Itoa(n)), ttl, now);
    }

    method LoadNames(key: Key, now: int) returns (names: Option<seq<Name>>)
      ensures names == Spec.LoadNames(store.entries, key, now)
    {
      var value := store.Load(key, now);
      if value == None {
        return Some([]);
      }
      names := if value.value.Names? then Some(value.value.names) else None;
    }

    // Both list keepers end the same way: append, keep the newest, save.
    method SaveNames(key: Key, names: seq<Name>, name: Name, cap: nat, ttl: int, now: int)
      requires name !in names
      modifies store
      ensures store.entries == TtlMap.Save(old(store.entries), key, Names(Remember(names, name, cap)), ttl, now)
    {
      var longer := names + [name];
      if |longer| > cap {
        longer := longer[|longer| - cap..];
      }
      store.Save(key, Names(longer), ttl, now);
    }

    method RecordStuffing(id: string, ip: string, now: int) returns (ok: bool)
      modifies store
      ensures ok <==> Spec.Stuff(config, old(store.entries), id, ip, now).Some?
      ensures store.entries ==
              if ok then Spec.Stuff(config, old(store.entries), id, ip, now).value else old(store.entries)
    {
      if ip == "" {
        return true;
      }
      var ids := LoadNames(StuffingKey(ip), now);
      if ids == None {
        return false;
      }
      var counted := Contains(ids.value, Sha256(id));
      if !counted {
        SaveNames(StuffingKey(ip), ids.value, Sha256(id), config.StuffingLimit(), config.FailureWindow(), now);
      }
      return true;
    }

    method RecordFailure(id: string, ip: string, now: int) returns (ok: bool)
      modifies store
      ensures (store.entries, ok) == Spec.RecordFailure(config, old(store.entries), id, ip, now)
    {
      hide LockoutAfter, Spec.Count, Spec.LockedUntil, Spec.Stuff;
      if id == "" {
        return false;
      }
      var n := Count(FailureKey(id), now);
      n := n + 1;
      var locked := Locked(id, now);
      if n >= config.Failures() && locked == None {
        var strikes := Bump(StrikeKey(id), config.BackoffWindow(), now);
        var d := LockFor(config.Lockout() as Int64, config.MaxLockout() as Int64, strikes);
        store.Save(LockKey(id), Deadline(WholeSeconds(now + d as int)), d as int, now);
      }
      ok := RecordStuffing(id, ip, now);
      if ok {
        store.Save(FailureKey(id), Text(Itoa(n)), config.FailureWindow(), now);
      }
    }

    method ClearFailures(id: string) returns (ok: bool)
      modifies store
      ensures ok <==> id != ""
      ensures store.entries == Spec.ClearFailures(old(store.entries), id)
    {
      if id == "" {
        return false;
      }
      store.Delete(FailureKey(id));
      store.Delete(StrikeKey(id));
      return true;
    }

    method CheckLogin(id: string, ip: string, now: int) returns (verdict: Verdict)
      ensures verdict == Spec.CheckLogin(config, store.entries, id, ip, now)
    {
      if id != "" {
        var until := Locked(id, now);
        if until.Some? {
          return Deny("token_locked");
        }
      }
      if ip != "" {
        var ids := LoadNames(StuffingKey(ip), now);
        if ids.Some? && |ids.value| >= config.StuffingLimit() {
          return Deny("credential_stuffing");
        }
      }
      return Pass;
    }

    // The handler is its sequence of writes; checked and answered are the clock
    // readings before and after it ran.
    method GuardLogin(id: string, ip: string, handler: seq<Write>, checked: int, answered: int)
      returns (answer: Answer)
      modifies store
      ensures var status := Recorded(handler);
              store.entries ==
              Spec.ApplyEffect(config, old(store.entries),
                Spec.LoginEffect(config, old(store.entries), id, ip, status, checked, answered))
      ensures answer.Handled? <==> Spec.CheckLogin(config, old(store.entries), id, ip, checked) == Pass
      ensures answer.Handled? ==> answer.status == Recorded(handler)
      // a wait is advised exactly if a lock has a second or more to run, and it ends
      // less than a second before the lock does
      ensures answer.TooManyAttempts? ==>
                var until := Spec.LockedUntil(old(store.entries), id, checked);
                && (answer.retryAfter.Some? <==> id != "" && until.Some? && until.value * SECOND - checked >= SECOND)
                && (answer.retryAfter.Some? ==>
                      var left := until.value * SECOND - checked;
                      answer.retryAfter.value * SECOND <= left < (answer.retryAfter.value + 1) * SECOND)
    {
      var verdict := CheckLogin(id, ip, checked);
      if verdict != Pass {
        answer := TooManyAttempts(None);
        var until := IsLocked(id, checked);
        if until.Some? {
          var wait := (until.value * SECOND - checked) / SECOND;
          if wait > 0 {
            answer := TooManyAttempts(Some(wait));
          }
        }
        return;
      }
      var w := new StatusWriter();
      var i := 0;
      while i < |handler|
        invariant 0 <= i <= |handler|
        invariant w.Valid() && w.writes == handler[..i] && fresh(w)
        invariant store.entries == old(store.entries)
      {
        w.Do(handler[i]);
        i := i + 1;
      }
      assert handler[..i] == handler;
      if w.status == 401 {
        var _ := RecordFailure(id, ip, answered);
      } else if 200 <= w.status < 300 {
        var _ := ClearFailures(id);
      }
      return Handled(w.status);
    }

    method Issue(token: string, req: Request, now: int) returns (ok: bool)
      modifies store
      ensures ok <==> token != ""
      ensures store.entries == Spec.Issue(config, old(store.entries), token, req, now)
    {
      if token == "" {
        return false;
      }
      var country := "";
      if config.countryOf.Some? {
        country := config.countryOf.value(req.ip);
      }
      var session := Session(req.ip, req.userAgent, req.fingerprint, country, now, now);
      store.Save(SessionKey(token), Binding(session), config.Ttl(), now);
      return true;
    }

    method Revoke(token: string)
      modifies store
      ensures store.entries == Spec.Revoke(old(store.entries), token)
    {
      store.Delete(SessionKey(token));
    }

    method Check(req: Request, now: int) returns (verdict: Verdict)
      modifies store
      ensures verdict == Spec.CheckVerdict(config, old(store.entries), req, now)
      ensures store.entries == Spec.Check(config, old(store.entries), req, now)
    {
      if req.token == "" {
        return Deny("missing_token");
      }
      var value := store.Load(SessionKey(req.token), now);
      if value.Some? && !value.value.Binding? {
        return StoreError(config);
      }
      var until := Locked(req.token, now);
      if until.Some? {
        return Deny("token_locked");
      }
      if value == None {
        return Deny("unknown_token");
      }
      verdict := Verify(req, value.value.session, now);
    }

    method Verify(req: Request, session: Session, now: int) returns (verdict: Verdict)
      modifies store
      ensures verdict == Spec.Compare(config, session, req)
      ensures var renewed := Binding(session.(lastSeen := now));
              store.entries ==
              if verdict == Pass
              then TtlMap.Save(old(store.entries), SessionKey(req.token), renewed, config.Ttl(), now)
              else old(store.entries)
    {
      if session.userAgent != "" && req.userAgent != session.userAgent {
        return Deny("client_hijack");
      }
      if session.fingerprint != "" {
        if req.fingerprint != "" && req.fingerprint != session.fingerprint {
          return Deny("client_hijack");
        }
      }
      if config.countryOf.Some? && session.country != "" {
        var country := config.countryOf.value(req.ip);
        if country != "" && country != session.country {
          return Deny("remote_login");
        }
      }
      if NetworkOf(config, req.ip) != NetworkOf(config, session.ip) {
        return Deny("remote_login");
      }
      store.Save(SessionKey(req.token), Binding(session.(lastSeen := now)), config.Ttl(), now);
      return Pass;
    }

    method Observe(user: string, ip: string, now: int) returns (verdict: Verdict)
      modifies store
      ensures verdict == Spec.ObserveVerdict(config, old(store.entries), user, ip, now)
      ensures store.entries == Spec.Observe(config, old(store.entries), user, ip, now)
      // the network is known from now on
      ensures Spec.LoadNames(old(store.entries), NetsKey(user), now).Some? ==>
                Spec.ObserveVerdict(config, store.entries, user, ip, now) == Pass
    {
      if user == "" {
        return Pass;
      }
      var nets := LoadNames(NetsKey(user), now);
      if nets == None {
        return StoreError(config);
      }
      var here := Network(NetworkOf(config, ip));
      var seen := Contains(nets.value, here);
      if seen {
        return Pass;
      }
      RememberedIsIn(nets.value, here, config.KnownNets());
      SaveNames(NetsKey(user), nets.value, here, config.KnownNets(), config.KnownNetTtl(), now);
      if nets.value == [] {
        return Pass;
      }
      return Deny("remote_login");
    }
  }
}
