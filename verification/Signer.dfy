// session/tamper.go: parameters signed with a MAC, a timestamp and a nonce.
module SignerModel {
  import opened Prelude
  import opened Decimal
  import opened Text
  import opened QueryEncoding
  import opened LockDuration
  import opened Windows
  import opened MemoryBackend

  // hmac is HMAC-SHA256 under the secret (section 2 of RFC 2104), a function of
  // the message; instants count from the Unix epoch.
  datatype SignerConfig = SignerConfig(configured: bool, maxSkew: Duration, hmac: string -> seq<Byte>) {
    function MaxSkew(): (d: Duration)
      ensures d > 0
    {
      if maxSkew <= 0 then 5 * MINUTE else maxSkew
    }

    // Doubling wraps around 64 bits.
    function NonceWindow(): int {
      Wrap64(2 * MaxSkew())
    }
  }

  ghost function Message(params: Params, ts: string, nonce: string): string {
    CanonicalText(params) + ['\n'] + (ts + ['\n'] + nonce)
  }

  ghost function Mac(c: SignerConfig, params: Params, ts: string, nonce: string): string {
    RawUrl(c.hmac(Message(params, ts, nonce)))
  }

  ghost function Signature(c: SignerConfig, params: Params, ts: string, nonce: string): string {
    ts + ['.'] + (nonce + ['.'] + Mac(c, params, ts, nonce))
  }

  // Sign at an instant, with the random bytes drawn.
  ghost function Sign(c: SignerConfig, params: Params, now: int, random: seq<Byte>): string {
    Signature(c, params, Itoa(WholeSeconds(now)), Hex(random))
  }

  function NonceKey(nonce: string): string {
    "sig:" + nonce
  }

  // Everything Verify checks before it touches the nonces.
  datatype Precheck = Rejected(reason: string) | Genuine(nonce: string)

  ghost function Inspect(c: SignerConfig, params: Params, sig: string, now: int): Precheck {
    if !c.configured then Rejected("signer_not_configured")
    else
      var parts := Split(sig, '.');
      if |parts| != 3 then Rejected("signature_malformed")
      else
        match ParseInt64(parts[0])
        case None => Rejected("timestamp_invalid")
        case Some(secs) =>
          var skew := now - secs * SECOND;
          if skew > c.MaxSkew() || skew < -c.MaxSkew() then
            Rejected(if skew < 0 then "timestamp_in_future" else "signature_expired")
          else if parts[2] != Mac(c, params, parts[0], parts[1]) then Rejected("signature_mismatch")
          else Genuine(parts[1])
  }

  // A genuine signature is counted under its nonce for the given window. The clock
  // is read twice: for the freshness of the signature, and again by the backend.
  ghost function VerifyWithin(c: SignerConfig, window: int, m: Mem, params: Params, sig: string,
                              checked: int, counted: int): (Mem, Verdict)
  {
    match Inspect(c, params, sig, checked)
    case Rejected(reason) => (m, Deny(reason))
    case Genuine(nonce) =>
      var m' := m.Incr(NonceKey(nonce), Hit(counted, window));
      (m', if m'.events[NonceKey(nonce)].count > 1 then Deny("replay") else Pass)
  }

  ghost function Verify(c: SignerConfig, m: Mem, params: Params, sig: string, checked: int, counted: int):
    (Mem, Verdict)
  {
    VerifyWithin(c, c.NonceWindow(), m, params, sig, checked, counted)
  }

  // ---- what Verify accepts ----

  // The text is three parts with dots between them.
  ghost predicate ThreeParts(sig: string, ts: string, nonce: string, mac: string) {
    && sig == ts + ['.'] + (nonce + ['.'] + mac)
    && Free(ts, '.') && Free(nonce, '.') && Free(mac, '.')
  }

  // The timestamp denotes a second that fits in 64 bits.
  ghost predicate IsTimestamp(ts: string, secs: int) {
    Denotes(ts, secs) && MIN_INT64 <= secs <= MAX_INT64
  }

  // The MAC text of the signed message: parameters, timestamp and nonce on lines of
  // their own.
  ghost function MacText(c: SignerConfig, params: Params, ts: string, nonce: string): string {
    RawUrl(c.hmac(CanonicalText(params) + "\n" + ts + "\n" + nonce))
  }

  // MaxSkew, or five minutes.
  function Skew(c: SignerConfig): int {
    if c.maxSkew > 0 then c.maxSkew else 300_000_000_000
  }

  lemma UnconfiguredIsRefused(c: SignerConfig, params: Params, sig: string, now: int)
    requires !c.configured
    ensures Inspect(c, params, sig, now) == Rejected("signer_not_configured")
  {
  }

  lemma MalformedIff(c: SignerConfig, params: Params, sig: string, now: int)
    requires c.configured
    ensures Inspect(c, params, sig, now) == Rejected("signature_malformed") <==>
            forall ts, nonce, mac :: !ThreeParts(sig, ts, nonce, mac)
  {
    hide Split, ParseInt64, Mac;
    var parts := Split(sig, '.');
    forall ts, nonce, mac | ThreeParts(sig, ts, nonce, mac) ensures parts == [ts, nonce, mac] {
      SplitsInThreeIff(sig, '.', ts, nonce, mac);
    }
    if |parts| == 3 {
      assert parts == [parts[0], parts[1], parts[2]];
      SplitsInThreeIff(sig, '.', parts[0], parts[1], parts[2]);
      assert ThreeParts(sig, parts[0], parts[1], parts[2]);
    }
  }

  lemma TimestampIff(ts: string, secs: int)
    ensures ParseInt64(ts) == Some(secs) <==> IsTimestamp(ts, secs)
    ensures ParseInt64(ts) == None ==> forall n :: !IsTimestamp(ts, n)
  {
    ParseIff(ts, secs);
    if ParseInt64(ts) == None {
      forall n ensures !IsTimestamp(ts, n) {
        ParseIff(ts, n);
      }
    }
  }

  lemma MacIsMacText(c: SignerConfig, params: Params, ts: string, nonce: string)
    ensures Mac(c, params, ts, nonce) == MacText(c, params, ts, nonce)
    ensures Free(Mac(c, params, ts, nonce), '.')
  {
    assert Message(params, ts, nonce) == CanonicalText(params) + "\n" + ts + "\n" + nonce;
  }

  // The verdict on three parts, for any text in them: the first of the checks that
  // fails names the reason.
  lemma PartsDecide(c: SignerConfig, params: Params, sig: string, ts: string, nonce: string, mac: string, now: int)
    requires c.configured && ThreeParts(sig, ts, nonce, mac)
    ensures (forall secs :: !IsTimestamp(ts, secs)) ==> Inspect(c, params, sig, now) == Rejected("timestamp_invalid")
    ensures forall secs :: IsTimestamp(ts, secs) ==>
              Inspect(c, params, sig, now) ==
              var age := now - secs * 1_000_000_000;
              if age < -Skew(c) then Rejected("timestamp_in_future")
              else if age > Skew(c) then Rejected("signature_expired")
              else if mac != MacText(c, params, ts, nonce) then Rejected("signature_mismatch")
              else Genuine(nonce)
  {
    hide Split, ParseInt64, Mac, MacText, IsTimestamp;
    SplitsInThreeIff(sig, '.', ts, nonce, mac);
    MacIsMacText(c, params, ts, nonce);
    var n := ParseInt64(ts);
    if n.Some? {
      TimestampIff(ts, n.value);
    }
    forall secs ensures ParseInt64(ts) == Some(secs) <==> IsTimestamp(ts, secs) {
      TimestampIff(ts, secs);
    }
  }

  // Any text is genuine exactly if the signer has a secret, the text is a timestamp
  // within MaxSkew, a nonce and the MAC over both and the parameters.
  lemma GenuineIff(c: SignerConfig, params: Params, sig: string, nonce: string, now: int)
    ensures Inspect(c, params, sig, now) == Genuine(nonce) <==>
            && c.configured
            && exists ts, secs :: IsAuthentic(c, params, sig, ts, secs, nonce, now)
  {
    hide Inspect, MacText, IsTimestamp;
    if !c.configured {
      UnconfiguredIsRefused(c, params, sig, now);
    } else if Inspect(c, params, sig, now).Genuine? {
      MalformedIff(c, params, sig, now);
      var ts, n, mac :| ThreeParts(sig, ts, n, mac);
      PartsDecide(c, params, sig, ts, n, mac, now);
      var secs :| IsTimestamp(ts, secs);
      assert IsAuthentic(c, params, sig, ts, secs, n, now);
    }
    if c.configured && exists ts, secs :: IsAuthentic(c, params, sig, ts, secs, nonce, now) {
      GenuineOnce(c, params, sig, nonce, now);
    }
  }

  ghost predicate IsAuthentic(c: SignerConfig, params: Params, sig: string, ts: string, secs: int, nonce: string,
                              now: int)
  {
    && ThreeParts(sig, ts, nonce, MacText(c, params, ts, nonce))
    && IsTimestamp(ts, secs)
    && -Skew(c) <= now - secs * 1_000_000_000 <= Skew(c)
  }

  lemma GenuineOnce(c: SignerConfig, params: Params, sig: string, nonce: string, now: int)
    requires c.configured && exists ts, secs :: IsAuthentic(c, params, sig, ts, secs, nonce, now)
    ensures Inspect(c, params, sig, now) == Genuine(nonce)
  {
    hide Inspect, MacText, IsTimestamp;
    var ts, secs :| IsAuthentic(c, params, sig, ts, secs, nonce, now);
    PartsDecide(c, params, sig, ts, nonce, MacText(c, params, ts, nonce), now);
  }

  // ---- the signed message ----

  // The message determines everything that is signed.
  lemma MessageIsInjective(p: Params, ts: string, nonce: string, p': Params, ts': string, nonce': string)
    requires Free(ts, '\n') && Free(ts', '\n')
    requires Message(p, ts, nonce) == Message(p', ts', nonce')
    ensures p == p' && ts == ts' && nonce == nonce'
  {
    hide IsCanonical;
    CanonicalHasNoNewline(CanonicalText(p), p);
    CanonicalHasNoNewline(CanonicalText(p'), p');
    CutIsUnique(CanonicalText(p), CanonicalText(p'), '\n', ts + ['\n'] + nonce, ts' + ['\n'] + nonce');
    CutIsUnique(ts, ts', '\n', nonce, nonce');
    CanonicalIsInjective(CanonicalText(p), p, p');
  }

  lemma TimestampIsPlain(ts: string, c: char)
    requires ParseInt64(ts).Some? && c != '+' && c != '-' && !IsDigit(c)
    ensures Free(ts, c)
  {
    forall i | 0 <= i < |ts| ensures ts[i] != c {
      ParsedTextIsPlain(ts, ts[i]);
    }
  }

  // A signature splits back into exactly the three parts it was made of.
  lemma SignatureSplits(c: SignerConfig, params: Params, ts: string, nonce: string)
    requires Free(ts, '.') && Free(nonce, '.')
    ensures Split(Signature(c, params, ts, nonce), '.') == [ts, nonce, Mac(c, params, ts, nonce)]
  {
    var mac := Mac(c, params, ts, nonce);
    SplitAtFirst(ts, '.', nonce + ['.'] + mac);
    SplitAtFirst(nonce, '.', mac);
    SplitFree(mac, '.');
    assert Signature(c, params, ts, nonce) == ts + ['.'] + (nonce + ['.'] + mac);
  }

  lemma SignedPartsArePlain(now: int, random: seq<Byte>)
    ensures Free(Itoa(WholeSeconds(now)), '.') && Free(Hex(random), '.')
  {
    var ts := Itoa(WholeSeconds(now));
    forall i | 0 <= i < |ts| ensures ts[i] != '.' {
      ItoaIsPlain(WholeSeconds(now), ts[i]);
    }
    HexIsPlain(random, '.');
  }

  // What Sign returns is genuine for its parameters exactly while the clock is
  // within MaxSkew of the whole second it was signed in.
  lemma SignedIsGenuineIff(c: SignerConfig, params: Params, signed: int, random: seq<Byte>, now: int)
    requires c.configured && MIN_INT64 <= WholeSeconds(signed) <= MAX_INT64
    ensures var skew := now - WholeSeconds(signed) * SECOND;
            if -c.MaxSkew() <= skew <= c.MaxSkew()
            then Inspect(c, params, Sign(c, params, signed, random), now) == Genuine(Hex(random))
            else Inspect(c, params, Sign(c, params, signed, random), now) ==
                 Rejected(if skew < 0 then "timestamp_in_future" else "signature_expired")
  {
    hide Signature, Mac, WholeSeconds, Itoa, Parse;
    var ts := Itoa(WholeSeconds(signed));
    SignedPartsArePlain(signed, random);
    SignatureSplits(c, params, ts, Hex(random));
    ParseOfItoa(WholeSeconds(signed));
  }

  // A fresh signature presented with any other parameters signs a different
  // message, and is a mismatch that leaves its nonce unused, short of a collision
  // of the MAC itself.
  lemma TamperingIsDetectedIff(c: SignerConfig, params: Params, other: Params, signed: int, random: seq<Byte>, m: Mem,
                               now: int, counted: int)
    requires c.configured && MIN_INT64 <= WholeSeconds(signed) <= MAX_INT64
    requires -c.MaxSkew() <= now - WholeSeconds(signed) * SECOND <= c.MaxSkew()
    requires other != params
    ensures var ts, nonce := Itoa(WholeSeconds(signed)), Hex(random);
            && Message(params, ts, nonce) != Message(other, ts, nonce)
            && (Verify(c, m, other, Sign(c, params, signed, random), now, counted) ==
                (m, Deny("signature_mismatch")) <==>
                c.hmac(Message(params, ts, nonce)) != c.hmac(Message(other, ts, nonce)))
  {
    hide Message, Itoa, Parse, WholeSeconds;
    var ts, nonce := Itoa(WholeSeconds(signed)), Hex(random);
    SignedPartsArePlain(signed, random);
    SignatureSplits(c, params, ts, nonce);
    ParseOfItoa(WholeSeconds(signed));
    MessagesDiffer(params, other, ts, nonce);
    if Mac(c, params, ts, nonce) == Mac(c, other, ts, nonce) {
      RawUrlIsInjective(c.hmac(Message(params, ts, nonce)), c.hmac(Message(other, ts, nonce)));
    }
  }

  lemma MessagesDiffer(params: Params, other: Params, ts: string, nonce: string)
    requires other != params && ParseInt64(ts).Some?
    ensures Message(params, ts, nonce) != Message(other, ts, nonce)
  {
    hide Message;
    TimestampIsPlain(ts, '\n');
    if Message(params, ts, nonce) == Message(other, ts, nonce) {
      MessageIsInjective(params, ts, nonce, other, ts, nonce);
    }
  }

  // Whatever Verify rejects before the replay check leaves the nonces alone.
  lemma OnlyGenuineCounts(c: SignerConfig, m: Mem, params: Params, sig: string, checked: int, counted: int)
    ensures var (m', verdict) := Verify(c, m, params, sig, checked, counted);
            verdict != Pass && verdict != Deny("replay") ==> m' == m
  {
  }
}

module SignerClass {
  import opened Prelude
  import opened Decimal
  import opened Text
  import opened QueryEncoding
  import opened MemoryBackend
  import Spec = SignerModel

  class Signer {
    const config: Spec.SignerConfig
    const nonces: Memory?

    constructor (config: Spec.SignerConfig, nonces: Memory?)
      ensures this.config == config && this.nonces == nonces
    {
      this.config := config;
      this.nonces := nonces;
    }

    // The MAC covers the canonical parameters, the timestamp and the nonce.
    method Mac(params: Params, ts: string, nonce: string) returns (mac: string)
      ensures mac == Spec.Mac(config, params, ts, nonce)
    {
      var text := Canonical(params);
      CanonicalIsUnique(text, CanonicalText(params), params);
      var message := text + ['\n'] + (ts + ['\n'] + nonce);
      mac := RawUrl(config.hmac(message));
    }

    // None is the error of a signer without a secret.
    method Sign(params: Params, now: int, random: seq<Byte>) returns (sig: Option<string>)
      ensures sig == if config.configured then Some(Spec.Sign(config, params, now, random)) else None
      ensures sig.Some? ==>
                var ts, nonce := Itoa(WholeSeconds(now)), Hex(random);
                && Spec.ThreeParts(sig.value, ts, nonce, Spec.MacText(config, params, ts, nonce))
                && |nonce| == 2 * |random|
    {
      if !config.configured {
        return None;
      }
      var ts := Itoa(WholeSeconds(now));
      var nonce := Hex(random);
      var mac := Mac(params, ts, nonce);
      Spec.SignedPartsArePlain(now, random);
      Spec.MacIsMacText(config, params, ts, nonce);
      HexDigits(random);
      return Some(ts + ['.'] + (nonce + ['.'] + mac));
    }

    method Inspect(params: Params, sig: string, now: int) returns (r: Spec.Precheck)
      ensures r == Spec.Inspect(config, params, sig, now)
    {
      if !config.configured {
        return Spec.Rejected("signer_not_configured");
      }
      var parts := Split(sig, '.');
      if |parts| != 3 {
        return Spec.Rejected("signature_malformed");
      }
      var secs := ParseInt64(parts[0]);
      if secs == None {
        return Spec.Rejected("timestamp_invalid");
      }
      var skew := now - secs.value * SECOND;
      if skew > config.MaxSkew() || skew < -config.MaxSkew() {
        return Spec.Rejected(if skew < 0 then "timestamp_in_future" else "signature_expired");
      }
      var mac := Mac(params, parts[0], parts[1]);
      if parts[2] != mac {
        return Spec.Rejected("signature_mismatch");
      }
      return Spec.Genuine(parts[1]);
    }

    // Without a nonce store only the timestamp bounds a signature's life.
    method Verify(params: Params, sig: string, checked: int, counted: int) returns (verdict: Verdict)
      requires nonces != null ==> nonces.Valid()
      modifies nonces, if nonces == null then {} else nonces.Events()
      ensures nonces != null ==>
                && nonces.Valid() && fresh(nonces.Events() - old(nonces.Events()))
                && (nonces.Model(), verdict) == Spec.Verify(config, old(nonces.Model()), params, sig, checked, counted)
      ensures nonces == null ==>
                verdict == match Spec.Inspect(config, params, sig, checked)
                           case Rejected(reason) => Deny(reason)
                           case Genuine(_) => Pass
      ensures !config.configured ==>
                verdict == Deny("signer_not_configured") && (nonces != null ==> nonces.Model() == old(nonces.Model()))
    {
      var r := Inspect(params, sig, checked);
      if r.Rejected? {
        return Deny(r.reason);
      }
      if nonces != null {
        var count := nonces.Incr(Spec.NonceKey(r.nonce), config.NonceWindow(), counted);
        if count > 1 {
          return Deny("replay");
        }
      }
      return Pass;
    }
  }
}
