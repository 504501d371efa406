// Replays over whole runs: the nonce backend is shared, reaped and presented with
// arbitrary parameters and signatures.
module SignerRuns {
  import opened Prelude
  import opened Decimal
  import opened Text
  import opened QueryEncoding
  import opened Windows
  import opened MemoryBackend
  import opened SignerModel
  import B = BackendRuns

  // A presentation takes effect when the backend counts it, delay after its
  // freshness was checked; presentations may overlap.
  datatype Op = Present(time: int, delay: int, params: Params, sig: string) | Traffic(op: B.Op)

  function At(op: Op): int {
    if op.Present? then op.time else op.op.at
  }

  ghost predicate Timely(ops: seq<Op>, now: int) {
    && (forall i, j :: 0 <= i < j < |ops| ==> At(ops[i]) <= At(ops[j]))
    && (forall i :: 0 <= i < |ops| ==> At(ops[i]) <= now)
  }

  ghost function Step(c: SignerConfig, window: int, m: Mem, op: Op): Mem {
    match op
    case Present(at, delay, params, sig) => VerifyWithin(c, window, m, params, sig, at - delay, at).0
    case Traffic(o) => B.MemStep(m, o)
  }

  ghost function Run(c: SignerConfig, window: int, ops: seq<Op>): Mem {
    if ops == [] then Mem(map[], map[]) else Step(c, window, Run(c, window, Front(ops)), Last(ops))
  }

  // The last operation presents sig and is let through.
  ghost predicate AcceptsLast(c: SignerConfig, window: int, ops: seq<Op>, sig: string)
    requires ops != []
  {
    var op := Last(ops);
    op.Present? && op.sig == sig &&
    VerifyWithin(c, window, Run(c, window, Front(ops)), op.params, sig, op.time - op.delay, op.time).1 == Pass
  }

  ghost function Acceptances(c: SignerConfig, window: int, ops: seq<Op>, sig: string): nat {
    if ops == [] then 0
    else Acceptances(c, window, Front(ops), sig) + if AcceptsLast(c, window, ops, sig) then 1 else 0
  }

  // No presentation is counted more than delay after it was checked.
  ghost predicate DelaysWithin(ops: seq<Op>, delay: int) {
    forall i :: 0 <= i < |ops| && ops[i].Present? ==> 0 <= ops[i].delay <= delay
  }

  // Whatever else uses the backend stays off the signer's keys.
  ghost predicate KeysAreReserved(ops: seq<Op>) {
    forall i :: 0 <= i < |ops| && ops[i].Traffic? && ops[i].op.Incr? ==> !("sig:" <= ops[i].op.key)
  }

  // The instant a signature claims, and its nonce.
  ghost predicate Claims(sig: string, secs: int, nonce: string) {
    var parts := Split(sig, '.');
    |parts| == 3 && ParseInt64(parts[0]) == Some(secs) && parts[1] == nonce
  }

  lemma GenuineClaims(c: SignerConfig, params: Params, sig: string, now: int)
    requires Inspect(c, params, sig, now).Genuine?
    ensures exists secs :: Claims(sig, secs, Inspect(c, params, sig, now).nonce)
    ensures forall secs, nonce :: Claims(sig, secs, nonce) ==>
              nonce == Inspect(c, params, sig, now).nonce && -c.MaxSkew() <= now - secs * SECOND <= c.MaxSkew()
  {
    hide Mac;
    var parts := Split(sig, '.');
    assert Claims(sig, ParseInt64(parts[0]).value, parts[1]);
  }

  // Once accepted, no presentation can be counted as fresh any more, or the nonce is
  // counted in a window that lasts as long as one can.
  ghost predicate Burnt(c: SignerConfig, window: int, delay: int, m: Mem, secs: int, nonce: string, now: int) {
    var end := secs * SECOND + c.MaxSkew() + delay;
    now > end ||
    (&& NonceKey(nonce) in m.events
     && m.events[NonceKey(nonce)].count >= 1
     && m.events[NonceKey(nonce)].window == window
     && m.events[NonceKey(nonce)].start + window >= end)
  }

  lemma StepKeepsBurnt(c: SignerConfig, window: int, delay: int, m: Mem, op: Op, secs: int, nonce: string, now: int)
    requires window >= 2 * c.MaxSkew() + delay
    requires Burnt(c, window, delay, m, secs, nonce, At(op)) && At(op) <= now
    requires op.Traffic? && op.op.Incr? ==> !("sig:" <= op.op.key)
    ensures Burnt(c, window, delay, Step(c, window, m, op), secs, nonce, now)
  {
    hide Inspect;
    assert "sig:" <= NonceKey(nonce);
  }

  // Presenting a burnt signature fails; accepting one burns it.
  lemma BurntIsRejected(c: SignerConfig, window: int, delay: int, m: Mem, op: Op, secs: int, nonce: string)
    requires window >= 2 * c.MaxSkew() + delay && op.Present? && 0 <= op.delay <= delay
    requires Claims(op.sig, secs, nonce) && Burnt(c, window, delay, m, secs, nonce, op.time)
    ensures VerifyWithin(c, window, m, op.params, op.sig, op.time - op.delay, op.time).1 != Pass
  {
    if Inspect(c, op.params, op.sig, op.time - op.delay).Genuine? {
      GenuineClaims(c, op.params, op.sig, op.time - op.delay);
      hide Inspect, Claims;
    }
  }

  lemma AcceptingBurns(c: SignerConfig, window: int, delay: int, m: Mem, op: Op, secs: int, nonce: string)
    requires window >= 2 * c.MaxSkew() + delay && op.Present? && 0 <= op.delay <= delay
    requires Claims(op.sig, secs, nonce)
    requires VerifyWithin(c, window, m, op.params, op.sig, op.time - op.delay, op.time).1 == Pass
    requires forall k :: k in m.events ==> m.events[k].count >= 1
    ensures Burnt(c, window, delay, Step(c, window, m, op), secs, nonce, op.time)
  {
    GenuineClaims(c, op.params, op.sig, op.time - op.delay);
    hide Inspect, Claims;
  }

  lemma {:induction false} CountsArePositive(c: SignerConfig, window: int, ops: seq<Op>)
    ensures forall k :: k in Run(c, window, ops).events ==> Run(c, window, ops).events[k].count >= 1
  {
    if ops != [] {
      hide Inspect;
      CountsArePositive(c, window, Front(ops));
    }
  }

  lemma {:induction false} AcceptedOnceIsBurnt(c: SignerConfig, window: int, delay: int, ops: seq<Op>, sig: string,
                                               secs: int, nonce: string, now: int)
    requires window >= 2 * c.MaxSkew() + delay && Claims(sig, secs, nonce)
    requires Timely(ops, now) && KeysAreReserved(ops) && DelaysWithin(ops, delay)
    ensures Acceptances(c, window, ops, sig) <= 1
    ensures Acceptances(c, window, ops, sig) == 1 ==> Burnt(c, window, delay, Run(c, window, ops), secs, nonce, now)
  {
    if ops != [] {
      hide Burnt, VerifyWithin, Claims;
      var m, op := Run(c, window, Front(ops)), Last(ops);
      AcceptedOnceIsBurnt(c, window, delay, Front(ops), sig, secs, nonce, At(op));
      if Acceptances(c, window, Front(ops), sig) == 1 {
        StepKeepsBurnt(c, window, delay, m, op, secs, nonce, now);
        if op.Present? && op.sig == sig {
          BurntIsRejected(c, window, delay, m, op, secs, nonce);
        }
      } else if AcceptsLast(c, window, ops, sig) {
        CountsArePositive(c, window, Front(ops));
        AcceptingBurns(c, window, delay, m, op, secs, nonce);
        BurntLater(c, window, delay, Run(c, window, ops), secs, nonce, op.time, now);
      }
    }
  }

  lemma BurntLater(c: SignerConfig, window: int, delay: int, m: Mem, secs: int, nonce: string, at: int, now: int)
    requires Burnt(c, window, delay, m, secs, nonce, at) && at <= now
    ensures Burnt(c, window, delay, m, secs, nonce, now)
  {
  }

  lemma {:induction false} UnclaimedIsNeverAccepted(c: SignerConfig, window: int, ops: seq<Op>, sig: string)
    requires forall secs, nonce :: !Claims(sig, secs, nonce)
    ensures Acceptances(c, window, ops, sig) == 0
  {
    if ops != [] {
      hide Claims, Inspect;
      UnclaimedIsNeverAccepted(c, window, Front(ops), sig);
      var op := Last(ops);
      if op.Present? && op.sig == sig && Inspect(c, op.params, sig, op.time - op.delay).Genuine? {
        GenuineClaims(c, op.params, sig, op.time - op.delay);
      }
    }
  }

  // No signature is accepted twice, in any run, if the nonce window covers the
  // whole interval in which a signature is fresh and the delay of counting it.
  lemma AcceptedAtMostOnce(c: SignerConfig, window: int, delay: int, ops: seq<Op>, sig: string, now: int)
    requires window >= 2 * c.MaxSkew() + delay
    requires Timely(ops, now) && KeysAreReserved(ops) && DelaysWithin(ops, delay)
    ensures Acceptances(c, window, ops, sig) <= 1
  {
    hide Claims, Acceptances, Timely, KeysAreReserved, DelaysWithin;
    if secs, nonce :| Claims(sig, secs, nonce) {
      AcceptedOnceIsBurnt(c, window, delay, ops, sig, secs, nonce, now);
    } else {
      UnclaimedIsNeverAccepted(c, window, ops, sig);
    }
  }

  // ---- the window is exact ----

  // A signature of second zero, counted at once when it becomes fresh, and again
  // with the full delay when it stops being so.
  ghost function Twice(c: SignerConfig, delay: int, params: Params): seq<Op> {
    var sig := Signature(c, params, "0", "");
    [Present(-c.MaxSkew(), 0, params, sig), Present(c.MaxSkew() + delay, delay, params, sig)]
  }

  lemma ZeroIsGenuine(c: SignerConfig, params: Params, now: int)
    requires c.configured && -c.MaxSkew() <= now <= c.MaxSkew()
    ensures Inspect(c, params, Signature(c, params, "0", ""), now) == Genuine("")
  {
    hide Signature, Mac;
    SignatureSplits(c, params, "0", "");
    assert Itoa(0) == "0";
    ParseOfItoa(0);
  }

  // With any shorter window it is accepted both times.
  lemma ShorterWindowAcceptsTwice(c: SignerConfig, window: int, delay: int, params: Params)
    requires c.configured && delay >= 0 && window < 2 * c.MaxSkew() + delay
    ensures var ops, sig := Twice(c, delay, params), Signature(c, params, "0", "");
            && Timely(ops, c.MaxSkew() + delay) && KeysAreReserved(ops) && DelaysWithin(ops, delay)
            && Acceptances(c, window, ops, sig) == 2
  {
    hide Inspect, Signature;
    var sig := Signature(c, params, "0", "");
    var late := c.MaxSkew() + delay;
    var first, second := Present(-c.MaxSkew(), 0, params, sig), Present(late, delay, params, sig);
    ZeroIsGenuine(c, params, -c.MaxSkew());
    ZeroIsGenuine(c, params, c.MaxSkew());
    var empty := Mem(map[], map[]);
    var m1 := Step(c, window, empty, first);
    assert Front([first]) == [] && Front([first, second]) == [first];
    assert Run(c, window, []) == empty && Run(c, window, [first]) == m1;
    assert VerifyWithin(c, window, empty, params, sig, -c.MaxSkew(), -c.MaxSkew()).1 == Pass;
    assert m1.events[NonceKey("")] == Counter(1, -c.MaxSkew(), window);
    assert VerifyWithin(c, window, m1, params, sig, c.MaxSkew(), late).1 == Pass;
    assert AcceptsLast(c, window, [first], sig) && AcceptsLast(c, window, [first, second], sig);
    assert Acceptances(c, window, [first], sig) == 1;
  }

  // Replays are impossible in every run whose presentations are counted within the
  // given delay.
  ghost predicate ReplayProof(c: SignerConfig, window: int, delay: int) {
    forall ops, sig, now :: Timely(ops, now) && KeysAreReserved(ops) && DelaysWithin(ops, delay) ==>
      Acceptances(c, window, ops, sig) <= 1
  }

  // The windows that are long enough are exactly those that cover both.
  lemma WindowSufficesIff(c: SignerConfig, window: int, delay: int)
    requires c.configured && delay >= 0
    ensures ReplayProof(c, window, delay) <==> window >= 2 * c.MaxSkew() + delay
  {
    hide Acceptances;
    if window >= 2 * c.MaxSkew() + delay {
      forall ops, sig, now | Timely(ops, now) && KeysAreReserved(ops) && DelaysWithin(ops, delay)
        ensures Acceptances(c, window, ops, sig) <= 1
      {
        AcceptedAtMostOnce(c, window, delay, ops, sig, now);
      }
    } else {
      ShorterWindowAcceptsTwice(c, window, delay, map[]);
    }
  }

  lemma WindowCoversIff(c: SignerConfig)
    ensures c.NonceWindow() >= 2 * c.MaxSkew() <==> 2 * c.MaxSkew() <= MAX_INT64
    ensures c.NonceWindow() <= 2 * c.MaxSkew()
  {
  }

  // The window of the code suffices exactly if doubling MaxSkew does not overflow
  // 64 bits and no time passes between the two clock readings.
  lemma ReplayProofIff(c: SignerConfig, delay: int)
    requires c.configured && delay >= 0
    ensures ReplayProof(c, c.NonceWindow(), delay) <==> 2 * c.MaxSkew() <= MAX_INT64 && delay == 0
  {
    hide ReplayProof;
    WindowCoversIff(c);
    WindowSufficesIff(c, c.NonceWindow(), delay);
  }

  // ---- an honest signature cannot be burnt ----

  // No presentation so far carried the nonce under a matching MAC.
  ghost predicate NeverGenuine(c: SignerConfig, ops: seq<Op>, nonce: string) {
    forall i :: 0 <= i < |ops| && ops[i].Present? ==>
      Inspect(c, ops[i].params, ops[i].sig, ops[i].time - ops[i].delay) != Genuine(nonce)
  }

  lemma {:induction false} NonceIsUntouched(c: SignerConfig, ops: seq<Op>, nonce: string)
    requires NeverGenuine(c, ops, nonce) && KeysAreReserved(ops)
    ensures NonceKey(nonce) !in Run(c, c.NonceWindow(), ops).events
  {
    if ops != [] {
      hide Inspect;
      NonceIsUntouched(c, Front(ops), nonce);
      assert "sig:" <= NonceKey(nonce);
      forall other | other != nonce ensures NonceKey(other) != NonceKey(nonce) {
        assert NonceKey(other)[4..] == other && NonceKey(nonce)[4..] == nonce;
      }
    }
  }

  // However many forged, stale or malformed signatures came before, also with the
  // same nonce, the first presentation of an honest signature is accepted exactly
  // if its age is within MaxSkew.
  lemma HonestIsAcceptedIff(c: SignerConfig, ops: seq<Op>, params: Params, signed: int, random: seq<Byte>,
                            checked: int, counted: int)
    requires c.configured && MIN_INT64 <= WholeSeconds(signed) <= MAX_INT64
    requires NeverGenuine(c, ops, Hex(random)) && KeysAreReserved(ops)
    ensures Verify(c, Run(c, c.NonceWindow(), ops), params, Sign(c, params, signed, random), checked, counted).1 == Pass
            <==> -c.MaxSkew() <= checked - WholeSeconds(signed) * SECOND <= c.MaxSkew()
  {
    hide Inspect, Run, Hex, WholeSeconds;
    NonceIsUntouched(c, ops, Hex(random));
    SignedIsGenuineIff(c, params, signed, random, checked);
  }

  // Honest signatures, each with the random bytes it drew.
  datatype Honest = Honest(params: Params, signed: int, random: seq<Byte>)

  ghost function SigOf(c: SignerConfig, h: Honest): string {
    Sign(c, h.params, h.signed, h.random)
  }

  // No two drew the same bytes.
  ghost predicate DrawsDiffer(issued: seq<Honest>) {
    forall i, j :: 0 <= i < j < |issued| ==> issued[i].random != issued[j].random
  }

  // What was genuine so far was issued, and was not the k-th that was issued: nobody
  // else can sign, and the k-th has not been presented yet.
  ghost predicate OthersOnly(c: SignerConfig, ops: seq<Op>, issued: seq<Honest>, k: nat) {
    forall i :: 0 <= i < |ops| && ops[i].Present? &&
                Inspect(c, ops[i].params, ops[i].sig, ops[i].time - ops[i].delay).Genuine? ==>
                  IsOneOf(c, ops[i].sig, issued, k)
  }

  ghost predicate IsOneOf(c: SignerConfig, sig: string, issued: seq<Honest>, k: nat) {
    exists j :: 0 <= j < |issued| && j != k && sig == SigOf(c, issued[j])
  }

  lemma NonceOfHonest(c: SignerConfig, h: Honest, params: Params, now: int, nonce: string)
    requires Inspect(c, params, SigOf(c, h), now) == Genuine(nonce)
    ensures nonce == Hex(h.random)
  {
    hide Hex, Itoa, WholeSeconds, Mac;
    SignedPartsArePlain(h.signed, h.random);
    SignatureSplits(c, h.params, Itoa(WholeSeconds(h.signed)), Hex(h.random));
  }

  // Honest signatures that drew different bytes never stand in each other's way:
  // each is accepted at its first presentation exactly while it is fresh, whichever
  // of the others were presented before, and whatever forgeries.
  lemma DifferentDrawsAreAccepted(c: SignerConfig, ops: seq<Op>, issued: seq<Honest>, k: nat, checked: int,
                                  counted: int)
    requires c.configured && KeysAreReserved(ops)
    requires k < |issued| && MIN_INT64 <= WholeSeconds(issued[k].signed) <= MAX_INT64
    requires DrawsDiffer(issued) && OthersOnly(c, ops, issued, k)
    ensures var h := issued[k];
            Verify(c, Run(c, c.NonceWindow(), ops), h.params, SigOf(c, h), checked, counted).1 == Pass <==>
            -c.MaxSkew() <= checked - WholeSeconds(h.signed) * SECOND <= c.MaxSkew()
  {
    hide Inspect, Run, Hex, WholeSeconds, KeysAreReserved, Verify, SigOf;
    var h := issued[k];
    forall i | 0 <= i < |ops| && ops[i].Present?
      ensures Inspect(c, ops[i].params, ops[i].sig, ops[i].time - ops[i].delay) != Genuine(Hex(h.random))
    {
      if Inspect(c, ops[i].params, ops[i].sig, ops[i].time - ops[i].delay) == Genuine(Hex(h.random)) {
        var j :| 0 <= j < |issued| && j != k && ops[i].sig == SigOf(c, issued[j]);
        NonceOfHonest(c, issued[j], ops[i].params, ops[i].time - ops[i].delay, Hex(h.random));
        HexIsInjective(issued[j].random, h.random);
        assert false;
      }
    }
    HonestIsHonest(c, h);
    HonestIsAcceptedIff(c, ops, h.params, h.signed, h.random, checked, counted);
  }

  lemma HonestIsHonest(c: SignerConfig, h: Honest)
    ensures SigOf(c, h) == Sign(c, h.params, h.signed, h.random)
  {
  }

  // ---- a signer without a secret ----

  ghost function OtherTraffic(ops: seq<Op>): seq<B.Op> {
    if ops == [] then []
    else OtherTraffic(Front(ops)) + if Last(ops).Traffic? then [Last(ops).op] else []
  }

  // It accepts nothing, in any run, and never touches the backend.
  lemma {:induction false} UnconfiguredAcceptsNothing(c: SignerConfig, window: int, ops: seq<Op>, sig: string)
    requires !c.configured
    ensures Acceptances(c, window, ops, sig) == 0
    ensures Run(c, window, ops) == B.MemRun(OtherTraffic(ops))
  {
    if ops != [] {
      hide Inspect;
      UnconfiguredAcceptsNothing(c, window, Front(ops), sig);
      var op, rest := Last(ops), OtherTraffic(Front(ops));
      if op.Present? {
        UnconfiguredIsRefused(c, op.params, op.sig, op.time - op.delay);
        assert OtherTraffic(ops) == rest;
      } else {
        FrontOfSnoc(rest, op.op);
      }
    }
  }

  // ---- every verdict of a run ----

  // The last operation presents a genuine signature with the nonce and is let
  // through.
  ghost predicate AcceptsNonce(c: SignerConfig, window: int, ops: seq<Op>, nonce: string)
    requires ops != []
  {
    var op := Last(ops);
    && op.Present?
    && Inspect(c, op.params, op.sig, op.time - op.delay) == Genuine(nonce)
    && VerifyWithin(c, window, Run(c, window, Front(ops)), op.params, op.sig, op.time - op.delay, op.time).1 == Pass
  }

  // When the nonce was last accepted.
  ghost function LastAcceptance(c: SignerConfig, window: int, ops: seq<Op>, nonce: string): Option<int> {
    if ops == [] then None
    else if AcceptsNonce(c, window, ops, nonce) then Some(Last(ops).time)
    else LastAcceptance(c, window, Front(ops), nonce)
  }

  // The counter of a nonce was opened by its latest acceptance.
  ghost predicate NonceTracks(m: Mem, window: int, nonce: string, accepted: Option<int>, now: int) {
    if NonceKey(nonce) in m.events then
      var e := m.events[NonceKey(nonce)];
      accepted == Some(e.start) && e.window == window && e.count >= 1
    else
      accepted == None || now - accepted.value > window
  }

  lemma NonceKeysDiffer(nonce: string, other: string)
    requires NonceKey(nonce) == NonceKey(other)
    ensures nonce == other
  {
    assert NonceKey(other)[4..] == other && NonceKey(nonce)[4..] == nonce;
  }

  lemma PresentKeepsTrack(c: SignerConfig, window: int, m: Mem, op: Op, nonce: string, accepted: Option<int>, now: int)
    requires op.Present? && NonceTracks(m, window, nonce, accepted, op.time) && op.time <= now
    ensures var verified := VerifyWithin(c, window, m, op.params, op.sig, op.time - op.delay, op.time);
            var r := Inspect(c, op.params, op.sig, op.time - op.delay);
            NonceTracks(verified.0, window, nonce,
                        if r == Genuine(nonce) && verified.1 == Pass then Some(op.time) else accepted, now)
  {
    hide Inspect;
    var r := Inspect(c, op.params, op.sig, op.time - op.delay);
    if r.Genuine? && NonceKey(r.nonce) == NonceKey(nonce) {
      NonceKeysDiffer(r.nonce, nonce);
    }
  }

  lemma TrafficKeepsTrack(m: Mem, window: int, op: B.Op, nonce: string, accepted: Option<int>, now: int)
    requires NonceTracks(m, window, nonce, accepted, op.at) && op.at <= now
    requires op.Incr? ==> !("sig:" <= op.key)
    ensures NonceTracks(B.MemStep(m, op), window, nonce, accepted, now)
  {
    assert "sig:" <= NonceKey(nonce);
  }

  lemma {:induction false} NonceTracked(c: SignerConfig, window: int, ops: seq<Op>, nonce: string, now: int)
    requires Timely(ops, now) && KeysAreReserved(ops)
    ensures NonceTracks(Run(c, window, ops), window, nonce, LastAcceptance(c, window, ops, nonce), now)
  {
    if ops != [] {
      hide Inspect, VerifyWithin, NonceTracks;
      var m, op := Run(c, window, Front(ops)), Last(ops);
      NonceTracked(c, window, Front(ops), nonce, At(op));
      var accepted := LastAcceptance(c, window, Front(ops), nonce);
      if op.Present? {
        PresentKeepsTrack(c, window, m, op, nonce, accepted, now);
      } else {
        TrafficKeepsTrack(m, window, op.op, nonce, accepted, now);
      }
    } else {
      NothingTracked(c, window, nonce, now);
    }
  }

  lemma NothingTracked(c: SignerConfig, window: int, nonce: string, now: int)
    ensures NonceTracks(Run(c, window, []), window, nonce, LastAcceptance(c, window, [], nonce), now)
  {
  }

  // Any presentation in any run, of any text, is accepted exactly if the signer has
  // a secret, the text is a timestamp within MaxSkew, a nonce and the MAC over both
  // and the parameters, and the nonce was not accepted within the nonce window.
  lemma PresentationAcceptedIff(c: SignerConfig, window: int, ops: seq<Op>, params: Params, sig: string, checked: int,
                                counted: int)
    requires Timely(ops, counted) && KeysAreReserved(ops)
    ensures VerifyWithin(c, window, Run(c, window, ops), params, sig, checked, counted).1 == Pass <==>
            && c.configured
            && exists ts, secs, nonce ::
                 && IsAuthentic(c, params, sig, ts, secs, nonce, checked)
                 && Unused(c, window, ops, nonce, counted)
  {
    hide Inspect, IsAuthentic, LastAcceptance, Timely, KeysAreReserved, Run, NonceTracks;
    var r := Inspect(c, params, sig, checked);
    if r.Genuine? {
      GenuineIff(c, params, sig, r.nonce, checked);
      var ts, secs :| IsAuthentic(c, params, sig, ts, secs, r.nonce, checked);
      NonceTracked(c, window, ops, r.nonce, counted);
      NonceCounts(Run(c, window, ops), window, r.nonce, LastAcceptance(c, window, ops, r.nonce), counted);
    }
    forall ts, secs, nonce | c.configured && IsAuthentic(c, params, sig, ts, secs, nonce, checked)
      ensures r == Genuine(nonce)
    {
      GenuineIff(c, params, sig, nonce, checked);
    }
  }

  // The nonce was not accepted within the window.
  ghost predicate Unused(c: SignerConfig, window: int, ops: seq<Op>, nonce: string, now: int) {
    var accepted := LastAcceptance(c, window, ops, nonce);
    accepted == None || now - accepted.value > window
  }

  lemma NonceCounts(m: Mem, window: int, nonce: string, accepted: Option<int>, now: int)
    requires NonceTracks(m, window, nonce, accepted, now)
    ensures m.Incr(NonceKey(nonce), Hit(now, window)).events[NonceKey(nonce)].count > 1 <==>
            accepted.Some? && now - accepted.value <= window
  {
  }
}
