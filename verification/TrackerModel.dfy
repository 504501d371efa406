// The data session.Tracker works on: its configuration, its store keys and the
// values it keeps under them.
module TrackerModel {
  import opened Prelude
  import opened TtlMap
  import opened LockDuration
  import opened Decimal

  // Go's int on a 64-bit machine.
  type MachineInt = n: int | MIN_INT64 <= n <= MAX_INT64

  // net.ParseIP: an IPv4-mapped address reads as IPv4.
  type Word32 = n: nat | n < 0x1_0000_0000
  type Word128 = n: nat | n < 0x1_0000_0000_0000_0000_0000_0000_0000_0000

  datatype ParsedIp = Invalid | V4(bits32: Word32) | V6(bits128: Word128)

  // The prefix that counts as one place; text that is no address stands for itself.
  datatype Net = Cidr4(base: int, prefix: nat) | Cidr6(base: int, prefix: nat) | Raw(text: string)

  datatype Request = Request(token: string, ip: string, userAgent: string, fingerprint: string)

  datatype Session = Session(ip: string, userAgent: string, fingerprint: string, country: string,
                             issuedAt: int, lastSeen: int)

  // The lists hold rendered networks or hashed identities. The hash is a free
  // constructor: distinct identities have distinct hashes.
  datatype Name = Network(net: Net) | Sha256(preimage: string)

  datatype Key =
    | SessionKey(token: string)
    | NetsKey(user: string)
    | FailureKey(identity: string)
    | LockKey(identity: string)
    | StrikeKey(identity: string)
    | StuffingKey(ip: string)

  // Decimal text, a deadline in whole seconds, a JSON list, a JSON session.
  datatype Value =
    | Text(text: string)
    | Deadline(seconds: int)
    | Names(names: seq<Name>)
    | Binding(session: Session)

  type State = Entries<Key, Value>

  datatype Config = Config(
    ttl: Duration, subnetBits: MachineInt, knownNets: int, knownNetTtl: Duration,
    failures: int, failureWindow: Duration, lockout: Duration, maxLockout: Duration,
    backoffWindow: Duration, stuffingLimit: int, failClosed: bool,
    parseIp: string -> ParsedIp, countryOf: Option<string -> string>)
  {
    // A field that is not positive falls back to its default.
    static function Or(configured: int, default: int): (d: int)
      ensures default > 0 ==> d > 0
    {
      if configured <= 0 then default else configured
    }

    function Ttl(): (d: int) ensures d > 0 { Or(ttl, 30 * MINUTE) }
    function SubnetBits(): (n: MachineInt) ensures n > 0 { Or(subnetBits, 24) }
    function KnownNets(): (n: int) ensures n > 0 { Or(knownNets, 8) }
    function KnownNetTtl(): (d: int) ensures d > 0 { Or(knownNetTtl, 90 * 24 * HOUR) }
    function Failures(): (n: int) ensures n > 0 { Or(failures, 5) }
    function FailureWindow(): (d: int) ensures d > 0 { Or(failureWindow, 5 * MINUTE) }
    function Lockout(): (d: Duration) ensures d > 0 { Or(lockout, 15 * MINUTE) }
    function MaxLockout(): (d: Duration) ensures d > 0 { Or(maxLockout, 24 * HOUR) }
    function BackoffWindow(): (d: int) ensures d > 0 { Or(backoffWindow, 24 * HOUR) }
    function StuffingLimit(): (n: int) ensures n > 0 { Or(stuffingLimit, 10) }
  }

  function StoreError(c: Config): Verdict {
    if c.failClosed then Deny("store_error") else Pass
  }

  // ---- store keys as text ----

  function Prefix(key: Key): string {
    match key
    case SessionKey(_) => "sess:"
    case NetsKey(_) => "nets:"
    case FailureKey(_) => "fail:"
    case LockKey(_) => "lock:"
    case StrikeKey(_) => "strike:"
    case StuffingKey(_) => "stuff:"
  }

  // The key string: every family but the known networks hashes what follows.
  function Render(hash: string -> string, key: Key): string {
    Prefix(key) +
    match key
    case SessionKey(token) => hash(token)
    case NetsKey(user) => user
    case FailureKey(id) => hash(id)
    case LockKey(id) => hash(id)
    case StrikeKey(id) => hash(id)
    case StuffingKey(ip) => hash(ip)
  }

  lemma KeyTexts(hash: string -> string, x: string)
    ensures Render(hash, SessionKey(x)) == "sess:" + hash(x) && Render(hash, NetsKey(x)) == "nets:" + x
    ensures Render(hash, FailureKey(x)) == "fail:" + hash(x) && Render(hash, LockKey(x)) == "lock:" + hash(x)
    ensures Render(hash, StrikeKey(x)) == "strike:" + hash(x) && Render(hash, StuffingKey(x)) == "stuff:" + hash(x)
  {
  }

  // Keys never collide, within a family or across the six prefixes, whatever a
  // user name or a hash contains.
  lemma KeysNeverCollide(hash: string -> string, a: Key, b: Key)
    requires forall x, y :: hash(x) == hash(y) ==> x == y
    requires Render(hash, a) == Render(hash, b)
    ensures a == b
  {
    var r, s := Render(hash, a), Render(hash, b);
    assert r[0] == s[0] && r[1] == s[1] && r[2] == s[2];
    var p := Prefix(a);
    assert p == Prefix(b);
    assert r[|p|..] == s[|p|..];
  }

  // ---- networks ----

  function Clamp(bits: int, size: nat): nat {
    if bits < 0 then 0 else if bits > size then size else bits
  }

  // The address with its host bits cleared.
  function Mask(address: nat, prefix: nat, size: nat): int
    requires prefix <= size
  {
    var host := Pow2(size - prefix);
    address - address % host
  }

  const V6_SHIFT := 24

  function NetworkOf(c: Config, ip: string): Net {
    match c.parseIp(ip)
    case Invalid => Raw(ip)
    case V4(a) => var p := Clamp(c.SubnetBits(), 32); Cidr4(Mask(a, p, 32), p)
    case V6(a) => var p := Clamp(Wrap64(c.SubnetBits() + V6_SHIFT), 128); Cidr6(Mask(a, p, 128), p)
  }

  lemma MulIsStrict(h: int, x: int, y: int)
    requires h > 0 && x < y
    ensures h * x < h * y
  {
  }

  lemma MaskKeepsLeadingBits(a: nat, b: nat, prefix: nat, size: nat)
    requires prefix <= size
    ensures Mask(a, prefix, size) == Mask(b, prefix, size) <==>
            a / Pow2(size - prefix) == b / Pow2(size - prefix)
  {
    var h := Pow2(size - prefix);
    assert Mask(a, prefix, size) == h * (a / h) && Mask(b, prefix, size) == h * (b / h);
    if a / h < b / h {
      MulIsStrict(h, a / h, b / h);
    } else if b / h < a / h {
      MulIsStrict(h, b / h, a / h);
    }
  }

  // The addresses agree once this many of their last bits are cut off.
  ghost predicate AgreeWithout(a: nat, b: nat, bits: int) {
    if bits <= 0 then a == b else a / Pow2(bits) == b / Pow2(bits)
  }

  // Two clients are in one place exactly if their addresses are of one kind and
  // agree on the configured leading bits, 24 more of them for IPv6, or are the same
  // unparsed text. At the end of the machine's integers the 24 bits more wrap around
  // and all of IPv6 is one place.
  lemma SamePlace(c: Config, x: string, y: string)
    ensures NetworkOf(c, x) == NetworkOf(c, y) <==>
            var n := c.SubnetBits();
            match (c.parseIp(x), c.parseIp(y))
            case (V4(a), V4(b)) => AgreeWithout(a, b, 32 - n)
            case (V6(a), V6(b)) => AgreeWithout(a, b, 104 - n) || n > MAX_INT64 - 24
            case (Invalid, Invalid) => x == y
            case _ => false
  {
    hide Mask, Clamp, Pow2, AgreeWithout, Wrap64;
    match (c.parseIp(x), c.parseIp(y))
    case (V4(a), V4(b)) => SameV4(c.SubnetBits(), a, b);
    case (V6(a), V6(b)) => SameV6(c.SubnetBits(), a, b);
    case _ =>
  }

  lemma SameV4(n: MachineInt, a: Word32, b: Word32)
    requires n > 0
    ensures var p := Clamp(n, 32); Mask(a, p, 32) == Mask(b, p, 32) <==> AgreeWithout(a, b, 32 - n)
  {
    hide Mask;
    MaskKeepsLeadingBits(a, b, Clamp(n, 32), 32);
  }

  lemma SameV6(n: MachineInt, a: Word128, b: Word128)
    requires n > 0
    ensures var p := Clamp(Wrap64(n + V6_SHIFT), 128);
            Mask(a, p, 128) == Mask(b, p, 128) <==> AgreeWithout(a, b, 104 - n) || n > MAX_INT64 - 24
  {
    var p := Clamp(Wrap64(n + V6_SHIFT), 128);
    assert p == if n > MAX_INT64 - 24 then 0 else if n > 104 then 128 else n + 24;
    hide Mask, Wrap64, Clamp;
    MaskKeepsLeadingBits(a, b, p, 128);
    if n > MAX_INT64 - 24 {
      hide Pow2;
      PowersOfTwo();
    }
  }

  lemma PowersOfTwo()
    ensures Pow2(8) == 256
    ensures Pow2(80) == 0x1_0000_0000_0000_0000_0000
    ensures Pow2(128) == 0x1_0000_0000_0000_0000_0000_0000_0000_0000
  {
    assert Pow2(8) == 256 && Pow2(16) == 0x1_0000;
    hide Pow2;
    Pow2Sum(16, 16);
    assert Pow2(32) == 0x1_0000_0000;
    Pow2Sum(32, 32);
    assert Pow2(64) == 0x1_0000_0000_0000_0000;
    Pow2Sum(64, 16);
    Pow2Sum(64, 64);
  }

  lemma {:induction false} Pow2Sum(a: nat, b: nat)
    ensures Pow2(a + b) == Pow2(a) * Pow2(b)
  {
    if a > 0 {
      Pow2Sum(a - 1, b);
    }
  }

  // By default a place is the 256 addresses of an IPv4 /24, and the 2^80 addresses of
  // an IPv6 /48.
  lemma DefaultPlace(c: Config, x: string, y: string)
    requires c.subnetBits <= 0
    ensures c.parseIp(x).V4? && c.parseIp(y).V4? ==>
              (NetworkOf(c, x) == NetworkOf(c, y) <==>
               c.parseIp(x).bits32 / 256 == c.parseIp(y).bits32 / 256)
    ensures c.parseIp(x).V6? && c.parseIp(y).V6? ==>
              (NetworkOf(c, x) == NetworkOf(c, y) <==>
               c.parseIp(x).bits128 / 0x1_0000_0000_0000_0000_0000 ==
               c.parseIp(y).bits128 / 0x1_0000_0000_0000_0000_0000)
  {
    hide NetworkOf, Pow2;
    SamePlace(c, x, y);
    PowersOfTwo();
  }

  // ---- configuration ----

  // Every setting counts if it is positive and has its own default otherwise;
  // durations in nanoseconds.
  lemma SettingsAndDefaults(c: Config)
    ensures c.Ttl() == if c.ttl > 0 then c.ttl else 1_800_000_000_000
    ensures c.SubnetBits() == if c.subnetBits > 0 then c.subnetBits else 24
    ensures c.KnownNets() == if c.knownNets > 0 then c.knownNets else 8
    ensures c.KnownNetTtl() == if c.knownNetTtl > 0 then c.knownNetTtl else 7_776_000_000_000_000
    ensures c.Failures() == if c.failures > 0 then c.failures else 5
    ensures c.FailureWindow() == if c.failureWindow > 0 then c.failureWindow else 300_000_000_000
    ensures c.Lockout() == if c.lockout > 0 then c.lockout else 900_000_000_000
    ensures c.MaxLockout() == if c.maxLockout > 0 then c.maxLockout else 86_400_000_000_000
    ensures c.BackoffWindow() == if c.backoffWindow > 0 then c.backoffWindow else 86_400_000_000_000
    ensures c.StuffingLimit() == if c.stuffingLimit > 0 then c.stuffingLimit else 10
  {
  }
}
