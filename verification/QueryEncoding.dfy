// The canonical text of request parameters: session/tamper.go, canonical, over
// net/url's sorted query encoding (percent-encoding, sections 2.1 and 2.3 of
// RFC 3986).
module QueryEncoding {
  import opened Prelude
  import opened Text

  type Bytes = s: string | IsBytes(s)

  type Params = map<Bytes, Bytes>

  // ---- escaping one component ----

  predicate Unreserved(c: char) {
    'A' <= c <= 'Z' || 'a' <= c <= 'z' || '0' <= c <= '9' || c == '-' || c == '_' || c == '.' || c == '~'
  }

  function UpperHex(n: int): (c: char)
    requires 0 <= n < 16
    ensures '0' <= c <= '9' || 'A' <= c <= 'F'
  {
    if n < 10 then ('0' as int + n) as char else ('A' as int + n - 10) as char
  }

  function HexValue(c: char): int {
    if '0' <= c <= '9' then c as int - '0' as int else c as int - 'A' as int + 10
  }

  function EscapeByte(c: char): (s: string)
    requires c as int < 256
    ensures s != []
  {
    if Unreserved(c) then [c]
    else if c == ' ' then ['+']
    else ['%', UpperHex(c as int / 16), UpperHex(c as int % 16)]
  }

  function Escape(s: Bytes): string {
    if s == [] then [] else EscapeByte(s[0]) + Escape(s[1..])
  }

  // What a receiver does to undo it; None for text no escaping produces.
  function Unescape(s: string): Option<string> {
    if s == [] then Some([])
    else if s[0] == '%' then
      if |s| < 3 then None
      else
        var code := 16 * HexValue(s[1]) + HexValue(s[2]);
        match Unescape(s[3..])
        case Some(rest) => if 0 <= code < 256 then Some([code as char] + rest) else None
        case None => None
    else
      match Unescape(s[1..])
      case Some(rest) => Some([if s[0] == '+' then ' ' else s[0]] + rest)
      case None => None
  }

  // The unreserved characters (section 2.3 of RFC 3986) stay, a space becomes a plus
  // sign, and every other byte is its code in two digits behind a percent sign.
  lemma EscapedByte(c: char)
    requires c as int < 256
    ensures Escape([c]) ==
            if 'a' <= c <= 'z' || 'A' <= c <= 'Z' || '0' <= c <= '9' || c in "-_.~" then [c]
            else if c == ' ' then "+"
            else ['%', "0123456789ABCDEF"[c as int / 16], "0123456789ABCDEF"[c as int % 16]]
  {
    assert Escape([c]) == EscapeByte(c) + Escape([]);
    assert EscapeByte(c) + [] == EscapeByte(c);
    UpperHexAlphabet(c as int / 16);
    UpperHexAlphabet(c as int % 16);
  }

  lemma UpperHexAlphabet(n: int)
    requires 0 <= n < 16
    ensures UpperHex(n) == "0123456789ABCDEF"[n]
  {
  }

  // Text is escaped byte by byte.
  lemma {:induction false} EscapeConcat(a: Bytes, b: Bytes)
    ensures Escape(a + b) == Escape(a) + Escape(b)
  {
    if a == [] {
      assert a + b == b;
    } else {
      assert (a + b)[1..] == a[1..] + b;
      EscapeConcat(a[1..], b);
    }
  }

  lemma EscapedByteReadsBack(c: char, rest: string)
    requires c as int < 256 && Unescape(rest).Some?
    ensures Unescape(EscapeByte(c) + rest) == Some([c] + Unescape(rest).value)
  {
    var e := EscapeByte(c);
    assert (e + rest)[|e|..] == rest;
  }

  lemma {:induction false} EscapeRoundTrip(s: Bytes)
    ensures Unescape(Escape(s)) == Some(s)
  {
    if s != [] {
      EscapeRoundTrip(s[1..]);
      EscapedByteReadsBack(s[0], Escape(s[1..]));
      assert [s[0]] + s[1..] == s;
    }
  }

  // Escaped text holds neither separators nor a newline.
  lemma {:induction false} EscapeIsPlain(s: Bytes, c: char)
    requires !Unreserved(c) && c != '+' && c != '%'
    ensures Free(Escape(s), c)
  {
    if s != [] {
      EscapeIsPlain(s[1..], c);
    }
  }

  // ---- key-value pairs ----

  datatype Pair = Pair(key: Bytes, value: Bytes)

  function EncodePair(p: Pair): string {
    Escape(p.key) + ['='] + Escape(p.value)
  }

  function Encode(pairs: seq<Pair>): string {
    if pairs == [] then []
    else if |pairs| == 1 then EncodePair(pairs[0])
    else EncodePair(pairs[0]) + ['&'] + Encode(pairs[1..])
  }

  lemma PairIsPlain(p: Pair, c: char)
    requires !Unreserved(c) && c != '+' && c != '%' && c != '='
    ensures Free(EncodePair(p), c)
  {
    EscapeIsPlain(p.key, c);
    EscapeIsPlain(p.value, c);
  }

  lemma {:induction false} EncodeIsPlain(pairs: seq<Pair>, c: char)
    requires !Unreserved(c) && c != '+' && c != '%' && c != '=' && c != '&'
    ensures Free(Encode(pairs), c)
  {
    if pairs != [] {
      PairIsPlain(pairs[0], c);
      EncodeIsPlain(pairs[1..], c);
    }
  }

  lemma EscapeIsInjective(a: Bytes, b: Bytes)
    requires Escape(a) == Escape(b)
    ensures a == b
  {
    EscapeRoundTrip(a);
    EscapeRoundTrip(b);
  }

  lemma PairIsInjective(p: Pair, q: Pair)
    requires EncodePair(p) == EncodePair(q)
    ensures p == q
  {
    EscapeIsPlain(p.key, '=');
    EscapeIsPlain(q.key, '=');
    CutIsUnique(Escape(p.key), Escape(q.key), '=', Escape(p.value), Escape(q.value));
    EscapeIsInjective(p.key, q.key);
    EscapeIsInjective(p.value, q.value);
  }

  // A pair followed by more never reads as a pair alone.
  lemma SeparatorShows(p: Pair, q: Pair, more: string)
    ensures EncodePair(p) != EncodePair(q) + ['&'] + more
  {
    PairIsPlain(p, '&');
    assert (EncodePair(q) + ['&'] + more)[|EncodePair(q)|] == '&';
  }

  // A pair is its key, an equals sign and its value; pairs are joined by ampersands.
  lemma {:induction false} EncodeConcat(ps: seq<Pair>, qs: seq<Pair>)
    requires ps != [] && qs != []
    ensures Encode([ps[0]]) == Escape(ps[0].key) + "=" + Escape(ps[0].value)
    ensures Encode(ps + qs) == Encode(ps) + "&" + Encode(qs)
  {
    var all := ps + qs;
    assert all[0] == ps[0];
    if |ps| == 1 {
      assert all[1..] == qs;
    } else {
      assert all[1..] == ps[1..] + qs;
      EncodeConcat(ps[1..], qs);
      assert EncodePair(ps[0]) + ['&'] + (Encode(ps[1..]) + "&" + Encode(qs)) ==
             EncodePair(ps[0]) + ['&'] + Encode(ps[1..]) + "&" + Encode(qs);
    }
  }

  // The text determines the pairs and their order.
  lemma {:induction false} EncodeIsInjective(ps: seq<Pair>, qs: seq<Pair>)
    requires Encode(ps) == Encode(qs)
    ensures ps == qs
    decreases |ps|
  {
    hide EncodePair;
    EmptyIsAlone(ps);
    EmptyIsAlone(qs);
    if ps != [] && qs != [] {
      PairIsPlain(ps[0], '&');
      PairIsPlain(qs[0], '&');
      if |ps| == 1 && |qs| == 1 {
        PairIsInjective(ps[0], qs[0]);
      } else if |ps| == 1 {
        SeparatorShows(ps[0], qs[0], Encode(qs[1..]));
      } else if |qs| == 1 {
        SeparatorShows(qs[0], ps[0], Encode(ps[1..]));
      } else {
        CutIsUnique(EncodePair(ps[0]), EncodePair(qs[0]), '&', Encode(ps[1..]), Encode(qs[1..]));
        PairIsInjective(ps[0], qs[0]);
        EncodeIsInjective(ps[1..], qs[1..]);
        assert ps == [ps[0]] + ps[1..] && qs == [qs[0]] + qs[1..];
      }
    }
  }

  lemma EmptyIsAlone(ps: seq<Pair>)
    ensures Encode(ps) == [] <==> ps == []
  {
  }

  // ---- the sorted listing of a map ----

  predicate Less(a: string, b: string) {
    b != [] && (a == [] || a[0] < b[0] || (a[0] == b[0] && Less(a[1..], b[1..])))
  }

  // Where two keys first differ, the first has the smaller byte.
  ghost predicate SmallerAt(a: string, b: string, i: int) {
    0 <= i < |a| && i < |b| && a[..i] == b[..i] && a[i] < b[i]
  }

  // Keys are ordered byte by byte: a proper prefix comes first, and otherwise the
  // smaller byte at the first difference does.
  lemma {:induction false} LessIff(a: string, b: string)
    ensures Less(a, b) <==> a < b || exists i :: SmallerAt(a, b, i)
  {
    if a != [] && b != [] {
      if a[0] == b[0] {
        hide SmallerAt;
        LessIff(a[1..], b[1..]);
        PrefixStep(a, b);
        forall i ensures SmallerAt(a, b, i + 1) <==> SmallerAt(a[1..], b[1..], i) {
          SmallerStep(a, b, i);
        }
        forall i | SmallerAt(a, b, i) ensures SmallerAt(a[1..], b[1..], i - 1) {
          SmallerStep(a, b, i - 1);
        }
      } else if a[0] < b[0] {
        assert SmallerAt(a, b, 0);
      } else {
        forall i ensures !SmallerAt(a, b, i) {
          if SmallerAt(a, b, i) {
            StartsDecide(a, b, i);
            assert false;
          }
        }
      }
    }
  }

  lemma StartsDecide(a: string, b: string, i: int)
    requires SmallerAt(a, b, i)
    ensures a[0] <= b[0]
  {
    if i > 0 {
      assert a[..i][0] == b[..i][0];
    }
  }

  lemma SmallerStep(a: string, b: string, i: int)
    requires a != [] && b != [] && a[0] == b[0]
    ensures SmallerAt(a, b, i + 1) <==> SmallerAt(a[1..], b[1..], i)
  {
    if 0 <= i < |a| - 1 && i < |b| - 1 {
      var s, t := a[1..], b[1..];
      assert a[..i + 1] == [a[0]] + s[..i] && b[..i + 1] == [b[0]] + t[..i];
      assert a[..i + 1][1..] == s[..i] && b[..i + 1][1..] == t[..i];
    }
  }

  lemma PrefixStep(a: string, b: string)
    requires a != [] && b != [] && a[0] == b[0]
    ensures a[1..] < b[1..] <==> a < b
  {
    if a[1..] < b[1..] {
      assert forall i :: 0 < i < |a| ==> a[i] == a[1..][i - 1] == b[1..][i - 1] == b[i];
    }
  }

  lemma {:induction false} LessIsIrreflexive(a: string)
    ensures !Less(a, a)
  {
    if a != [] {
      LessIsIrreflexive(a[1..]);
    }
  }

  lemma {:induction false} LessIsTotal(a: string, b: string)
    ensures a == b || Less(a, b) || Less(b, a)
    ensures !(Less(a, b) && Less(b, a))
  {
    if a != [] && b != [] {
      LessIsTotal(a[1..], b[1..]);
      assert a == [a[0]] + a[1..] && b == [b[0]] + b[1..];
    }
  }

  lemma {:induction false} LessIsTransitive(a: string, b: string, c: string)
    requires Less(a, b) && Less(b, c)
    ensures Less(a, c)
  {
    if a != [] && a[0] == b[0] == c[0] {
      LessIsTransitive(a[1..], b[1..], c[1..]);
    }
  }

  ghost predicate Ascending(keys: seq<Bytes>) {
    forall i, j :: 0 <= i < j < |keys| ==> Less(keys[i], keys[j])
  }

  // keys lists exactly the keys of m, in order.
  ghost predicate Lists(keys: seq<Bytes>, s: set<Bytes>) {
    Ascending(keys) && (forall k :: k in keys <==> k in s)
  }

  // There is only one such listing.
  lemma {:induction false} ListingIsUnique(a: seq<Bytes>, b: seq<Bytes>, s: set<Bytes>)
    requires Lists(a, s) && Lists(b, s)
    ensures a == b
    decreases |a|
  {
    assert a != [] ==> a[0] in a;
    assert b != [] ==> b[0] in b;
    if a != [] {
      LessIsTotal(a[0], b[0]);
      assert a[0] == b[0];
      TailLists(a, s);
      TailLists(b, s);
      ListingIsUnique(a[1..], b[1..], s - {a[0]});
      assert a == [a[0]] + a[1..] && b == [b[0]] + b[1..];
    }
  }

  lemma TailLists(a: seq<Bytes>, s: set<Bytes>)
    requires a != [] && Lists(a, s)
    ensures Lists(a[1..], s - {a[0]})
  {
    forall k | k in s && k != a[0] ensures k in a[1..] {
      var i :| 0 <= i < |a| && a[i] == k;
      assert a[1..][i - 1] == k;
    }
    LessIsIrreflexive(a[0]);
  }

  function PairsFor(keys: seq<Bytes>, m: Params): (pairs: seq<Pair>)
    requires forall i :: 0 <= i < |keys| ==> keys[i] in m
    ensures |pairs| == |keys|
  {
    seq(|keys|, i requires 0 <= i < |keys| => Pair(keys[i], m[keys[i]]))
  }

  // The text is the encoding of the sorted listing.
  ghost predicate IsCanonical(text: string, m: Params) {
    exists keys :: Lists(keys, m.Keys) && text == Encode(PairsFor(keys, m))
  }

  // One text per map.
  lemma CanonicalIsUnique(s: string, t: string, m: Params)
    requires IsCanonical(s, m) && IsCanonical(t, m)
    ensures s == t
  {
    var a :| Lists(a, m.Keys) && s == Encode(PairsFor(a, m));
    var b :| Lists(b, m.Keys) && t == Encode(PairsFor(b, m));
    ListingIsUnique(a, b, m.Keys);
  }

  // One map per text.
  lemma CanonicalIsInjective(s: string, m: Params, n: Params)
    requires IsCanonical(s, m) && IsCanonical(s, n)
    ensures m == n
  {
    var a :| Lists(a, m.Keys) && s == Encode(PairsFor(a, m));
    var b :| Lists(b, n.Keys) && s == Encode(PairsFor(b, n));
    var ps, qs := PairsFor(a, m), PairsFor(b, n);
    EncodeIsInjective(ps, qs);
    forall i | 0 <= i < |a| ensures a[i] == b[i] && m[a[i]] == n[b[i]] {
      assert ps[i] == qs[i];
    }
    assert a == b;
    assert m.Keys == n.Keys;
    forall k | k in m ensures m[k] == n[k] {
      assert k in a;
    }
  }

  lemma CanonicalHasNoNewline(s: string, m: Params)
    requires IsCanonical(s, m)
    ensures Free(s, '\n')
  {
    var a :| Lists(a, m.Keys) && s == Encode(PairsFor(a, m));
    EncodeIsPlain(PairsFor(a, m), '\n');
  }

  // ---- computing it ----

  // Sorting, one key at a time.
  function Inserted(keys: seq<Bytes>, k: Bytes): seq<Bytes> {
    if keys == [] || Less(k, keys[0]) then [k] + keys else [keys[0]] + Inserted(keys[1..], k)
  }

  lemma {:induction false} InsertedLists(keys: seq<Bytes>, k: Bytes, s: set<Bytes>)
    requires Lists(keys, s) && k !in s
    ensures Lists(Inserted(keys, k), s + {k})
  {
    var longer := Inserted(keys, k);
    if keys != [] {
      assert keys[0] in keys;
      LessIsTotal(keys[0], k);
    }
    if keys == [] || Less(k, keys[0]) {
      forall j | 0 <= j < |keys| ensures Less(k, keys[j]) {
        if 0 < j { LessIsTransitive(k, keys[0], keys[j]); }
      }
      assert forall x :: x in longer <==> x in keys || x == k;
    } else {
      TailLists(keys, s);
      InsertedLists(keys[1..], k, s - {keys[0]});
      var tail := Inserted(keys[1..], k);
      forall j | 0 <= j < |tail| ensures Less(keys[0], tail[j]) {
        assert tail[j] in tail;
        if tail[j] != k {
          var i :| 0 <= i < |keys| && keys[i] == tail[j];
        }
      }
      assert forall x :: x in longer <==> x == keys[0] || x in tail;
    }
  }

  // The loop copies the parameters in whatever order the map yields them; the
  // text does not depend on it.
  method Canonical(params: Params) returns (text: string)
    ensures IsCanonical(text, params)
  {
    var values: Params := map[];
    var keys: seq<Bytes> := [];
    var pending := params.Keys;
    while pending != {}
      invariant pending <= params.Keys
      invariant values == map k | k in params && k !in pending :: params[k]
      invariant Lists(keys, values.Keys)
      decreases pending
    {
      var k :| k in pending;
      InsertedLists(keys, k, values.Keys);
      keys := Inserted(keys, k);
      values := values[k := params[k]];
      pending := pending - {k};
    }
    assert values == params;
    text := Encode(PairsFor(keys, params));
  }

  lemma {:induction false} ListingExists(s: set<Bytes>) returns (keys: seq<Bytes>)
    ensures Lists(keys, s)
  {
    if s == {} {
      keys := [];
    } else {
      var k :| k in s;
      var rest := ListingExists(s - {k});
      keys := Inserted(rest, k);
      InsertedLists(rest, k, s - {k});
      assert s - {k} + {k} == s;
    }
  }

  // The canonical text as a function.
  ghost function CanonicalText(m: Params): (text: string)
    ensures IsCanonical(text, m)
  {
    assert exists text: string :: IsCanonical(text, m) by {
      var keys := ListingExists(m.Keys);
      assert IsCanonical(Encode(PairsFor(keys, m)), m);
    }
    var text :| IsCanonical(text, m);
    text
  }
}
