// Strings as bytes: splitting, and the three encodings a signature is made of.
module Text {
  import opened Prelude
  import opened Numerals

  type Byte = n: nat | n < 256

  // A Go string: one character per byte.
  predicate IsBytes(s: string) {
    forall i :: 0 <= i < |s| ==> s[i] as int < 256
  }

  predicate Free(s: string, c: char) {
    forall i :: 0 <= i < |s| ==> s[i] != c
  }

  // strings.Split at one character: always at least one part.
  function Split(s: string, sep: char): (parts: seq<string>)
    ensures parts != []
  {
    if s == [] then [[]]
    else
      var rest := Split(s[1..], sep);
      if s[0] == sep then [[]] + rest else [[s[0]] + rest[0]] + rest[1..]
  }

  lemma {:induction false} SplitFree(s: string, sep: char)
    requires Free(s, sep)
    ensures Split(s, sep) == [s]
  {
    if s != [] {
      SplitFree(s[1..], sep);
      assert [s[0]] + s[1..] == s;
    }
  }

  lemma {:induction false} SplitAtFirst(a: string, sep: char, b: string)
    requires Free(a, sep)
    ensures Split(a + [sep] + b, sep) == [a] + Split(b, sep)
  {
    var s := a + [sep] + b;
    if a == [] {
      assert s[1..] == b;
    } else {
      assert s[1..] == a[1..] + [sep] + b;
      SplitAtFirst(a[1..], sep, b);
      var rest := Split(s[1..], sep);
      assert rest[0] == a[1..] && rest[1..] == Split(b, sep);
      assert [s[0]] + rest[0] == a;
    }
  }

  function Join(parts: seq<string>, sep: char): string
    requires parts != []
  {
    if |parts| == 1 then parts[0] else parts[0] + [sep] + Join(parts[1..], sep)
  }

  // Splitting loses nothing but the separators, and leaves none of them.
  lemma {:induction false} SplitJoins(s: string, sep: char)
    ensures Join(Split(s, sep), sep) == s
    ensures forall i :: 0 <= i < |Split(s, sep)| ==> Free(Split(s, sep)[i], sep)
  {
    if s != [] {
      SplitJoins(s[1..], sep);
      var rest := Split(s[1..], sep);
      assert [s[0]] + s[1..] == s;
      if s[0] == sep {
        assert ([[]] + rest)[1..] == rest;
      } else if |rest| > 1 {
        var parts := [[s[0]] + rest[0]] + rest[1..];
        assert parts[1..] == rest[1..];
        assert [s[0]] + (rest[0] + [sep] + Join(rest[1..], sep)) == parts[0] + [sep] + Join(parts[1..], sep);
      }
    }
  }

  // A text splits into three parts exactly as it is written down with them.
  lemma SplitsInThreeIff(s: string, sep: char, a: string, b: string, c: string)
    ensures Split(s, sep) == [a, b, c] <==>
            s == a + [sep] + (b + [sep] + c) && Free(a, sep) && Free(b, sep) && Free(c, sep)
  {
    if Split(s, sep) == [a, b, c] {
      SplitJoins(s, sep);
      assert [a, b, c][1..] == [b, c] && [b, c][1..] == [c];
      assert Join([b, c], sep) == b + [sep] + c;
      assert [a, b, c][0] == a && [a, b, c][1] == b && [a, b, c][2] == c;
    } else if s == a + [sep] + (b + [sep] + c) && Free(a, sep) && Free(b, sep) && Free(c, sep) {
      assert s == a + [sep] + (b + [sep] + c);
      SplitAtFirst(a, sep, b + [sep] + c);
      SplitAtFirst(b, sep, c);
      SplitFree(c, sep);
    }
  }

  // Text up to the first separator, and the rest, are both determined.
  lemma {:induction false} CutIsUnique(a: string, b: string, sep: char, x: string, y: string)
    requires Free(a, sep) && Free(b, sep)
    requires a + [sep] + x == b + [sep] + y
    ensures a == b && x == y
  {
    var s, t := a + [sep] + x, b + [sep] + y;
    assert s[|a|] == sep && t[|b|] == sep;
    assert a == s[..|a|] && b == t[..|b|];
    assert x == s[|a| + 1..] && y == t[|b| + 1..];
  }

  // ---- hexadecimal ----

  function LowerHex(n: nat): (c: char)
    requires n < 16
    ensures '0' <= c <= '9' || 'a' <= c <= 'f'
  {
    if n < 10 then ('0' as int + n) as char else ('a' as int + n - 10) as char
  }

  // hex.EncodeToString.
  function Hex(bytes: seq<Byte>): string {
    if bytes == [] then [] else [LowerHex(bytes[0] / 16), LowerHex(bytes[0] % 16)] + Hex(bytes[1..])
  }

  // Two digits for every byte, the high one first.
  lemma {:induction false} HexDigits(bytes: seq<Byte>)
    ensures |Hex(bytes)| == 2 * |bytes|
    ensures forall i :: 0 <= i < |bytes| ==>
              && Hex(bytes)[2 * i] == "0123456789abcdef"[bytes[i] / 16]
              && Hex(bytes)[2 * i + 1] == "0123456789abcdef"[bytes[i] % 16]
  {
    if bytes != [] {
      hide LowerHex;
      var rest := Hex(bytes[1..]);
      HexDigits(bytes[1..]);
      LowerHexAlphabet(bytes[0] / 16);
      LowerHexAlphabet(bytes[0] % 16);
      forall i | 0 < i < |bytes|
        ensures Hex(bytes)[2 * i] == rest[2 * (i - 1)] && Hex(bytes)[2 * i + 1] == rest[2 * (i - 1) + 1]
        ensures bytes[i] == bytes[1..][i - 1]
      {
      }
    }
  }

  lemma LowerHexAlphabet(n: nat)
    requires n < 16
    ensures LowerHex(n) == "0123456789abcdef"[n]
  {
  }

  // Different bytes have different digits.
  lemma HexIsInjective(a: seq<Byte>, b: seq<Byte>)
    requires Hex(a) == Hex(b)
    ensures a == b
  {
    hide Hex;
    HexDigits(a);
    HexDigits(b);
    forall i | 0 <= i < |a| ensures a[i] == b[i] {
      assert Hex(a)[2 * i] == Hex(b)[2 * i] && Hex(a)[2 * i + 1] == Hex(b)[2 * i + 1];
      SameDigit(a[i] / 16, b[i] / 16);
      SameDigit(a[i] % 16, b[i] % 16);
    }
  }

  lemma SameDigit(n: nat, m: nat)
    requires n < 16 && m < 16 && "0123456789abcdef"[n] == "0123456789abcdef"[m]
    ensures n == m
  {
    LowerHexAlphabet(n);
    LowerHexAlphabet(m);
  }

  lemma {:induction false} HexIsPlain(bytes: seq<Byte>, c: char)
    requires !('0' <= c <= '9' || 'a' <= c <= 'f')
    ensures Free(Hex(bytes), c)
  {
    if bytes != [] {
      HexIsPlain(bytes[1..], c);
    }
  }

  // ---- base64url without padding (RFC 4648, section 5) ----

  predicate IsUrlSafe(c: char) {
    'A' <= c <= 'Z' || 'a' <= c <= 'z' || '0' <= c <= '9' || c == '-' || c == '_'
  }

  function Sextet(n: int): (c: char)
    requires 0 <= n < 64
    ensures IsUrlSafe(c)
  {
    if n < 26 then ('A' as int + n) as char
    else if n < 52 then ('a' as int + n - 26) as char
    else if n < 62 then ('0' as int + n - 52) as char
    else if n == 62 then '-' else '_'
  }

  lemma SextetIsInjective(n: int, m: int)
    requires 0 <= n < 64 && 0 <= m < 64 && Sextet(n) == Sextet(m)
    ensures n == m
  {
  }

  // The six-bit groups of a byte string; the last one is filled up with zeros.
  function Sextets(b: seq<Byte>): (r: seq<int>)
    ensures forall i :: 0 <= i < |r| ==> 0 <= r[i] < 64
  {
    if b == [] then []
    else if |b| == 1 then [b[0] / 4, b[0] % 4 * 16]
    else if |b| == 2 then [b[0] / 4, b[0] % 4 * 16 + b[1] / 16, b[1] % 16 * 4]
    else [b[0] / 4, b[0] % 4 * 16 + b[1] / 16, b[1] % 16 * 4 + b[2] / 64, b[2] % 64] + Sextets(b[3..])
  }

  function RawUrl(b: seq<Byte>): (s: string)
    ensures forall i :: 0 <= i < |s| ==> IsUrlSafe(s[i])
  {
    var r := Sextets(b);
    seq(|r|, i requires 0 <= i < |r| => Sextet(r[i]))
  }

  lemma {:induction false} SextetsAreInjective(a: seq<Byte>, b: seq<Byte>)
    requires Sextets(a) == Sextets(b)
    ensures a == b
    decreases |a|
  {
    var s, t := Sextets(a), Sextets(b);
    SextetsLength(a);
    SextetsLength(b);
    if |a| >= 3 {
      assert s[0] == t[0] && s[1] == t[1] && s[2] == t[2] && s[3] == t[3];
      assert a[0] == b[0] && a[1] == b[1] && a[2] == b[2];
      assert Sextets(a[3..]) == s[4..] && Sextets(b[3..]) == t[4..];
      SextetsAreInjective(a[3..], b[3..]);
      assert a == a[..3] + a[3..] && b == b[..3] + b[3..];
    } else if |a| > 0 {
      assert s[0] == t[0] && s[1] == t[1];
    }
  }

  lemma {:induction false} SextetsLength(b: seq<Byte>)
    ensures |Sextets(b)| == SextetCount(|b|)
  {
    if |b| >= 3 {
      SextetsLength(b[3..]);
    }
  }

  // Different bytes have different text.
  lemma RawUrlIsInjective(a: seq<Byte>, b: seq<Byte>)
    requires RawUrl(a) == RawUrl(b)
    ensures a == b
  {
    var s, t := Sextets(a), Sextets(b);
    assert |RawUrl(a)| == |s| && |RawUrl(b)| == |t|;
    forall i | 0 <= i < |s| ensures s[i] == t[i] {
      assert RawUrl(a)[i] == Sextet(s[i]) && RawUrl(b)[i] == Sextet(t[i]);
      SextetIsInjective(s[i], t[i]);
    }
    assert s == t;
    SextetsAreInjective(a, b);
  }

  // ---- what the text means ----

  // The alphabet of table 2 in RFC 4648.
  ghost const URL_ALPHABET :=
    "ABCDEFGHIJKLMNOP" + "QRSTUVWXYZabcdef" + "ghijklmnopqrstuv" + "wxyz0123456789-_"

  lemma SextetAlphabet(n: int)
    requires 0 <= n < 64
    ensures |URL_ALPHABET| == 64 && Sextet(n) == URL_ALPHABET[n]
  {
    if n < 16 {
      assert URL_ALPHABET[n] == "ABCDEFGHIJKLMNOP"[n];
    } else if n < 32 {
      assert URL_ALPHABET[n] == "QRSTUVWXYZabcdef"[n - 16];
    } else if n < 48 {
      assert URL_ALPHABET[n] == "ghijklmnopqrstuv"[n - 32];
    } else {
      assert URL_ALPHABET[n] == "wxyz0123456789-_"[n - 48];
    }
  }

  // The factor the zero bits that fill up the last group multiply with.
  function Fill(length: nat): int {
    if length % 3 == 0 then 1 else if length % 3 == 1 then 16 else 4
  }

  function SextetCount(length: nat): nat {
    length / 3 * 4 + if length % 3 == 0 then 0 else length % 3 + 1
  }

  lemma {:induction false} SextetsFillBytes(length: nat)
    ensures Power(64, SextetCount(length)) == Power(256, length) * Fill(length)
  {
    if length < 3 {
      assert Power(64, 2) == 4096 && Power(64, 3) == 262144 && Power(256, 1) == 256 && Power(256, 2) == 65536;
    } else {
      hide Power;
      var n := length - 3;
      SextetsFillBytes(n);
      PowerSteps(64, SextetCount(n));
      PowerSteps(256, n);
      assert SextetCount(length) == SextetCount(n) + 4 && Fill(length) == Fill(n);
      Regroup(Power(256, n), Fill(n));
    }
  }

  lemma Regroup(p: int, f: int)
    ensures 64 * (64 * (64 * (64 * (p * f)))) == 256 * (256 * (256 * p)) * f
  {
  }

  lemma PowerSteps(base: int, n: nat)
    ensures Power(base, n + 3) == base * (base * (base * Power(base, n)))
    ensures Power(base, n + 4) == base * (base * (base * (base * Power(base, n))))
  {
    assert Power(base, n + 2) == base * Power(base, n + 1);
    assert Power(base, n + 3) == base * Power(base, n + 2);
    assert Power(base, n + 4) == base * Power(base, n + 3);
  }

  // The six-bit groups spell the same number as the bytes, followed by the fill.
  lemma {:induction false} SextetsSpellBytes(b: seq<Byte>)
    ensures Number(64, Sextets(b)) == Number(256, b) * Fill(|b|)
  {
    hide Number, Power;
    if |b| >= 3 {
      var rest := b[3..];
      SextetsSpellBytes(rest);
      SextetsFillBytes(|rest|);
      SextetsLength(rest);
      var group := Group(b[0], b[1], b[2]);
      assert Sextets(b) == group + Sextets(rest);
      assert [b[0], b[1], b[2]] + rest == b;
      hide Sextets, Group;
      NumberConcat(64, group, Sextets(rest));
      NumberConcat(256, [b[0], b[1], b[2]], rest);
      GroupSpellsBytes(b[0], b[1], b[2]);
      assert Fill(|rest|) == Fill(|b|);
      FactorOut(Number(64, group), Power(64, |Sextets(rest)|), Power(256, |rest|), Number(64, Sextets(rest)),
                Number(256, rest), Fill(|rest|));
    } else {
      FewBytesSpelled(b);
    }
  }

  function Group(x: Byte, y: Byte, z: Byte): seq<int> {
    [x / 4, x % 4 * 16 + y / 16, y % 16 * 4 + z / 64, z % 64]
  }

  lemma FactorOut(n: int, p: int, q: int, x: int, y: int, f: int)
    requires p == q * f && x == y * f
    ensures n * p + x == (n * q + y) * f
  {
    assert n * (q * f) == n * q * f;
  }

  lemma GroupSpellsBytes(x: Byte, y: Byte, z: Byte)
    ensures Number(64, Group(x, y, z)) == Number(256, [x, y, z])
  {
    hide Number;
    ThreeNumber(64, x / 4, x % 4 * 16 + y / 16, y % 16 * 4 + z / 64);
    assert Group(x, y, z) == [x / 4, x % 4 * 16 + y / 16, y % 16 * 4 + z / 64] + [z % 64];
    OneMoreDigit(64, [x / 4, x % 4 * 16 + y / 16, y % 16 * 4 + z / 64], z % 64);
    ThreeNumber(256, x, y, z);
  }

  lemma OneMoreDigit(base: int, digits: seq<int>, d: int)
    ensures Number(base, digits + [d]) == base * Number(base, digits) + d
  {
    FrontOfSnoc(digits, d);
  }

  lemma ThreeNumber(base: int, p: int, q: int, r: int)
    ensures Number(base, []) == 0 && Number(base, [p]) == p
    ensures Number(base, [p, q]) == base * p + q
    ensures Number(base, [p, q, r]) == base * (base * p + q) + r
  {
    OneMoreDigit(base, [], p);
    OneMoreDigit(base, [p], q);
    OneMoreDigit(base, [p, q], r);
    assert [] + [p] == [p] && [p] + [q] == [p, q] && [p, q] + [r] == [p, q, r];
  }

  lemma FewBytesSpelled(b: seq<Byte>)
    requires |b| < 3
    ensures Number(64, Sextets(b)) == Number(256, b) * Fill(|b|)
  {
    hide Number, Sextets;
    if b == [] {
      NoBytesSpelled();
    } else if |b| == 1 {
      assert b == [b[0]];
      OneByteSpelled(b[0]);
    } else {
      assert b == [b[0], b[1]];
      TwoBytesSpelled(b[0], b[1]);
    }
  }

  lemma NoBytesSpelled()
    ensures Number(64, Sextets([])) == Number(256, []) == 0
  {
  }

  lemma OneByteSpelled(x: Byte)
    ensures Number(64, Sextets([x])) == Number(256, [x]) * 16
  {
    hide Number;
    ThreeNumber(64, x / 4, x % 4 * 16, 0);
    ThreeNumber(256, x, 0, 0);
  }

  lemma TwoBytesSpelled(x: Byte, y: Byte)
    ensures Number(64, Sextets([x, y])) == Number(256, [x, y]) * 4
  {
    hide Number;
    ThreeNumber(64, x / 4, x % 4 * 16 + y / 16, y % 16 * 4);
    ThreeNumber(256, x, y, 0);
  }

  // The base64url text of bytes: characters of the alphabet that spell the number of
  // the bytes, in as few groups of six bits as hold it.
  lemma RawUrlSpellsBytes(b: seq<Byte>) returns (digits: seq<int>)
    ensures |RawUrl(b)| == |digits| == (4 * |b| + 2) / 3
    ensures Number(64, digits) == Number(256, b) * Fill(|b|)
    ensures forall i :: 0 <= i < |digits| ==>
              && 0 <= digits[i] < 64
              && RawUrl(b)[i] == URL_ALPHABET[digits[i]]
  {
    digits := Sextets(b);
    SextetsLength(b);
    SextetsSpellBytes(b);
    forall i | 0 <= i < |digits|
      ensures RawUrl(b)[i] == URL_ALPHABET[digits[i]]
    {
      SextetAlphabet(digits[i]);
    }
  }
}
