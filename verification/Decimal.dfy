// Decimal text of integers, as strconv prints and parses it. A counter lives in
// the store as text, so every increment goes through both directions.
module Decimal {
  import opened Prelude
  import opened Numerals

  const MIN_INT64: int := -0x8000_0000_0000_0000
  const MAX_INT64: int := 0x7FFF_FFFF_FFFF_FFFF

  predicate IsDigit(c: char) {
    '0' <= c <= '9'
  }

  predicate AllDigits(s: string) {
    forall i :: 0 <= i < |s| ==> IsDigit(s[i])
  }

  function Digit(d: nat): (c: char)
    requires d < 10
    ensures IsDigit(c) && c as int - '0' as int == d
  {
    (d + '0' as int) as char
  }

  function Digits(n: nat): (s: string)
    ensures s != [] && AllDigits(s)
  {
    if n < 10 then [Digit(n)] else Digits(n / 10) + [Digit(n % 10)]
  }

  function Value(s: string): int
    requires AllDigits(s)
  {
    if s == [] then 0 else 10 * Value(Front(s)) + (Last(s) as int - '0' as int)
  }

  // strconv.Itoa and strconv.FormatInt in base ten.
  function Itoa(n: int): string {
    if n < 0 then "-" + Digits(-n) else Digits(n)
  }

  // The integer a text denotes: an optional sign and at least one digit.
  function Parse(s: string): Option<int> {
    var signed := s != [] && (s[0] == '+' || s[0] == '-');
    var body := if signed then s[1..] else s;
    if body == [] || !AllDigits(body) then None
    else if signed && s[0] == '-' then Some(-Value(body))
    else Some(Value(body))
  }

  // strconv.Atoi with its error dropped: text that is no number reads as zero.
  function Atoi(s: string): int {
    match Parse(s)
    case Some(n) => n
    case None => 0
  }

  // strconv.ParseInt(s, 10, 64): numbers outside 64 bits are errors.
  function ParseInt64(s: string): Option<int> {
    match Parse(s)
    case Some(n) => if MIN_INT64 <= n <= MAX_INT64 then Some(n) else None
    case None => None
  }

  lemma {:induction false} ValueOfDigits(n: nat)
    ensures Value(Digits(n)) == n
  {
    if n >= 10 {
      FrontOfSnoc(Digits(n / 10), Digit(n % 10));
      ValueOfDigits(n / 10);
    }
  }

  // Printing and parsing back is the identity, on all integers.
  lemma ParseOfItoa(n: int)
    ensures Parse(Itoa(n)) == Some(n)
    ensures Atoi(Itoa(n)) == n
    ensures MIN_INT64 <= n <= MAX_INT64 ==> ParseInt64(Itoa(n)) == Some(n)
  {
    var d := Digits(if n < 0 then -n else n);
    ValueOfDigits(if n < 0 then -n else n);
    assert IsDigit(d[0]);
    if n < 0 {
      assert Itoa(n)[1..] == d;
    }
  }

  // ---- what the text means ----

  ghost function DigitValues(s: string): seq<int> {
    seq(|s|, i requires 0 <= i < |s| => s[i] as int - '0' as int)
  }

  lemma {:induction false} ValueIsNumber(s: string)
    requires AllDigits(s)
    ensures Value(s) == Number(10, DigitValues(s))
  {
    if s != [] {
      assert Front(DigitValues(s)) == DigitValues(Front(s));
      ValueIsNumber(Front(s));
    }
  }

  // The text is an optional sign and at least one digit, and n is the number they
  // spell in base ten.
  ghost predicate Denotes(s: string, n: int) {
    exists body :: AllDigits(body) && body != [] && IsSigned(s, body, n, Number(10, DigitValues(body)))
  }

  ghost predicate IsSigned(s: string, body: string, n: int, size: int) {
    (s == "-" + body && n == -size) || ((s == body || s == "+" + body) && n == size)
  }

  // Parsing finds the number denoted, and fails on all other text.
  lemma ParseIff(s: string, n: int)
    ensures Parse(s) == Some(n) <==> Denotes(s, n)
  {
    hide Value, Number, DigitValues;
    if b :| AllDigits(b) && b != [] && IsSigned(s, b, n, Number(10, DigitValues(b))) {
      ParseSigned(s, b, n);
    }
    if Parse(s) == Some(n) {
      ParsedIsSigned(s, n);
    }
  }

  lemma ParseSigned(s: string, body: string, n: int)
    requires AllDigits(body) && body != [] && IsSigned(s, body, n, Number(10, DigitValues(body)))
    ensures Parse(s) == Some(n)
  {
    ValueIsNumber(body);
    hide Value, Number, DigitValues;
    assert IsDigit(body[0]);
    if s != body {
      assert s[1..] == body;
    }
  }

  lemma ParsedIsSigned(s: string, n: int)
    requires Parse(s) == Some(n)
    ensures Denotes(s, n)
  {
    hide Value, Number, DigitValues;
    var signed := s != [] && (s[0] == '+' || s[0] == '-');
    var body := if signed then s[1..] else s;
    ValueIsNumber(body);
    if signed {
      assert s == [s[0]] + body;
    }
    assert IsSigned(s, body, n, Number(10, DigitValues(body)));
  }

  lemma {:induction false} DigitsAreShortest(n: nat)
    ensures Digits(n)[0] == '0' ==> n == 0 && Digits(n) == "0"
  {
    if n >= 10 {
      DigitsAreShortest(n / 10);
      assert Digits(n)[0] == Digits(n / 10)[0];
    }
  }

  // The text of a number denotes it, without a plus sign or a leading zero: there is
  // only one such text.
  lemma ItoaIsShortest(n: int)
    ensures Denotes(Itoa(n), n)
    ensures Itoa(n)[0] == '-' <==> n < 0
    ensures Itoa(n)[0] != '+'
    ensures Itoa(n)[0] == '0' ==> Itoa(n) == "0"
    ensures n < 0 ==> |Itoa(n)| > 1 && Itoa(n)[1] != '0'
  {
    ParseOfItoa(n);
    ParseIff(Itoa(n), n);
    DigitsAreShortest(if n < 0 then -n else n);
    assert IsDigit(Digits(if n < 0 then -n else n)[0]);
  }

  // A text that parses as a 64-bit integer holds digits and a sign only.
  lemma ParsedTextIsPlain(s: string, c: char)
    requires ParseInt64(s).Some?
    requires c in s
    ensures c == '+' || c == '-' || IsDigit(c)
  {
    var i :| 0 <= i < |s| && s[i] == c;
    if i > 0 {
      assert s[1..][i - 1] == c;
    }
  }

  lemma ItoaIsPlain(n: int, c: char)
    requires c in Itoa(n)
    ensures c == '-' || IsDigit(c)
  {
    var i :| 0 <= i < |Itoa(n)| && Itoa(n)[i] == c;
    if n < 0 && i > 0 {
      assert Digits(-n)[i - 1] == c;
    }
  }
}
