// Numbers in positional notation, the common reading of decimal text, hexadecimal
// and base64 digits.
module Numerals {
  import opened Prelude

  // The number a row of digits spells, the most significant first.
  ghost function Number(base: int, digits: seq<int>): int {
    if digits == [] then 0 else base * Number(base, Front(digits)) + Last(digits)
  }

  ghost function Power(base: int, n: nat): int {
    if n == 0 then 1 else base * Power(base, n - 1)
  }

  lemma {:induction false} NumberConcat(base: int, a: seq<int>, b: seq<int>)
    ensures Number(base, a + b) == Number(base, a) * Power(base, |b|) + Number(base, b)
  {
    if b == [] {
      assert a + b == a;
    } else {
      assert Front(a + b) == a + Front(b);
      NumberConcat(base, a, Front(b));
      var n, p := Number(base, a), Power(base, |b| - 1);
      assert base * (n * p) == n * (base * p);
    }
  }
}
