// How long a lockout lasts: session/bruteforce.go, lockFor.
module LockDuration {
  import opened Prelude
  import opened Decimal

  // time.Duration: arithmetic on it must stay inside 64 bits.
  newtype Int64 = x: int | -0x8000_0000_0000_0000 <= x <= 0x7FFF_FFFF_FFFF_FFFF

  type Duration = d: int | MIN_INT64 <= d <= MAX_INT64

  // Machine arithmetic wraps around.
  function Wrap64(x: int): int {
    (x + 0x8000_0000_0000_0000) % 0x1_0000_0000_0000_0000 - 0x8000_0000_0000_0000
  }

  // The lockout doubled once for every crossing after the first.
  ghost function Doubled(lockout: int, strikes: int): int {
    lockout * Pow2(if strikes <= 1 then 0 else strikes - 1)
  }

  // The closed form of the lockout after the given number of crossings. A doubled
  // lockout one short of the cap is rounded up to it; this can only happen when
  // the cap is odd.
  ghost function LockoutAfter(lockout: int, max: int, strikes: int): int {
    var d := Doubled(lockout, strikes);
    if d >= max || (strikes >= 2 && d == max - 1) then max else d
  }

  lemma {:induction false} Pow2Grows(a: nat, b: nat)
    requires a < b
    ensures 2 * Pow2(a) <= Pow2(b)
    decreases b
  {
    if a + 1 < b {
      Pow2Grows(a, b - 1);
    }
  }

  lemma DoubledGrows(lockout: int, i: int, j: int)
    requires lockout > 0 && 1 <= i < j
    ensures 2 * Doubled(lockout, i) <= Doubled(lockout, j)
  {
    Pow2Grows(i - 1, j - 1);
    var p, q := Pow2(i - 1), Pow2(j - 1);
    assert lockout * (2 * p) <= lockout * q;
  }

  // The loop meets the closed form, and no doubling leaves 64 bits whatever the
  // number of strikes.
  method LockFor(lockout: Int64, max: Int64, strikes: int) returns (duration: Int64)
    requires lockout > 0 && max > 0
    ensures duration as int == LockoutAfter(lockout as int, max as int, strikes)
    ensures strikes <= 1 ==> duration == if lockout < max then lockout else max
    ensures strikes >= 2 ==>
              var full := lockout as int * Pow2(strikes - 1);
              duration as int == if full < max as int - 1 then full else max as int
  {
    var d := lockout;
    var i := 1;
    while i < strikes
      invariant 1 <= i && (i <= strikes || i == 1)
      invariant d > 0 && d as int == Doubled(lockout as int, i)
      invariant i > 1 ==> d < max - 1
    {
      DoubledGrows(lockout as int, i, i + 1);
      assert Doubled(lockout as int, i + 1) == 2 * d as int by {
        assert lockout as int * (2 * Pow2(i - 1)) == 2 * (lockout as int * Pow2(i - 1));
      }
      if d >= max / 2 {
        if i + 1 < strikes {
          DoubledGrows(lockout as int, i + 1, strikes);
        }
        return max;
      }
      d := d * 2;
      i := i + 1;
    }
    if d > max {
      return max;
    }
    return d;
  }

  lemma LockoutBounds(lockout: int, max: int, strikes: int)
    requires lockout > 0 && max > 0
    ensures LockoutAfter(lockout, max, strikes) <= max
    ensures LockoutAfter(lockout, max, strikes) >= if lockout < max then lockout else max
  {
    if strikes > 1 {
      DoubledGrows(lockout, 1, strikes);
    }
  }

  // Further crossings never shorten the lockout.
  lemma LockoutIsMonotone(lockout: int, max: int, fewer: int, more: int)
    requires lockout > 0 && max > 0 && fewer <= more
    ensures LockoutAfter(lockout, max, fewer) <= LockoutAfter(lockout, max, more)
  {
    if 1 <= fewer < more {
      DoubledGrows(lockout, fewer, more);
    } else if fewer < more && 1 < more {
      DoubledGrows(lockout, 1, more);
    }
  }

  // Up to the first crossing: the smaller of the lockout and its cap.
  lemma FirstLockout(lockout: int, max: int, strikes: int)
    requires lockout > 0 && max > 0 && strikes <= 1
    ensures LockoutAfter(lockout, max, strikes) == if lockout < max then lockout else max
  {
  }

  // Each further crossing doubles the lockout before it, up to the cap. A double
  // one short of the cap becomes the cap.
  lemma NextLockout(lockout: int, max: int, strikes: int)
    requires lockout > 0 && max > 0 && strikes >= 1
    ensures var double := 2 * LockoutAfter(lockout, max, strikes);
            LockoutAfter(lockout, max, strikes + 1) == if double < max - 1 then double else max
  {
    DoubledTwice(lockout, strikes);
  }

  lemma DoubledTwice(lockout: int, strikes: int)
    requires strikes >= 1
    ensures Doubled(lockout, strikes + 1) == 2 * Doubled(lockout, strikes)
  {
    assert lockout * (2 * Pow2(strikes - 1)) == 2 * (lockout * Pow2(strikes - 1));
  }

  // Under an even cap that is the smaller of the cap and the double; under an odd
  // one it is so for every double but the one just below the cap.
  lemma NextLockoutIsMinIff(lockout: int, max: int, strikes: int)
    requires lockout > 0 && max > 0 && strikes >= 1
    ensures var double := 2 * LockoutAfter(lockout, max, strikes);
            LockoutAfter(lockout, max, strikes + 1) == (if double < max then double else max) <==>
            max % 2 == 0 || double != max - 1
  {
    NextLockout(lockout, max, strikes);
  }

  // For an even cap the rounding never shows: the plain minimum.
  lemma LockoutUnderEvenCap(lockout: int, max: int, strikes: int)
    requires lockout > 0 && max > 0 && max % 2 == 0
    ensures LockoutAfter(lockout, max, strikes) ==
            var full := lockout * Pow2(if strikes > 1 then strikes - 1 else 0);
            if full < max then full else max
  {
    if strikes >= 2 {
      var p := Pow2(strikes - 2);
      assert lockout * (2 * p) == 2 * (lockout * p);
    }
  }
}
