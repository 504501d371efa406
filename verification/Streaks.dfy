// Counters that expire a fixed time after their last increment, read as runs of
// increments: every gap is short enough and nothing cleared the counter since.
module Streaks {
  import opened Prelude

  datatype Fact = Hit(at: int) | Reset

  // The number of hits in the longest run ending now whose gaps are all at most
  // gap, back to the last reset.
  ghost function Streak(log: seq<Fact>, gap: int, now: int): nat {
    if log == [] then 0
    else
      match Last(log)
      case Reset => 0
      case Hit(at) => if now - at > gap then 0 else 1 + Streak(Front(log), gap, at)
  }

  // ---- against a true sliding window ----

  // The hits of the last gap since the last reset.
  ghost function InWindow(log: seq<Fact>, gap: int, now: int): nat {
    if log == [] || Last(log).Reset? then 0
    else InWindow(Front(log), gap, now) + if now - Last(log).at <= gap then 1 else 0
  }

  ghost predicate Ordered(log: seq<Fact>, now: int) {
    && (forall i :: 0 <= i < |log| && log[i].Hit? ==> log[i].at <= now)
    && (forall i, j :: 0 <= i < j < |log| && log[i].Hit? && log[j].Hit? ==> log[i].at <= log[j].at)
  }

  // Once a hit is too old, so is everything before it.
  lemma {:induction false} OldLogIsOutside(log: seq<Fact>, gap: int, now: int)
    requires Ordered(log, now) && log != [] && Last(log).Hit? && now - Last(log).at > gap
    ensures InWindow(log, gap, now) == 0
  {
    if Front(log) != [] && Last(Front(log)).Hit? {
      OldLogIsOutside(Front(log), gap, now);
    }
  }

  // Whatever fits in the window belongs to the streak.
  lemma {:induction false} WindowIsInStreak(log: seq<Fact>, gap: int, upto: int, now: int)
    requires Ordered(log, upto) && upto <= now && gap >= 0
    ensures InWindow(log, gap, now) <= Streak(log, gap, upto)
  {
    if log != [] && Last(log).Hit? {
      if upto - Last(log).at > gap {
        OldLogIsOutside(log, gap, now);
      } else {
        WindowIsInStreak(Front(log), gap, Last(log).at, now);
      }
    }
  }

  // The streak is the window count exactly if its first hit is in the window.
  lemma {:induction false} StreakIsWindowIff(log: seq<Fact>, gap: int, upto: int, now: int)
    requires Ordered(log, upto) && upto <= now && gap >= 0
    ensures var k := Streak(log, gap, upto);
            && k <= |log|
            && (k > 0 ==> log[|log| - k].Hit?)
            && (k == InWindow(log, gap, now) <==> k == 0 || now - log[|log| - k].at <= gap)
  {
    if log != [] && Last(log).Hit? {
      if upto - Last(log).at > gap {
        OldLogIsOutside(log, gap, now);
      } else {
        StreakIsWindowIff(Front(log), gap, Last(log).at, now);
        WindowIsInStreak(Front(log), gap, Last(log).at, now);
      }
    }
  }

  // Within a streak, the window holds n hits exactly if the n-th latest is in it.
  lemma {:induction false} WindowHoldsIff(log: seq<Fact>, gap: int, upto: int, now: int, n: nat)
    requires Ordered(log, upto) && upto <= now && gap >= 0
    requires 1 <= n <= Streak(log, gap, upto)
    ensures n <= |log| && log[|log| - n].Hit?
    ensures InWindow(log, gap, now) >= n <==> now - log[|log| - n].at <= gap
  {
    if n > 1 {
      WindowHoldsIff(Front(log), gap, Last(log).at, now, n - 1);
    } else if now - Last(log).at > gap {
      OldLogIsOutside(log, gap, now);
    }
  }

  // n hits, one gap apart, the latest at the given instant.
  ghost function Spaced(n: nat, gap: int, end: int): seq<Fact> {
    if n == 0 then [] else Spaced(n - 1, gap, end - gap) + [Hit(end)]
  }

  lemma {:induction false} SpacedIsOrdered(n: nat, gap: int, end: int)
    requires gap > 0
    ensures Ordered(Spaced(n, gap, end), end)
    ensures forall i :: 0 <= i < |Spaced(n, gap, end)| ==> Spaced(n, gap, end)[i].Hit?
  {
    if n > 0 {
      SpacedIsOrdered(n - 1, gap, end - gap);
    }
  }

  lemma OneMoreHit(log: seq<Fact>, gap: int, t: int, now: int)
    requires gap >= 0
    ensures Streak(log + [Hit(t)], gap, t) == 1 + Streak(log, gap, t)
    ensures InWindow(log + [Hit(t)], gap, now) == InWindow(log, gap, now) + if now - t <= gap then 1 else 0
  {
    FrontOfSnoc(log, Hit(t));
  }

  lemma StreakLasts(log: seq<Fact>, gap: int, t: int)
    requires gap >= 0
    ensures Streak(log + [Hit(t)], gap, t + gap) == Streak(log + [Hit(t)], gap, t)
  {
    FrontOfSnoc(log, Hit(t));
  }

  lemma NothingYet(gap: int, now: int)
    ensures Streak([], gap, now) == 0 && InWindow([], gap, now) == 0
  {
  }

  // A slow sequence: all n hits form one streak, yet no window that ends at its
  // latest hit or later holds more than two of them. Windows that end earlier are
  // those of a shorter sequence.
  lemma {:induction false} SlowHitsFormStreak(n: nat, gap: int, end: int, now: int)
    requires gap > 0 && now >= end
    ensures Streak(Spaced(n, gap, end), gap, end) == Streak(Spaced(n, gap, end), gap, end + gap) == n
    ensures InWindow(Spaced(n, gap, end), gap, now) <= if now > end then 1 else 2
  {
    hide Streak, InWindow;
    NothingYet(gap, end);
    NothingYet(gap, end + gap);
    NothingYet(gap, now);
    if n > 0 {
      var front := Spaced(n - 1, gap, end - gap);
      SlowHitsFormStreak(n - 1, gap, end - gap, now);
      OneMoreHit(front, gap, end, now);
      StreakLasts(front, gap, end);
      SpacedIsOrdered(n - 1, gap, end - gap);
      if n > 1 && now > end {
        assert Last(front) == Hit(end - gap);
        OldLogIsOutside(front, gap, now);
      }
    }
  }
}
