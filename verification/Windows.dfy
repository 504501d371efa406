// Fixed-window counting, as a plain fold over all increments of one key. Both
// storage backends are proved to answer from this fold alone.
module Windows {
  import opened Prelude

  datatype Counter = Counter(count: int, start: int, window: int)

  // One increment: when it came and the window it asked for.
  datatype Hit = Hit(at: int, window: int)

  predicate Opens(c: Option<Counter>, hit: Hit) {
    c == None || hit.at - c.value.start > hit.window
  }

  function Bump(c: Option<Counter>, hit: Hit): Counter {
    if Opens(c, hit) then Counter(1, hit.at, hit.window)
    else Counter(c.value.count + 1, c.value.start, hit.window)
  }

  function Fold(log: seq<Hit>): Option<Counter> {
    if log == [] then None else Some(Bump(Fold(Front(log)), Last(log)))
  }

  // What a reader is told; a window that is not positive never runs out.
  function Reading(c: Option<Counter>, now: int): int {
    if c == None || (c.value.window > 0 && now - c.value.start > c.value.window) then 0 else c.value.count
  }

  predicate Over(c: Option<Counter>, now: int) {
    c == None || now - c.value.start > c.value.window
  }

  // Windows are positive and never grow: a caller with a fixed window qualifies.
  ghost predicate Settled(log: seq<Hit>) {
    && (forall i :: 0 <= i < |log| ==> log[i].window > 0)
    && (forall i, j :: 0 <= i < j < |log| ==> log[j].window <= log[i].window)
  }

  lemma {:induction false} FoldCounts(log: seq<Hit>)
    requires log != []
    ensures Fold(log).value.count >= 1 && Fold(log).value.window == Last(log).window
  {
    if |log| > 1 {
      FoldCounts(Front(log));
    }
  }

  // The increment that opened the running window: the first one later than the
  // opening before it by more than the window it asked for.
  ghost function Opening(log: seq<Hit>): (k: nat)
    requires log != []
    ensures k < |log|
  {
    if |log| == 1 then 0
    else
      var k := Opening(Front(log));
      if Last(log).at - log[k].at > Last(log).window then |log| - 1 else k
  }

  // The counter after any increments: how many there were since the opening, when
  // that was, and the window asked for last.
  lemma {:induction false} FoldFromOpening(log: seq<Hit>)
    requires log != []
    ensures var k := Opening(log);
            && Fold(log) == Some(Counter(|log| - k, log[k].at, Last(log).window))
            && (forall j :: k < j < |log| ==> log[j].at - log[k].at <= log[j].window)
            && (k > 0 ==> log[k].at - log[Opening(log[..k])].at > log[k].window)
  {
    if |log| == 1 {
      assert Fold(Front(log)) == None;
    } else {
      FoldFromOpening(Front(log));
      assert Front(log) == log[..|log| - 1];
      var k := Opening(log);
      if k < |log| - 1 {
        assert Front(log)[..k] == log[..k];
      }
    }
  }

  // What a reader is told: the increments since the opening, or zero once the window
  // asked for last is over; one that is not positive never is.
  lemma ReadingFromOpening(log: seq<Hit>, now: int)
    ensures Reading(Fold(log), now) ==
            if log == [] then 0
            else
              var k, window := Opening(log), Last(log).window;
              if window > 0 && now - log[k].at > window then 0 else |log| - k
  {
    if log != [] {
      FoldFromOpening(log);
    }
  }

  // With settled windows a counter that is over may be dropped: the next
  // increment would open a new window anyway.
  lemma OverMeansFresh(log: seq<Hit>, hit: Hit)
    requires Settled(log + [hit]) && Over(Fold(log), hit.at)
    ensures Opens(Fold(log), hit)
  {
    if log != [] {
      FoldCounts(log);
      assert (log + [hit])[|log|] == hit && (log + [hit])[|log| - 1] == Last(log);
    }
  }

  // Without settled windows dropping shows, in exactly these cases: the next
  // increment asks for a window that reaches back, or the counter never expired.
  lemma DroppingShowsIff(c: Counter, dropped: int, hit: Hit)
    requires Over(Some(c), dropped) && c.count >= 1 && dropped <= hit.at
    ensures Bump(Some(c), hit).count != Bump(None, hit).count <==> hit.at - c.start <= hit.window
    ensures forall now :: now >= dropped ==> (Reading(Some(c), now) != Reading(None, now) <==> c.window <= 0)
  {
  }
}
