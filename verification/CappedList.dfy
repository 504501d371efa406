// A duplicate-free list that keeps the most recent insertions: the identities
// behind a client (session/bruteforce.go, recordStuffing) and the networks of a
// user (session/tracker.go, Observe) are both kept this way.
module CappedList {
  import opened Prelude

  // The newest n elements, or all of them if there are no more.
  function LastN<T>(s: seq<T>, n: nat): (r: seq<T>)
    ensures |r| <= n && |r| <= |s|
  {
    if |s| > n then s[|s| - n..] else s
  }

  // It is the end of the sequence, and nothing was dropped while there was room.
  lemma LastNIsTail<T>(s: seq<T>, n: nat)
    ensures |LastN(s, n)| == if |s| < n then |s| else n
    ensures exists older :: older + LastN(s, n) == s
  {
    assert s[..|s| - |LastN(s, n)|] + LastN(s, n) == s;
  }

  // The element remembered last is in the list, whatever the list held.
  lemma RememberedIsIn<T>(list: seq<T>, x: T, cap: nat)
    requires cap > 0
    ensures x in Remember(list, x, cap)
  {
    var longer := list + [x];
    assert longer[|longer| - 1] == x;
    if x !in list {
      var kept := LastN(longer, cap);
      assert kept[|kept| - 1] == x;
    }
  }

  // What the code does with a list and a new element.
  function Remember<T(==)>(list: seq<T>, x: T, cap: nat): seq<T> {
    if x in list then list else LastN(list + [x], cap)
  }

  // The search both callers run before they insert.
  method Contains<T(==)>(list: seq<T>, x: T) returns (found: bool)
    ensures found <==> x in list
  {
    var i := 0;
    while i < |list|
      invariant 0 <= i <= |list|
      invariant x !in list[..i]
    {
      if list[i] == x {
        return true;
      }
      i := i + 1;
    }
    return false;
  }

  ghost predicate Distinct<T>(s: seq<T>) {
    forall i, j :: 0 <= i < j < |s| ==> s[i] != s[j]
  }

  // One life of a list, told by what happened rather than by the list: everything
  // presented since it was last empty, every insertion in order, the deadline, which
  // only an insertion pushes back, and how many presentations came before.
  datatype Epoch<T> = Epoch(presented: set<T>, inserted: seq<T>, expires: int, opening: nat)

  datatype Presentation<T> = Presentation(x: T, at: int)

  ghost function Epochs<T>(log: seq<Presentation<T>>, cap: nat, ttl: int): (e: Epoch<T>)
    requires cap > 0
    ensures log != [] ==> e.inserted != []
  {
    if log == [] then Epoch({}, [], 0, 0)
    else
      var e := Epochs(Front(log), cap, ttl);
      var p := Last(log);
      if e.inserted == [] || p.at > e.expires then Epoch({p.x}, [p.x], p.at + ttl, |log| - 1)
      else if p.x in LastN(e.inserted, cap) then e.(presented := e.presented + {p.x})
      else Epoch(e.presented + {p.x}, e.inserted + [p.x], p.at + ttl, e.opening)
  }

  // Whatever was presented last is in the list.
  lemma LatestIsListed<T>(log: seq<Presentation<T>>, cap: nat, ttl: int)
    requires cap > 0 && log != []
    ensures Last(log).x in LastN(Epochs(log, cap, ttl).inserted, cap)
  {
    var e, x := Epochs(Front(log), cap, ttl), Last(log).x;
    RememberedIsIn([], x, cap);
    if x !in LastN(e.inserted, cap) {
      var kept := LastN(e.inserted + [x], cap);
      assert kept[|kept| - 1] == x;
    }
  }

  // The list a live epoch has left behind, and how it relates to its history.
  ghost predicate Explains<T(!new)>(e: Epoch<T>, cap: nat) {
    && Distinct(LastN(e.inserted, cap))
    && (forall x :: x in e.inserted <==> x in e.presented)
    && (|e.inserted| <= cap ==> Distinct(e.inserted))
  }

  lemma {:induction false} EpochsExplain<T(!new)>(log: seq<Presentation<T>>, cap: nat, ttl: int)
    requires cap > 0
    ensures Explains(Epochs(log, cap, ttl), cap)
  {
    if log != [] {
      hide Explains;
      EpochsExplain(Front(log), cap, ttl);
      NextEpochExplains(log, cap, ttl);
    } else {
      assert Explains(Epochs(log, cap, ttl), cap);
    }
  }

  lemma NextEpochExplains<T(!new)>(log: seq<Presentation<T>>, cap: nat, ttl: int)
    requires cap > 0 && log != [] && Explains(Epochs(Front(log), cap, ttl), cap)
    ensures Explains(Epochs(log, cap, ttl), cap)
  {
    var e, x := Epochs(Front(log), cap, ttl), Last(log).x;
    if x !in LastN(e.inserted, cap) {
      InsertionIsDistinct(e.inserted, x, cap);
    }
  }

  lemma InsertionIsDistinct<T>(inserted: seq<T>, x: T, cap: nat)
    requires cap > 0 && Distinct(LastN(inserted, cap)) && x !in LastN(inserted, cap)
    ensures Distinct(LastN(inserted + [x], cap))
    ensures |inserted| <= cap ==> Distinct(inserted + [x])
  {
    var list, longer := LastN(inserted, cap), LastN(inserted + [x], cap);
    if |inserted| < cap {
      assert list == inserted && longer == list + [x];
    } else {
      assert longer == list[1..] + [x];
      assert |inserted| == cap ==> list == inserted;
    }
  }

  // Remembering the element gives the list of the epoch that follows.
  lemma RememberFollowsEpoch<T>(inserted: seq<T>, x: T, cap: nat)
    requires cap > 0
    ensures x !in LastN(inserted, cap) ==>
              Remember(LastN(inserted, cap), x, cap) == LastN(inserted + [x], cap)
    ensures x in LastN(inserted, cap) ==>
              Remember(LastN(inserted, cap), x, cap) == LastN(inserted, cap)
  {
  }

  lemma {:induction false} DistinctSize<T>(s: seq<T>)
    requires Distinct(s)
    ensures |set x | x in s| == |s|
  {
    if s != [] {
      DistinctSize(Front(s));
      assert (set x | x in s) == (set x | x in Front(s)) + {Last(s)};
    }
  }

  lemma SubsetSize<T>(a: set<T>, b: set<T>)
    requires a <= b
    ensures |a| <= |b|
  {
    assert b == a + (b - a);
  }

  // The length of the list is the number of distinct elements presented in the
  // live epoch, up to the cap.
  lemma CountIsDistinctUpToCap<T(!new)>(log: seq<Presentation<T>>, cap: nat, ttl: int)
    requires cap > 0
    ensures var e := Epochs(log, cap, ttl);
            |LastN(e.inserted, cap)| == if |e.presented| < cap then |e.presented| else cap
  {
    EpochsExplain(log, cap, ttl);
    var e := Epochs(log, cap, ttl);
    var list := LastN(e.inserted, cap);
    DistinctSize(list);
    SubsetSize((set x | x in list), e.presented);
    if |e.inserted| <= cap {
      assert (set x | x in list) == e.presented;
    }
  }
}
