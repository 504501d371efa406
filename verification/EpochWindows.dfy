// The live epoch of a capped list against a true sliding window: which elements
// presented in the last ttl the list has lost, and which it keeps for longer.
module EpochWindows {
  import opened Prelude
  import opened CappedList

  ghost function Members<T>(log: seq<Presentation<T>>): set<T> {
    set i | 0 <= i < |log| :: log[i].x
  }

  // Everything presented in the last ttl.
  ghost function Recent<T>(log: seq<Presentation<T>>, ttl: int, now: int): set<T> {
    set i | 0 <= i < |log| && now - log[i].at <= ttl :: log[i].x
  }

  // Where the epoch that is live at now begins; past the end if none is.
  ghost function LiveFrom<T>(log: seq<Presentation<T>>, cap: nat, ttl: int, now: int): (k: nat)
    requires cap > 0
    ensures k <= |log|
  {
    OpeningIsInside(log, cap, ttl);
    var e := Epochs(log, cap, ttl);
    if e.inserted == [] || now > e.expires then |log| else e.opening
  }

  // Everything presented in the live epoch.
  ghost function Live<T>(log: seq<Presentation<T>>, cap: nat, ttl: int, now: int): set<T>
    requires cap > 0
  {
    Members(log[LiveFrom(log, cap, ttl, now)..])
  }

  lemma {:induction false} OpeningIsInside<T>(log: seq<Presentation<T>>, cap: nat, ttl: int)
    requires cap > 0
    ensures Epochs(log, cap, ttl).opening <= |log|
    ensures log != [] ==> Epochs(log, cap, ttl).opening < |log|
  {
    if log != [] {
      OpeningIsInside(Front(log), cap, ttl);
    }
  }

  lemma EpochStep<T>(log: seq<Presentation<T>>, cap: nat, ttl: int)
    requires cap > 0 && log != []
    ensures var e, front, last := Epochs(log, cap, ttl), Epochs(Front(log), cap, ttl), Last(log);
            if front.inserted == [] || last.at > front.expires then e.opening == |log| - 1 && e.presented == {last.x}
            else e.opening == front.opening && e.presented == front.presented + {last.x}
  {
  }

  lemma {:induction false} PresentedSinceOpening<T>(log: seq<Presentation<T>>, cap: nat, ttl: int)
    requires cap > 0
    ensures Epochs(log, cap, ttl).opening <= |log|
    ensures Epochs(log, cap, ttl).presented == Members(log[Epochs(log, cap, ttl).opening..])
  {
    if log == [] {
      assert Members<T>([]) == {};
    } else {
      hide Epochs, Members;
      OpeningIsInside(log, cap, ttl);
      PresentedSinceOpening(Front(log), cap, ttl);
      EpochStep(log, cap, ttl);
      var k, last := Epochs(log, cap, ttl).opening, Last(log);
      if k == |log| - 1 && Epochs(log, cap, ttl).presented == {last.x} {
        assert log[k..] == [] + [last];
        MembersSnoc([], last);
        NoMembers<T>();
      } else {
        assert log[k..] == Front(log)[k..] + [last];
        MembersSnoc(Front(log)[k..], last);
      }
    }
  }

  lemma NoMembers<T>()
    ensures Members<T>([]) == {}
  {
  }

  lemma MembersSnoc<T>(log: seq<Presentation<T>>, p: Presentation<T>)
    ensures Members(log + [p]) == Members(log) + {p.x}
  {
    var longer := log + [p];
    assert longer[|log|] == p;
    forall x | x in Members(log) ensures x in Members(longer) {
      var i :| 0 <= i < |log| && log[i].x == x;
      assert longer[i].x == x;
    }
  }

  // What the code counts is the live epoch, up to the cap.
  lemma CountIsLive<T(!new)>(log: seq<Presentation<T>>, cap: nat, ttl: int, now: int)
    requires cap > 0
    ensures var e := Epochs(log, cap, ttl);
            |Live(log, cap, ttl, now)| == if e.inserted == [] || now > e.expires then 0 else |e.presented|
  {
    PresentedSinceOpening(log, cap, ttl);
    if LiveFrom(log, cap, ttl, now) == |log| {
      assert log[|log|..] == [];
      assert Members<T>([]) == {};
    }
  }

  // Nothing presented before the live epoch opened is both recent and absent since.
  ghost predicate NothingLost<T>(log: seq<Presentation<T>>, cap: nat, ttl: int, now: int)
    requires cap > 0
  {
    forall i :: 0 <= i < LiveFrom(log, cap, ttl, now) && now - log[i].at <= ttl ==> log[i].x in Live(log, cap, ttl, now)
  }

  // Everything presented in the live epoch was presented again recently enough.
  ghost predicate NothingStale<T>(log: seq<Presentation<T>>, cap: nat, ttl: int, now: int)
    requires cap > 0
  {
    forall i :: LiveFrom(log, cap, ttl, now) <= i < |log| ==> PresentedWithin(log, log[i].x, ttl, now)
  }

  ghost predicate PresentedWithin<T>(log: seq<Presentation<T>>, x: T, ttl: int, now: int) {
    exists j :: 0 <= j < |log| && log[j].x == x && now - log[j].at <= ttl
  }

  // The live epoch holds the whole window exactly if nothing was lost.
  lemma EpochCoversWindowIff<T>(log: seq<Presentation<T>>, cap: nat, ttl: int, now: int)
    requires cap > 0
    ensures Recent(log, ttl, now) <= Live(log, cap, ttl, now) <==> NothingLost(log, cap, ttl, now)
  {
    var k, live := LiveFrom(log, cap, ttl, now), Live(log, cap, ttl, now);
    forall i | k <= i < |log| ensures log[i].x in live {
      assert log[k..][i - k].x == log[i].x;
    }
    if Recent(log, ttl, now) <= live {
      forall i | 0 <= i < k && now - log[i].at <= ttl ensures log[i].x in live {
        assert log[i].x in Recent(log, ttl, now);
      }
    }
  }

  // The window holds the whole live epoch exactly if nothing is stale.
  lemma WindowCoversEpochIff<T>(log: seq<Presentation<T>>, cap: nat, ttl: int, now: int)
    requires cap > 0
    ensures Live(log, cap, ttl, now) <= Recent(log, ttl, now) <==> NothingStale(log, cap, ttl, now)
  {
    var k, recent := LiveFrom(log, cap, ttl, now), Recent(log, ttl, now);
    forall i | k <= i < |log| ensures log[i].x in Live(log, cap, ttl, now) {
      assert log[k..][i - k].x == log[i].x;
    }
    forall x ensures x in recent <==> PresentedWithin(log, x, ttl, now) {
    }
  }

  // ---- what can be lost ----

  ghost predicate Sorted<T>(log: seq<Presentation<T>>, now: int) {
    && (forall i, j :: 0 <= i < j < |log| ==> log[i].at <= log[j].at)
    && (forall i :: 0 <= i < |log| ==> log[i].at <= now)
  }

  // The i-th presentation was put into the list.
  ghost predicate Inserts<T>(log: seq<Presentation<T>>, i: nat, cap: nat, ttl: int)
    requires cap > 0 && i < |log|
  {
    var e := Epochs(log[..i], cap, ttl);
    e.inserted == [] || log[i].at > e.expires || log[i].x !in LastN(e.inserted, cap)
  }

  lemma InsertsFront<T>(log: seq<Presentation<T>>, i: nat, cap: nat, ttl: int)
    requires cap > 0 && i < |log| - 1
    ensures Inserts(Front(log), i, cap, ttl) <==> Inserts(log, i, cap, ttl)
  {
    assert Front(log)[..i] == log[..i];
  }

  lemma {:induction false} InsertionsRenew<T>(log: seq<Presentation<T>>, i: nat, cap: nat, ttl: int, now: int)
    requires cap > 0 && Sorted(log, now) && i < |log| && Inserts(log, i, cap, ttl)
    ensures log[i].at + ttl <= Epochs(log, cap, ttl).expires
  {
    if i < |log| - 1 {
      InsertsFront(log, i, cap, ttl);
      InsertionsRenew(Front(log), i, cap, ttl, now);
    } else {
      assert log[..i] == Front(log);
    }
  }

  // Only a repeated element can be lost from the window: whatever was inserted
  // before the live epoch opened is out of it.
  lemma {:induction false} LostIsRepeated<T>(log: seq<Presentation<T>>, i: nat, cap: nat, ttl: int, now: int)
    requires cap > 0 && Sorted(log, now) && i < LiveFrom(log, cap, ttl, now)
    requires Inserts(log, i, cap, ttl)
    ensures now - log[i].at > ttl
    decreases |log|
  {
    var e := Epochs(log, cap, ttl);
    OpeningIsInside(log, cap, ttl);
    if now > e.expires {
      InsertionsRenew(log, i, cap, ttl, now);
    } else {
      var front, last := Epochs(Front(log), cap, ttl), Last(log);
      InsertsFront(log, i, cap, ttl);
      if front.inserted == [] || last.at > front.expires {
        InsertionsRenew(Front(log), i, cap, ttl, now);
      } else {
        LostIsRepeated(Front(log), i, cap, ttl, last.at);
      }
    }
  }
}
