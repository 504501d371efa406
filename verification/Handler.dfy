// What a login handler does to its response: the status the guard records
// (session/bruteforce.go, statusWriter) and the status the client is answered.
module Handler {
  import opened Prelude

  datatype Write = WriteHeader(code: int) | Body

  // net/http panics on any other code.
  ghost predicate ValidCodes(writes: seq<Write>) {
    forall i :: 0 <= i < |writes| && writes[i].WriteHeader? ==> 100 <= writes[i].code <= 999
  }

  // The code statusWriter ends up with: the first one written, 200 for a body that
  // comes first, and 0 when the handler wrote nothing.
  function Recorded(writes: seq<Write>): int {
    if writes == [] then 0
    else if Recorded(Front(writes)) != 0 then Recorded(Front(writes))
    else match Last(writes) case WriteHeader(code) => code case Body => 200
  }

  // net/http sends informational headers ahead of the response; 101 ends it.
  predicate Informational(w: Write) {
    w.WriteHeader? && 100 <= w.code < 200 && w.code != 101
  }

  // The status of the response: the first code that is not informational, and 200
  // for a body or for a handler that ends without one.
  function Answered(writes: seq<Write>): int {
    if writes == [] then 200
    else if Informational(writes[0]) then Answered(writes[1..])
    else match writes[0] case WriteHeader(code) => code case Body => 200
  }

  // The handler writes something, and no informational header first.
  predicate Plain(writes: seq<Write>) {
    writes != [] && !Informational(writes[0])
  }

  // Later writes never change a recorded status.
  lemma {:induction false} FirstStatusStands(writes: seq<Write>, more: seq<Write>)
    requires Recorded(writes) != 0
    ensures Recorded(writes + more) == Recorded(writes)
  {
    if more == [] {
      assert writes + more == writes;
    } else {
      assert Front(writes + more) == writes + Front(more);
      FirstStatusStands(writes, Front(more));
    }
  }

  lemma {:induction false} AnsweredIsFinal(writes: seq<Write>)
    requires ValidCodes(writes)
    ensures Answered(writes) == 101 || 200 <= Answered(writes) <= 999
  {
    if writes != [] && Informational(writes[0]) {
      assert forall i :: 0 <= i < |writes[1..]| ==> writes[1..][i] == writes[i + 1];
      AnsweredIsFinal(writes[1..]);
    }
  }

  // The guard records what the client is answered exactly for plain handlers.
  lemma RecordedIsAnsweredIff(writes: seq<Write>)
    requires ValidCodes(writes)
    ensures Recorded(writes) == Answered(writes) <==> Plain(writes)
  {
    AnsweredIsFinal(writes);
    if writes != [] {
      var first := writes[..1];
      assert Front(first) == [] && writes == first + writes[1..];
      FirstStatusStands(first, writes[1..]);
    }
  }

  // A silent handler answers 200 and records nothing; an informational header
  // hides the 401 behind it.
  lemma SilenceAndHints()
    ensures Answered([]) == 200 && Recorded([]) == 0
    ensures Answered([WriteHeader(103), WriteHeader(401)]) == 401
    ensures Recorded([WriteHeader(103), WriteHeader(401)]) == 103
  {
    var hinted := [WriteHeader(103), WriteHeader(401)];
    assert Front(hinted) == [WriteHeader(103)] && Front([WriteHeader(103)]) == [];
    assert hinted[1..] == [WriteHeader(401)];
  }

  class StatusWriter {
    var status: int
    ghost var writes: seq<Write>

    ghost predicate Valid()
      reads this
    {
      status == Recorded(writes)
    }

    constructor ()
      ensures Valid() && writes == []
    {
      status := 0;
      writes := [];
    }

    method Do(write: Write)
      requires Valid()
      modifies this
      ensures Valid() && writes == old(writes) + [write]
    {
      FrontOfSnoc(writes, write);
      if status == 0 {
        match write {
          case WriteHeader(code) => status := code;
          case Body => status := 200;
        }
      }
      writes := writes + [write];
    }
  }
}
