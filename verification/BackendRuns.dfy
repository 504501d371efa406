// Both storage backends over whole runs: every answer is a function of the
// history of increments and blocks. Reaping, pruning, saving and reopening are
// housekeeping nobody can observe.
module BackendRuns {
  import opened Prelude
  import opened Windows
  import opened MemoryBackend
  import F = FileRecords

  // Housekeeping is one sweep of the reaper for Memory; for File it is a save, or
  // a close and reopen, which leave the same records.
  datatype Op =
    | Incr(at: int, key: string, window: int)
    | Block(at: int, key: string, duration: int)
    | Housekeep(at: int)

  function MemStep(m: Mem, op: Op): Mem {
    match op
    case Incr(at, key, window) => m.Incr(key, Hit(at, window))
    case Block(at, key, duration) => m.Block(key, at + duration)
    case Housekeep(at) => m.Reap(at)
  }

  function FileStep(f: F.Records, op: Op): F.Records {
    match op
    case Incr(at, key, window) => F.Incr(f, key, Hit(at, window))
    case Block(at, key, duration) => F.Block(f, key, at + duration)
    case Housekeep(at) => F.Prune(f, at)
  }

  function MemRun(ops: seq<Op>): Mem {
    if ops == [] then Mem(map[], map[]) else MemStep(MemRun(Front(ops)), Last(ops))
  }

  function FileRun(ops: seq<Op>): F.Records {
    if ops == [] then map[] else FileStep(FileRun(Front(ops)), Last(ops))
  }

  ghost predicate Timely(ops: seq<Op>, now: int) {
    && (forall i, j :: 0 <= i < j < |ops| ==> ops[i].at <= ops[j].at)
    && (forall i :: 0 <= i < |ops| ==> ops[i].at <= now)
  }

  // ---- the history of one key ----

  function Hits(ops: seq<Op>, key: string): seq<Hit> {
    if ops == [] then []
    else
      match Last(ops)
      case Incr(at, k, window) => if k == key then Hits(Front(ops), key) + [Hit(at, window)] else Hits(Front(ops), key)
      case _ => Hits(Front(ops), key)
  }

  // The end of the latest ban.
  function LastBan(ops: seq<Op>, key: string): Option<int> {
    if ops == [] then None
    else
      match Last(ops)
      case Block(at, k, duration) => if k == key then Some(at + duration) else LastBan(Front(ops), key)
      case _ => LastBan(Front(ops), key)
  }

  // The count an increment is answered with.
  function MemAnswer(m: Mem, key: string, hit: Hit): int {
    m.Incr(key, hit).events[key].count
  }

  function FileAnswer(f: F.Records, key: string, hit: Hit): int {
    F.Incr(f, key, hit)[key].count
  }

  // ---- Memory: counters ----

  // A sweep since the latest increment found the window of the key over.
  function MemDropped(ops: seq<Op>, key: string): bool {
    if ops == [] then false
    else
      match Last(ops)
      case Incr(_, k, _) => k != key && MemDropped(Front(ops), key)
      case Block(_, _, _) => MemDropped(Front(ops), key)
      case Housekeep(at) =>
        MemDropped(Front(ops), key) ||
        (Fold(Hits(Front(ops), key)).Some? && Over(Fold(Hits(Front(ops), key)), at))
  }

  // The last operation asks for a window that reaches back to a dropped counter.
  predicate MemMisses(ops: seq<Op>, key: string)
    requires ops != []
  {
    match Last(ops)
    case Incr(at, k, window) =>
      k == key && MemDropped(Front(ops), key) && !Opens(Fold(Hits(Front(ops), key)), Hit(at, window))
    case _ => false
  }

  ghost predicate MemHarmless(ops: seq<Op>, key: string) {
    ops == [] || (MemHarmless(Front(ops), key) && !MemMisses(ops, key))
  }

  lemma {:induction false} MemTracked(ops: seq<Op>, key: string)
    requires MemHarmless(ops, key)
    ensures MemRun(ops).Event(key) == if MemDropped(ops, key) then None else Fold(Hits(ops, key))
  {
    if ops != [] {
      MemTracked(Front(ops), key);
      if Last(ops).Incr? && Last(ops).key == key {
        FoldSnoc(Hits(Front(ops), key), Hit(Last(ops).at, Last(ops).window));
      }
    }
  }

  // Every increment of the key was answered with the count of the full history.
  ghost predicate MemAnswersFold(ops: seq<Op>, key: string) {
    ops == [] ||
    (&& MemAnswersFold(Front(ops), key)
     && (Last(ops).Incr? && Last(ops).key == key ==>
           MemAnswer(MemRun(Front(ops)), key, Hit(Last(ops).at, Last(ops).window)) ==
           Fold(Hits(ops, key)).value.count))
  }

  // Reaping is unobservable in the answers of a run exactly if no increment asked
  // for a window that reaches back to a counter the reaper dropped.
  lemma {:induction false} MemoryAnswersHistoryIff(ops: seq<Op>, key: string)
    ensures MemAnswersFold(ops, key) <==> MemHarmless(ops, key)
  {
    if ops != [] {
      MemoryAnswersHistoryIff(Front(ops), key);
      if Last(ops).Incr? && Last(ops).key == key && MemHarmless(Front(ops), key) {
        hide MemHarmless, MemAnswersFold;
        MemTracked(Front(ops), key);
        AnswerOfCounter(MemRun(Front(ops)), Hits(Front(ops), key), MemDropped(Front(ops), key), key,
                        Hit(Last(ops).at, Last(ops).window));
      }
    }
  }

  lemma AnswerOfCounter(m: Mem, log: seq<Hit>, dropped: bool, key: string, hit: Hit)
    requires m.Event(key) == if dropped then None else Fold(log)
    ensures MemAnswer(m, key, hit) == Fold(log + [hit]).value.count <==> !dropped || Opens(Fold(log), hit)
    ensures dropped ==> MemAnswer(m, key, hit) == 1
  {
    FoldSnoc(log, hit);
    if log != [] {
      FoldCounts(log);
    }
  }

  // What Memory answers next, in a run without such an increment.
  lemma MemoryRefinesHistory(ops: seq<Op>, key: string, hit: Hit, now: int)
    requires MemHarmless(ops, key)
    ensures var log := Hits(ops, key);
            && (MemAnswer(MemRun(ops), key, hit) == Fold(log + [hit]).value.count <==>
                !MemDropped(ops, key) || Opens(Fold(log), hit))
            && MemRun(ops).Get(key, now) == (if MemDropped(ops, key) then 0 else Reading(Fold(log), now))
  {
    hide MemRun, MemHarmless, MemDropped, Hits, Fold;
    MemTracked(ops, key);
    AnswerOfCounter(MemRun(ops), Hits(ops, key), MemDropped(ops, key), key, hit);
  }

  // ---- Memory: bans ----

  lemma {:induction false} MemBansTracked(ops: seq<Op>, key: string, now: int)
    requires Timely(ops, now)
    ensures if key in MemRun(ops).blocked then LastBan(ops, key) == Some(MemRun(ops).blocked[key])
            else LastBan(ops, key) == None || now >= LastBan(ops, key).value
  {
    if ops != [] {
      MemBansTracked(Front(ops), key, Last(ops).at);
    }
  }

  // A key is blocked exactly until the end of its latest ban, under any increments
  // and sweeps.
  lemma MemoryBlocksIff(ops: seq<Op>, key: string, now: int)
    requires Timely(ops, now)
    ensures MemRun(ops).IsBlocked(key, now) <==> LastBan(ops, key).Some? && now < LastBan(ops, key).value
  {
    MemBansTracked(ops, key, now);
  }

  // ---- File: bans ----

  // An increment after the latest ban was answered with one: a new window opened.
  function ReopenedSinceBan(ops: seq<Op>, key: string): bool {
    if ops == [] then false
    else
      match Last(ops)
      case Incr(at, k, window) =>
        || ReopenedSinceBan(Front(ops), key)
        || (k == key && FileAnswer(FileRun(Front(ops)), key, Hit(at, window)) == 1)
      case Block(_, k, _) => k != key && ReopenedSinceBan(Front(ops), key)
      case Housekeep(_) => ReopenedSinceBan(Front(ops), key)
  }

  // What File remembers of a ban: nothing once a new window opened.
  function RememberedBan(ops: seq<Op>, key: string): Option<int> {
    if ReopenedSinceBan(ops, key) then None else LastBan(ops, key)
  }

  ghost predicate BanTracks(f: F.Records, key: string, ban: Option<int>, now: int) {
    if key in f then f[key].blockUntil == ban && (if f[key].start.Some? then f[key].count >= 1 else f[key].count == 0)
    else ban == None || now >= ban.value
  }

  lemma BanStep(f: F.Records, op: Op, key: string, ban: Option<int>, now: int)
    requires BanTracks(f, key, ban, op.at) && op.at <= now
    ensures var next := match op
                        case Incr(at, k, window) =>
                          if k == key && FileAnswer(f, key, Hit(at, window)) == 1 then None else ban
                        case Block(at, k, duration) => if k == key then Some(at + duration) else ban
                        case Housekeep(_) => ban;
            BanTracks(FileStep(f, op), key, next, now)
  {
  }

  lemma {:induction false} FileBansTracked(ops: seq<Op>, key: string, now: int)
    requires Timely(ops, now)
    ensures BanTracks(FileRun(ops), key, RememberedBan(ops, key), now)
  {
    if ops != [] {
      hide BanTracks, FileStep, FileAnswer;
      FileBansTracked(Front(ops), key, Last(ops).at);
      BanStep(FileRun(Front(ops)), Last(ops), key, RememberedBan(Front(ops), key), now);
    } else {
      NoRecords(key, now);
    }
  }

  lemma NoRecords(key: string, now: int)
    ensures BanTracks(FileRun([]), key, RememberedBan([], key), now)
  {
  }

  // File blocks a key exactly until the end of its latest ban, or until an
  // increment opens a new window.
  lemma FileBlocksIff(ops: seq<Op>, key: string, now: int)
    requires Timely(ops, now)
    ensures F.IsBlocked(FileRun(ops), key, now) <==>
            LastBan(ops, key).Some? && now < LastBan(ops, key).value && !ReopenedSinceBan(ops, key)
  {
    hide FileRun;
    FileBansTracked(ops, key, now);
  }

  // The backends disagree on a ban exactly while it runs and a new window has
  // opened since: then File has forgotten it.
  lemma FileForgetsBanIff(ops: seq<Op>, key: string, now: int)
    requires Timely(ops, now)
    ensures F.IsBlocked(FileRun(ops), key, now) != MemRun(ops).IsBlocked(key, now) <==>
            MemRun(ops).IsBlocked(key, now) && ReopenedSinceBan(ops, key)
  {
    hide FileRun, MemRun;
    MemoryBlocksIff(ops, key, now);
    FileBlocksIff(ops, key, now);
  }

  // It does happen: one increment is enough.
  lemma NewWindowDropsBan(key: string, duration: int, window: int)
    requires duration > 0
    ensures var ops := [Block(0, key, duration), Incr(0, key, window)];
            MemRun(ops).IsBlocked(key, 0) && !F.IsBlocked(FileRun(ops), key, 0)
  {
    var ops := [Block(0, key, duration), Incr(0, key, window)];
    assert Front(ops) == [Block(0, key, duration)] && Front(Front(ops)) == [];
    assert MemRun(Front(ops)) == Mem(map[], map[key := duration]);
    assert FileRun(Front(ops)) == F.Block(map[], key, duration);
  }

  // ---- File: counters ----

  // A save since the latest increment found the window over and no ban to keep the
  // record for.
  function FileDropped(ops: seq<Op>, key: string): bool {
    if ops == [] then false
    else
      match Last(ops)
      case Incr(_, k, _) => k != key && FileDropped(Front(ops), key)
      case Block(_, _, _) => FileDropped(Front(ops), key)
      case Housekeep(at) =>
        FileDropped(Front(ops), key) ||
        (Retires(Fold(Hits(Front(ops), key)), at) && !Runs(RememberedBan(Front(ops), key), at))
  }

  predicate Retires(c: Option<Counter>, at: int) {
    c.Some? && at - c.value.start > if c.value.window > 0 then c.value.window else 5 * MINUTE
  }

  predicate Runs(ban: Option<int>, at: int) {
    ban.Some? && at < ban.value
  }

  predicate FileMisses(ops: seq<Op>, key: string)
    requires ops != []
  {
    match Last(ops)
    case Incr(at, k, window) =>
      k == key && FileDropped(Front(ops), key) && !Opens(Fold(Hits(Front(ops), key)), Hit(at, window))
    case _ => false
  }

  ghost predicate FileHarmless(ops: seq<Op>, key: string) {
    ops == [] || (FileHarmless(Front(ops), key) && !FileMisses(ops, key))
  }

  // The counter inside a record; a record made by a ban alone has none.
  function Started(f: F.Records, key: string): Option<Counter> {
    if key in f && f[key].start.Some? then Some(Counter(f[key].count, f[key].start.value, f[key].window)) else None
  }

  // A record made by a ban alone counts nothing.
  ghost predicate BanOnly(f: F.Records, key: string) {
    key in f && f[key].start.None? ==> f[key].count == 0 && f[key].window == 0
  }

  lemma CounterStep(f: F.Records, op: Op, key: string, ban: Option<int>)
    requires BanTracks(f, key, ban, op.at) && BanOnly(f, key)
    ensures BanOnly(FileStep(f, op), key)
    ensures Started(FileStep(f, op), key) ==
            match op
            case Incr(at, k, window) =>
              if k == key then Some(Bump(Started(f, key), Hit(at, window))) else Started(f, key)
            case Block(_, _, _) => Started(f, key)
            case Housekeep(at) => if Retires(Started(f, key), at) && !Runs(ban, at) then None else Started(f, key)
  {
  }

  lemma {:induction false} FileTracked(ops: seq<Op>, key: string, now: int)
    requires Timely(ops, now) && FileHarmless(ops, key)
    ensures BanOnly(FileRun(ops), key)
    ensures Started(FileRun(ops), key) == if FileDropped(ops, key) then None else Fold(Hits(ops, key))
  {
    if ops != [] {
      hide BanTracks, BanOnly, FileStep, Started, Retires, Runs, RememberedBan, Opens;
      var log, op := Hits(Front(ops), key), Last(ops);
      FileTracked(Front(ops), key, op.at);
      FileBansTracked(Front(ops), key, op.at);
      CounterStep(FileRun(Front(ops)), op, key, RememberedBan(Front(ops), key));
      if op.Incr? && op.key == key {
        FoldSnoc(log, Hit(op.at, op.window));
        BumpFresh(Fold(log), Hit(op.at, op.window));
      } else if op.Housekeep? {
        NothingRetires(op.at);
      }
    } else {
      NoCounters(key);
    }
  }

  lemma NoCounters(key: string)
    ensures BanOnly(FileRun([]), key) && Started(FileRun([]), key) == None
  {
  }

  lemma BumpFresh(c: Option<Counter>, hit: Hit)
    ensures Opens(c, hit) ==> Bump(c, hit) == Bump(None, hit)
  {
  }

  lemma NothingRetires(at: int)
    ensures !Retires(None, at)
  {
  }

  ghost predicate FileAnswersFold(ops: seq<Op>, key: string) {
    ops == [] ||
    (&& FileAnswersFold(Front(ops), key)
     && (Last(ops).Incr? && Last(ops).key == key ==>
           FileAnswer(FileRun(Front(ops)), key, Hit(Last(ops).at, Last(ops).window)) ==
           Fold(Hits(ops, key)).value.count))
  }

  lemma AnswerOfRecord(f: F.Records, log: seq<Hit>, dropped: bool, key: string, hit: Hit)
    requires Started(f, key) == if dropped then None else Fold(log)
    ensures FileAnswer(f, key, hit) == Fold(log + [hit]).value.count <==> !dropped || Opens(Fold(log), hit)
    ensures dropped ==> FileAnswer(f, key, hit) == 1
  {
    FoldSnoc(log, hit);
    if log != [] {
      FoldCounts(log);
    }
  }

  // Pruning, saving and reopening are unobservable in the answers of a run exactly
  // if no increment asked for a window that reaches back to a dropped counter.
  lemma {:induction false} FileAnswersHistoryIff(ops: seq<Op>, key: string, now: int)
    requires Timely(ops, now)
    ensures FileAnswersFold(ops, key) <==> FileHarmless(ops, key)
  {
    if ops != [] {
      FileAnswersHistoryIff(Front(ops), key, Last(ops).at);
      if Last(ops).Incr? && Last(ops).key == key && FileHarmless(Front(ops), key) {
        hide FileHarmless, FileAnswersFold;
        FileTracked(Front(ops), key, Last(ops).at);
        AnswerOfRecord(FileRun(Front(ops)), Hits(Front(ops), key), FileDropped(Front(ops), key), key,
                       Hit(Last(ops).at, Last(ops).window));
      }
    }
  }

  // What File answers next, in a run without such an increment.
  lemma FileRefinesHistory(ops: seq<Op>, key: string, hit: Hit, now: int)
    requires Timely(ops, now) && FileHarmless(ops, key)
    ensures var log := Hits(ops, key);
            && (FileAnswer(FileRun(ops), key, hit) == Fold(log + [hit]).value.count <==>
                !FileDropped(ops, key) || Opens(Fold(log), hit))
            && F.Get(FileRun(ops), key, now) == (if FileDropped(ops, key) then 0 else Reading(Fold(log), now))
  {
    hide FileRun, FileHarmless, FileDropped, Hits, Fold, FileAnswer;
    FileTracked(ops, key, now);
    AnswerOfRecord(FileRun(ops), Hits(ops, key), FileDropped(ops, key), key, hit);
  }

  // ---- the two together ----

  // With no such increment so far the backends differ on a count exactly where one
  // has dropped the counter, the other has kept it, and it still matters.
  lemma FileAgreesWithMemoryIff(ops: seq<Op>, key: string, hit: Hit, now: int)
    requires Timely(ops, now) && MemHarmless(ops, key) && FileHarmless(ops, key)
    ensures var c, apart := Fold(Hits(ops, key)), MemDropped(ops, key) != FileDropped(ops, key);
            && (FileAnswer(FileRun(ops), key, hit) != MemAnswer(MemRun(ops), key, hit) <==> apart && !Opens(c, hit))
            && (F.Get(FileRun(ops), key, now) != MemRun(ops).Get(key, now) <==> apart && Reading(c, now) != 0)
  {
    hide FileRun, MemRun, FileHarmless, MemHarmless, FileDropped, MemDropped, Hits, Fold, FileAnswer, MemAnswer, Opens;
    var log := Hits(ops, key);
    MemTracked(ops, key);
    FileTracked(ops, key, now);
    AnswerOfCounter(MemRun(ops), log, MemDropped(ops, key), key, hit);
    AnswerOfRecord(FileRun(ops), log, FileDropped(ops, key), key, hit);
    MemoryRefinesHistory(ops, key, hit, now);
    FileRefinesHistory(ops, key, hit, now);
  }

  // A ban keeps File's counter where Memory has dropped its own: an increment with
  // a longer window then gets different answers.
  lemma BanKeepsCounter(key: string)
    ensures var ops := [Incr(0, key, 1), Block(0, key, 9), Housekeep(2)];
            && MemAnswer(MemRun(ops), key, Hit(2, 3)) == 1
            && FileAnswer(FileRun(ops), key, Hit(2, 3)) == 2
  {
    var ops := [Incr(0, key, 1), Block(0, key, 9), Housekeep(2)];
    assert Front(ops) == [Incr(0, key, 1), Block(0, key, 9)] && Front(Front(ops)) == [Incr(0, key, 1)];
    assert Front([Incr(0, key, 1)]) == [];
    assert MemRun(Front(Front(ops))) == Mem(map[key := Counter(1, 0, 1)], map[]);
    assert FileRun(Front(Front(ops))) == map[key := F.Rec(1, Some(0), 1, None)];
    assert FileRun(Front(ops)) == map[key := F.Rec(1, Some(0), 1, Some(9))];
  }

  // A window that grows shows the sweep: with it the second increment is answered
  // one, without it two.
  lemma GrowingWindowShows(key: string)
    ensures var swept, lazy := [Incr(0, key, 1), Housekeep(2)], [Incr(0, key, 1)];
            && MemAnswer(MemRun(swept), key, Hit(2, 2)) == 1 && MemAnswer(MemRun(lazy), key, Hit(2, 2)) == 2
            && FileAnswer(FileRun(swept), key, Hit(2, 2)) == 1 && FileAnswer(FileRun(lazy), key, Hit(2, 2)) == 2
  {
    var lazy := [Incr(0, key, 1)];
    assert Front([Incr(0, key, 1), Housekeep(2)]) == lazy && Front(lazy) == [];
    assert MemRun(lazy) == Mem(map[key := Counter(1, 0, 1)], map[]);
    assert FileRun(lazy) == map[key := F.Rec(1, Some(0), 1, None)];
  }

  // ---- callers whose windows are positive and never grow ----

  lemma SettledPrefix(log: seq<Hit>, hit: Hit)
    requires Settled(log + [hit])
    ensures Settled(log)
  {
    assert forall i :: 0 <= i < |log| ==> log[i] == (log + [hit])[i];
  }

  lemma FoldSnoc(log: seq<Hit>, hit: Hit)
    ensures Fold(log + [hit]) == Some(Bump(Fold(log), hit))
  {
    FrontOfSnoc(log, hit);
  }

  lemma {:induction false} DroppedIsOver(ops: seq<Op>, key: string, now: int)
    requires Timely(ops, now) && Settled(Hits(ops, key))
    ensures MemDropped(ops, key) || FileDropped(ops, key) ==> Over(Fold(Hits(ops, key)), now)
  {
    if ops != [] {
      if Last(ops).Incr? && Last(ops).key == key {
        assert !MemDropped(ops, key) && !FileDropped(ops, key);
      } else {
        DroppedIsOver(Front(ops), key, Last(ops).at);
        if Hits(Front(ops), key) != [] {
          FoldCounts(Hits(Front(ops), key));
        }
      }
    }
  }

  lemma {:induction false} SettledIsHarmless(ops: seq<Op>, key: string, now: int)
    requires Timely(ops, now) && Settled(Hits(ops, key))
    ensures MemHarmless(ops, key) && FileHarmless(ops, key)
  {
    if ops != [] {
      hide MemDropped, FileDropped, Fold, Opens, Over, Settled;
      var log, op := Hits(Front(ops), key), Last(ops);
      if op.Incr? && op.key == key {
        SettledPrefix(log, Hit(op.at, op.window));
        DroppedIsOver(Front(ops), key, op.at);
        if Over(Fold(log), op.at) {
          OverMeansFresh(log, Hit(op.at, op.window));
        }
      }
      SettledIsHarmless(Front(ops), key, op.at);
    }
  }

  lemma OverReadsZero(log: seq<Hit>, now: int)
    requires Settled(log)
    ensures Over(Fold(log), now) ==> Reading(Fold(log), now) == 0
  {
    if log != [] {
      FoldCounts(log);
    }
  }

  // For them both backends answer the history alone, whatever the housekeeping.
  lemma SettledRefinesHistory(ops: seq<Op>, key: string, hit: Hit, now: int)
    requires Timely(ops, now) && Settled(Hits(ops, key) + [hit]) && hit.at == now
    ensures var log := Hits(ops, key);
            && MemAnswer(MemRun(ops), key, hit) == FileAnswer(FileRun(ops), key, hit) == Fold(log + [hit]).value.count
            && MemRun(ops).Get(key, now) == F.Get(FileRun(ops), key, now) == Reading(Fold(log), now)
  {
    hide MemRun, FileRun, Hits, Fold, Settled, Opens, MemDropped, FileDropped, MemHarmless, FileHarmless, MemAnswer,
         FileAnswer, Reading, Over;
    var log := Hits(ops, key);
    SettledPrefix(log, hit);
    SettledIsHarmless(ops, key, now);
    DroppedIsOver(ops, key, now);
    OverReadsZero(log, now);
    if Over(Fold(log), now) {
      OverMeansFresh(log, hit);
    }
    MemoryRefinesHistory(ops, key, hit, now);
    FileRefinesHistory(ops, key, hit, now);
  }

  // ---- housekeeping ----

  function Requests(ops: seq<Op>): seq<Op> {
    if ops == [] then []
    else Requests(Front(ops)) + if Last(ops).Housekeep? then [] else [Last(ops)]
  }

  lemma {:induction false} RequestsKeepHistory(ops: seq<Op>, key: string)
    ensures Hits(Requests(ops), key) == Hits(ops, key)
    ensures LastBan(Requests(ops), key) == LastBan(ops, key)
  {
    if ops != [] {
      RequestsKeepHistory(Front(ops), key);
      if Last(ops).Housekeep? {
        assert Requests(ops) == Requests(Front(ops));
      } else {
        FrontOfSnoc(Requests(Front(ops)), Last(ops));
      }
    }
  }

  lemma {:induction false} RequestsAreTimely(ops: seq<Op>, now: int)
    requires Timely(ops, now)
    ensures Timely(Requests(ops), now)
  {
    if ops != [] {
      RequestsAreTimely(Front(ops), Last(ops).at);
    }
  }

  // Without housekeeping nothing is dropped.
  lemma {:induction false} RequestsAreHarmless(ops: seq<Op>, key: string)
    ensures MemHarmless(Requests(ops), key) && !MemDropped(Requests(ops), key)
    ensures FileHarmless(Requests(ops), key) && !FileDropped(Requests(ops), key)
  {
    if ops != [] {
      RequestsAreHarmless(Front(ops), key);
      if Last(ops).Housekeep? {
        assert Requests(ops) == Requests(Front(ops));
      } else {
        hide Hits, Fold, Opens, RememberedBan;
        FrontOfSnoc(Requests(Front(ops)), Last(ops));
      }
    }
  }

  // Against the same requests without housekeeping, in a run in which it has not
  // shown yet: it shows in the next answer exactly if the counter was dropped and
  // the increment reaches back to it, or the counter would still be read.
  lemma HousekeepingShowsIff(ops: seq<Op>, key: string, hit: Hit, now: int)
    requires Timely(ops, now) && MemHarmless(ops, key) && FileHarmless(ops, key)
    ensures var lazy, busy, c := MemRun(Requests(ops)), MemRun(ops), Fold(Hits(ops, key));
            && (MemAnswer(busy, key, hit) != MemAnswer(lazy, key, hit) <==> MemDropped(ops, key) && !Opens(c, hit))
            && (busy.Get(key, now) != lazy.Get(key, now) <==> MemDropped(ops, key) && Reading(c, now) != 0)
    ensures var lazy, busy, c := FileRun(Requests(ops)), FileRun(ops), Fold(Hits(ops, key));
            && (FileAnswer(busy, key, hit) != FileAnswer(lazy, key, hit) <==> FileDropped(ops, key) && !Opens(c, hit))
            && (F.Get(busy, key, now) != F.Get(lazy, key, now) <==> FileDropped(ops, key) && Reading(c, now) != 0)
  {
    hide MemRun, FileRun, Hits, Fold, LastBan, Requests, MemHarmless, FileHarmless, MemDropped, FileDropped, Opens,
         MemAnswer, FileAnswer, Reading;
    RequestsKeepHistory(ops, key);
    RequestsAreTimely(ops, now);
    RequestsAreHarmless(ops, key);
    MemoryRefinesHistory(ops, key, hit, now);
    MemoryRefinesHistory(Requests(ops), key, hit, now);
    FileRefinesHistory(ops, key, hit, now);
    FileRefinesHistory(Requests(ops), key, hit, now);
  }

  // Sweeping never shows in Memory's bans.
  lemma SweepsKeepBans(ops: seq<Op>, key: string, now: int)
    requires Timely(ops, now)
    ensures MemRun(Requests(ops)).IsBlocked(key, now) == MemRun(ops).IsBlocked(key, now)
  {
    hide MemRun, LastBan, Requests;
    RequestsKeepHistory(ops, key);
    RequestsAreTimely(ops, now);
    MemoryBlocksIff(ops, key, now);
    MemoryBlocksIff(Requests(ops), key, now);
  }

  // With settled windows an increment opens a window with or without housekeeping.
  lemma {:induction false} RequestsReopen(ops: seq<Op>, key: string, now: int)
    requires Timely(ops, now) && Settled(Hits(ops, key))
    ensures ReopenedSinceBan(Requests(ops), key) == ReopenedSinceBan(ops, key)
  {
    if ops != [] {
      hide FileRun, FileAnswer, Settled, Fold;
      var front, op := Front(ops), Last(ops);
      if op.Incr? && op.key == key {
        var hit := Hit(op.at, op.window);
        SettledPrefix(Hits(front, key), hit);
        RequestsKeepHistory(front, key);
        RequestsAreTimely(front, op.at);
        SettledRefinesHistory(front, key, hit, op.at);
        SettledRefinesHistory(Requests(front), key, hit, op.at);
      }
      RequestsReopen(front, key, op.at);
      if op.Housekeep? {
        assert Requests(ops) == Requests(front);
      } else {
        FrontOfSnoc(Requests(front), op);
      }
    }
  }

  // For callers with settled windows leaving all housekeeping out changes no answer
  // of either backend.
  lemma HousekeepingIsInvisible(ops: seq<Op>, key: string, hit: Hit, now: int)
    requires Timely(ops, now) && Settled(Hits(ops, key) + [hit]) && hit.at == now
    ensures var lazy, busy := MemRun(Requests(ops)), MemRun(ops);
            && busy.Get(key, now) == lazy.Get(key, now)
            && MemAnswer(busy, key, hit) == MemAnswer(lazy, key, hit)
            && busy.IsBlocked(key, now) == lazy.IsBlocked(key, now)
    ensures var lazy, busy := FileRun(Requests(ops)), FileRun(ops);
            && F.Get(busy, key, now) == F.Get(lazy, key, now)
            && FileAnswer(busy, key, hit) == FileAnswer(lazy, key, hit)
            && F.IsBlocked(busy, key, now) == F.IsBlocked(lazy, key, now)
  {
    hide MemRun, FileRun, Hits, Fold, LastBan, ReopenedSinceBan, Requests, Settled, MemAnswer, FileAnswer, Reading;
    SettledPrefix(Hits(ops, key), hit);
    RequestsKeepHistory(ops, key);
    RequestsAreTimely(ops, now);
    RequestsReopen(ops, key, now);
    SettledRefinesHistory(ops, key, hit, now);
    SettledRefinesHistory(Requests(ops), key, hit, now);
    SweepsKeepBans(ops, key, now);
    FileBlocksIff(ops, key, now);
    FileBlocksIff(Requests(ops), key, now);
  }
}
