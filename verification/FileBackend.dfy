// storage/file.go: counters and bans in one record per key, saved to a file. The
// file is the sequence of records last written to it.
module FileRecords {
  import opened Prelude
  import opened Windows

  // One record; None is the zero time of a field that was never set.
  datatype Rec = Rec(count: int, start: Option<int>, window: int, blockUntil: Option<int>) {
    // A counter that was never started is older than any window.
    predicate Elapsed(now: int, limit: int) {
      start == None || now - start.value > limit
    }

    function Counted(hit: Hit): Rec {
      if Elapsed(hit.at, hit.window) then Rec(1, Some(hit.at), hit.window, None)
      else this.(count := count + 1, window := hit.window)
    }

    function Reading(now: int): int {
      if window > 0 && Elapsed(now, window) then 0 else count
    }

    predicate Banned(now: int) {
      blockUntil.Some? && now < blockUntil.value
    }

    // Files written before the field existed carry no window.
    function RecordWindow(): (w: int)
      ensures w > 0
    {
      if window > 0 then window else 5 * MINUTE
    }

    predicate Alive(now: int) {
      Banned(now) || !Elapsed(now, RecordWindow())
    }
  }

  type Records = map<string, Rec>

  function Incr(f: Records, key: string, hit: Hit): Records {
    f[key := if key in f then f[key].Counted(hit) else Rec(1, Some(hit.at), hit.window, None)]
  }

  function Get(f: Records, key: string, now: int): int {
    if key in f then f[key].Reading(now) else 0
  }

  function Block(f: Records, key: string, until: int): Records {
    f[key := (if key in f then f[key] else Rec(0, None, 0, None)).(blockUntil := Some(until))]
  }

  predicate IsBlocked(f: Records, key: string, now: int) {
    key in f && f[key].Banned(now)
  }

  function Prune(f: Records, now: int): Records {
    map k | k in f && f[k].Alive(now) :: f[k]
  }

  // What a save keeps: a ban that runs, or a counter whose window is not over; without
  // a recorded window five minutes count.
  lemma SavedIff(f: Records, key: string, saved: int)
    ensures key in Prune(f, saved) <==>
            && key in f
            && var r := f[key];
               || (r.blockUntil.Some? && saved < r.blockUntil.value)
               || (r.start.Some? && saved - r.start.value <= if r.window > 0 then r.window else 300_000_000_000)
    ensures key in Prune(f, saved) ==> Prune(f, saved)[key] == f[key]
  {
  }

  // A record from a file without windows: it is read for ever, until the first save
  // more than five minutes after its window opened retires it.
  lemma LegacyRecordIsRetired(f: Records, key: string, start: int, saved: int, now: int)
    requires key in f && f[key].window <= 0 && f[key].start == Some(start) && !f[key].Banned(saved)
    ensures Get(f, key, now) == f[key].count
    ensures Get(Prune(f, saved), key, now) == if saved - start <= 5 * MINUTE then f[key].count else 0
  {
  }

  // ---- the file ----

  datatype Line = Line(key: string, rec: Rec)

  // Reading the lines in order; a later line for a key wins.
  function Parsed(lines: seq<Line>): Records {
    if lines == [] then map[] else Parsed(Front(lines))[Last(lines).key := Last(lines).rec]
  }

}

module FileBackend {
  import opened Prelude
  import opened Windows
  import opened FileRecords

  class Record {
    var count: int
    var windowStart: Option<int>
    var window: int
    var blockUntil: Option<int>

    constructor (rec: Rec)
      ensures Value() == rec
    {
      count, windowStart, window, blockUntil := rec.count, rec.start, rec.window, rec.blockUntil;
    }

    function Value(): Rec
      reads this
    {
      Rec(count, windowStart, window, blockUntil)
    }
  }

  class File {
    var records: map<string, Record>
    var disk: seq<Line>
    var dirty: bool

    ghost function Objects(): set<Record>
      reads this
    {
      set k | k in records :: records[k]
    }

    // No two keys share a record.
    ghost predicate Valid()
      reads this
    {
      forall k, l :: k in records && l in records && k != l ==> records[k] != records[l]
    }

    ghost function Model(): Records
      reads this, Objects()
    {
      map k | k in records :: records[k].Value()
    }

    // NewFile on a path whose file holds the given lines.
    constructor (lines: seq<Line>)
      ensures Valid() && fresh(Objects()) && disk == lines && !dirty
      ensures Model() == Parsed(lines)
    {
      records := map[];
      disk := lines;
      dirty := false;
      new;
      var i := 0;
      while i < |lines|
        invariant 0 <= i <= |lines|
        invariant Valid() && disk == lines && !dirty
        invariant forall k :: k in records ==> fresh(records[k])
        invariant Model() == Parsed(lines[..i])
      {
        Put(lines[i].key, lines[i].rec);
        assert Front(lines[..i + 1]) == lines[..i];
        i := i + 1;
      }
      assert lines[..i] == lines;
    }

    method Incr(key: string, window: int, now: int) returns (count: int)
      requires Valid()
      modifies this, Objects()
      ensures Valid() && fresh(Objects() - old(Objects())) && dirty && disk == old(disk)
      ensures Model() == FileRecords.Incr(old(Model()), key, Hit(now, window))
      ensures count == Model()[key].count
    {
      if key !in records || records[key].windowStart == None || now - records[key].windowStart.value > window {
        Put(key, Rec(1, Some(now), window, None));
        count := 1;
      } else {
        count := Increment(key, window);
      }
      dirty := true;
    }

    // A new record takes the place of whatever the key had.
    method Put(key: string, rec: Rec)
      requires Valid()
      modifies `records
      ensures Valid() && fresh(Objects() - old(Objects()))
      ensures Model() == old(Model())[key := rec]
    {
      var r := new Record(rec);
      records := records[key := r];
    }

    // A hit inside the running window updates its record in place.
    method Increment(key: string, window: int) returns (count: int)
      requires Valid() && key in records
      modifies records[key]
      ensures Model() == old(Model())[key := old(Model()[key]).(count := count, window := window)]
      ensures count == old(Model()[key]).count + 1
    {
      var r := records[key];
      r.count := r.count + 1;
      r.window := window;
      return r.count;
    }

    method Get(key: string, now: int) returns (count: int)
      requires Valid()
      ensures count == FileRecords.Get(Model(), key, now)
    {
      if key !in records {
        return 0;
      }
      var r := records[key];
      if r.window > 0 && (r.windowStart == None || now - r.windowStart.value > r.window) {
        return 0;
      }
      return r.count;
    }

    method Block(key: string, duration: int, now: int)
      requires Valid()
      modifies this, Objects()
      ensures Valid() && fresh(Objects() - old(Objects())) && dirty && disk == old(disk)
      ensures Model() == FileRecords.Block(old(Model()), key, now + duration)
    {
      if key in records {
        var r := records[key];
        r.blockUntil := Some(now + duration);
      } else {
        Put(key, Rec(0, None, 0, Some(now + duration)));
      }
      dirty := true;
    }

    method IsBlocked(key: string, now: int) returns (b: bool)
      requires Valid()
      ensures b <==> FileRecords.IsBlocked(Model(), key, now)
    {
      if key !in records {
        return false;
      }
      var r := records[key];
      b := r.blockUntil.Some? && now < r.blockUntil.value;
    }

    // The loop of saveLocked: the records that are over leave the map, the others
    // are copied out in whatever order the map yields them.
    method PruneAndCollect(now: int) returns (out: seq<Line>)
      modifies `records
      ensures records == map k | k in old(records) && old(records)[k].Value().Alive(now) :: old(records)[k]
      ensures Parsed(out) == Prune(old(Model()), now)
    {
      ghost var all := Model();
      out := [];
      var pending := records.Keys;
      while pending != {}
        invariant pending <= records.Keys <= all.Keys
        invariant forall k :: k in records ==> records[k] == old(records)[k]
        invariant forall k :: k in all ==> (k in records <==> k in pending || all[k].Alive(now))
        invariant Parsed(out) == map k | k in all && k !in pending && all[k].Alive(now) :: all[k]
        decreases pending
      {
        var k :| k in pending;
        var rec := records[k].Value();
        assert rec == all[k];
        if !rec.Alive(now) {
          records := records - {k};
        } else {
          FrontOfSnoc(out, Line(k, rec));
          out := out + [Line(k, rec)];
        }
        pending := pending - {k};
      }
    }

    // saveLocked, on a file system that does not fail.
    method Save(now: int)
      requires Valid()
      modifies `records, `disk
      ensures Valid() && Objects() <= old(Objects())
      ensures Model() == Prune(old(Model()), now)
      ensures Parsed(disk) == Model()
    {
      disk := PruneAndCollect(now);
    }

    // One tick of the auto-save.
    method AutoSave(now: int)
      requires Valid()
      modifies this
      ensures Valid() && Objects() <= old(Objects()) && !dirty
      ensures Model() == if old(dirty) then Prune(old(Model()), now) else old(Model())
      ensures if old(dirty) then Parsed(disk) == Model() else disk == old(disk)
    {
      if dirty {
        Save(now);
        dirty := false;
      }
    }
  }

  // Closing saves whatever is live, and opening the file again restores it.
  method CloseAndReopen(file: File, now: int) returns (reopened: File)
    requires file.Valid()
    modifies file
    ensures fresh(reopened) && reopened.Valid()
    ensures reopened.Model() == Prune(old(file.Model()), now)
  {
    file.Save(now);
    reopened := new File(file.disk);
  }
}
