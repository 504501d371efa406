// storage/memory.go: counters and bans in memory.
module MemoryBackend {
  import opened Prelude
  import opened Windows

  // The backend as a value.
  datatype Mem = Mem(events: map<string, Counter>, blocked: map<string, int>) {
    function Event(key: string): Option<Counter> {
      if key in events then Some(events[key]) else None
    }

    function Incr(key: string, hit: Hit): Mem {
      this.(events := events[key := Bump(Event(key), hit)])
    }

    function Get(key: string, now: int): int {
      Reading(Event(key), now)
    }

    function Block(key: string, until: int): Mem {
      this.(blocked := blocked[key := until])
    }

    predicate IsBlocked(key: string, now: int) {
      key in blocked && now < blocked[key]
    }

    function Reap(now: int): Mem {
      Mem(map k | k in events && !Over(Some(events[k]), now) :: events[k],
          map k | k in blocked && now <= blocked[k] :: blocked[k])
    }
  }

  // A counter the backend updates in place.
  class Event {
    var count: int
    var windowStart: int
    var window: int

    constructor (count: int, windowStart: int, window: int)
      ensures Value() == Counter(count, windowStart, window)
    {
      this.count := count;
      this.windowStart := windowStart;
      this.window := window;
    }

    function Value(): Counter
      reads this
    {
      Counter(count, windowStart, window)
    }
  }

  class Memory {
    var events: map<string, Event>
    var blocked: map<string, int>

    ghost function Events(): set<Event>
      reads this
    {
      set k | k in events :: events[k]
    }

    // No two keys share a counter.
    ghost predicate Valid()
      reads this
    {
      forall k, l :: k in events && l in events && k != l ==> events[k] != events[l]
    }

    ghost function Model(): Mem
      reads this, Events()
    {
      Mem(map k | k in events :: events[k].Value(), blocked)
    }

    constructor ()
      ensures Valid() && Model() == Mem(map[], map[])
    {
      events := map[];
      blocked := map[];
    }

    method Incr(key: string, window: int, now: int) returns (count: int)
      requires Valid()
      modifies this, Events()
      ensures Valid() && fresh(Events() - old(Events()))
      ensures Model() == old(Model()).Incr(key, Hit(now, window))
      ensures count == Model().events[key].count
    {
      if key !in events || now - events[key].windowStart > window {
        count := Start(key, window, now);
      } else {
        count := Increment(key, window);
      }
    }

    method Start(key: string, window: int, now: int) returns (count: int)
      requires Valid()
      modifies `events
      ensures Valid() && fresh(Events() - old(Events()))
      ensures Model() == old(Model()).(events := old(Model().events)[key := Counter(1, now, window)])
      ensures count == 1
    {
      var ev := new Event(1, now, window);
      events := events[key := ev];
      return 1;
    }

    // A hit inside the running window updates its counter in place.
    method Increment(key: string, window: int) returns (count: int)
      requires Valid() && key in events
      modifies events[key]
      ensures Model().events == old(Model().events)[key := Counter(count, old(events[key].windowStart), window)]
      ensures Model().blocked == old(Model().blocked)
      ensures count == old(events[key].count) + 1
    {
      var ev := events[key];
      ev.count := ev.count + 1;
      ev.window := window;
      return ev.count;
    }

    method Get(key: string, now: int) returns (count: int)
      requires Valid()
      ensures count == Model().Get(key, now)
    {
      if key !in events {
        return 0;
      }
      var ev := events[key];
      if ev.window > 0 && now - ev.windowStart > ev.window {
        return 0;
      }
      return ev.count;
    }

    method Block(key: string, duration: int, now: int)
      requires Valid()
      modifies this
      ensures Valid() && events == old(events)
      ensures Model() == old(Model()).Block(key, now + duration)
    {
      blocked := blocked[key := now + duration];
    }

    method IsBlocked(key: string, now: int) returns (b: bool)
      ensures b <==> Model().IsBlocked(key, now)
    {
      b := key in blocked && now < blocked[key];
    }

    // One sweep of the reaper: first the counters, then the bans.
    method ReapOnce(now: int)
      requires Valid()
      modifies this
      ensures Valid() && Events() <= old(Events())
      ensures Model() == old(Model()).Reap(now)
      ensures forall k :: k in Model().events <==>
                k in old(Model()).events &&
                now - old(Model()).events[k].start <= old(Model()).events[k].window
      ensures forall k :: k in Model().blocked <==> k in old(Model()).blocked && now <= old(Model()).blocked[k]
    {
      ReapEvents(now);
      ReapBlocked(now);
    }

    method ReapEvents(now: int)
      requires Valid()
      modifies `events
      ensures events == map k | k in old(events) && !Over(Some(old(events)[k].Value()), now) :: old(events)[k]
    {
      var keys := events.Keys;
      while keys != {}
        invariant keys <= events.Keys
        invariant events == map k | k in old(events) && (k in keys || !Over(Some(old(events)[k].Value()), now)) ::
                              old(events)[k]
        decreases keys
      {
        var k :| k in keys;
        if now - events[k].windowStart > events[k].window {
          events := events - {k};
        }
        keys := keys - {k};
      }
    }

    method ReapBlocked(now: int)
      modifies `blocked
      ensures blocked == map k | k in old(blocked) && now <= old(blocked)[k] :: old(blocked)[k]
    {
      var keys := blocked.Keys;
      while keys != {}
        invariant keys <= blocked.Keys
        invariant blocked == map k | k in old(blocked) && (k in keys || now <= old(blocked)[k]) :: old(blocked)[k]
        decreases keys
      {
        var k :| k in keys;
        if now > blocked[k] {
          blocked := blocked - {k};
        }
        keys := keys - {k};
      }
    }
  }
}
