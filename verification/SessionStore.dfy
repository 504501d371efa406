// session/store.go: a key-value store whose entries expire.
//
// TtlMap holds the store as a value and TtlHistory its meaning over a history;
// TtlStore is the Store interface over such a value; MemoryStore is the byte
// store that implements it with private buffers.
module TtlMap {
  import opened Prelude

  datatype Entry<+V> = Entry(value: V, expires: int)

  type Entries<K, +V> = map<K, Entry<V>>

  // A value saved at now for ttl is readable up to and including now + ttl.
  function Save<K(==), V>(m: Entries<K, V>, key: K, value: V, ttl: int, now: int): Entries<K, V> {
    m[key := Entry(value, now + ttl)]
  }

  function Load<K(==), V>(m: Entries<K, V>, key: K, now: int): Option<V> {
    if key !in m || now > m[key].expires then None else Some(m[key].value)
  }

  function Delete<K(==), V>(m: Entries<K, V>, key: K): Entries<K, V> {
    m - {key}
  }

  function Sweep<K(==), V>(m: Entries<K, V>, now: int): Entries<K, V> {
    map k | k in m && now <= m[k].expires :: m[k]
  }

}

// The meaning of a store over a whole history of writes, deletes and sweeps.
module TtlHistory {
  import opened Prelude
  import opened TtlMap

  // One store operation; the reaper's sweep may occur at any time.
  datatype Op<K, V> =
    | Saved(at: int, key: K, value: V, ttl: int)
    | Deleted(at: int, key: K)
    | Swept(at: int)

  function Apply<K(==), V>(m: Entries<K, V>, op: Op<K, V>): Entries<K, V> {
    match op
    case Saved(at, key, value, ttl) => Save(m, key, value, ttl, at)
    case Deleted(at, key) => Delete(m, key)
    case Swept(at) => Sweep(m, at)
  }

  function Run<K(==), V>(ops: seq<Op<K, V>>): Entries<K, V> {
    if ops == [] then map[] else Apply(Run(Front(ops)), Last(ops))
  }

  // The clock never goes backwards, up to the reading now.
  ghost predicate Timely<K, V>(ops: seq<Op<K, V>>, now: int) {
    && (forall i, j :: 0 <= i < j < |ops| ==> ops[i].at <= ops[j].at)
    && (forall i :: 0 <= i < |ops| ==> ops[i].at <= now)
  }

  // What a reader should see, with no expiry machinery at all: the latest write
  // to the key, if its time to live is not over.
  function LastWrite<K(==), V>(ops: seq<Op<K, V>>, key: K, now: int): Option<V> {
    if ops == [] then None
    else
      match Last(ops)
      case Saved(at, k, value, ttl) =>
        if k != key then LastWrite(Front(ops), key, now)
        else if now <= at + ttl then Some(value) else None
      case Deleted(_, k) => if k != key then LastWrite(Front(ops), key, now) else None
      case Swept(_) => LastWrite(Front(ops), key, now)
  }

  lemma {:induction false} LoadReadsLastWrite<K, V>(ops: seq<Op<K, V>>, key: K, now: int)
    requires Timely(ops, now)
    ensures Load(Run(ops), key, now) == LastWrite(ops, key, now)
  {
    if ops != [] {
      LoadReadsLastWrite(Front(ops), key, now);
    }
  }

  function Writes<K, V>(ops: seq<Op<K, V>>): seq<Op<K, V>> {
    if ops == [] then []
    else Writes(Front(ops)) + if Last(ops).Swept? then [] else [Last(ops)]
  }

  lemma {:induction false} WritesAreTimely<K, V>(ops: seq<Op<K, V>>, now: int)
    requires Timely(ops, now)
    ensures Timely(Writes(ops), now)
  {
    if ops != [] {
      WritesAreTimely(Front(ops), Last(ops).at);
    }
  }

  lemma {:induction false} WritesKeepLastWrite<K, V>(ops: seq<Op<K, V>>, key: K, now: int)
    ensures LastWrite(Writes(ops), key, now) == LastWrite(ops, key, now)
  {
    if ops != [] {
      WritesKeepLastWrite(Front(ops), key, now);
      FrontOfSnoc(Writes(Front(ops)), Last(ops));
      assert Writes(Front(ops)) + [] == Writes(Front(ops));
    }
  }

  // Sweeping is unobservable: no later read depends on when, or whether, the
  // reaper ran.
  lemma SweepsAreInvisible<K, V>(ops: seq<Op<K, V>>, key: K, now: int)
    requires Timely(ops, now)
    ensures Load(Run(ops), key, now) == Load(Run(Writes(ops)), key, now)
  {
    WritesAreTimely(ops, now);
    WritesKeepLastWrite(ops, key, now);
    LoadReadsLastWrite(ops, key, now);
    LoadReadsLastWrite(Writes(ops), key, now);
  }
}

module SessionStore {
  import opened Prelude
  import opened TtlMap

  // The Store interface: what every implementation promises its callers.
  class TtlStore<K(==), V> {
    var entries: Entries<K, V>

    constructor ()
      ensures entries == map[]
    {
      entries := map[];
    }

    method Save(key: K, value: V, ttl: int, now: int)
      modifies this
      ensures entries == TtlMap.Save(old(entries), key, value, ttl, now)
    {
      entries := entries[key := Entry(value, now + ttl)];
    }

    method Load(key: K, now: int) returns (value: Option<V>)
      ensures value == TtlMap.Load(entries, key, now)
    {
      if key !in entries || now > entries[key].expires {
        return None;
      }
      value := Some(entries[key].value);
    }

    method Delete(key: K)
      modifies this
      ensures entries == TtlMap.Delete(old(entries), key)
    {
      entries := entries - {key};
    }
  }

  type Byte = bv8

  // One stored value: its own buffer and its deadline.
  class Slot {
    const value: array<Byte>
    const expires: int

    constructor (value: array<Byte>, expires: int)
      ensures this.value == value && this.expires == expires
    {
      this.value := value;
      this.expires := expires;
    }
  }

  method Copied(source: array<Byte>) returns (cp: array<Byte>)
    ensures fresh(cp) && cp[..] == source[..]
  {
    cp := new Byte[source.Length];
    forall i | 0 <= i < source.Length {
      cp[i] := source[i];
    }
  }

  class MemoryStore {
    var entries: map<string, Slot>

    // The buffers the store owns.
    ghost function Buffers(): set<object>
      reads this
    {
      set k | k in entries :: entries[k].value as object
    }

    // The store as a TTL map of immutable byte strings.
    ghost function Contents(): Entries<string, seq<Byte>>
      reads this, Buffers()
    {
      map k | k in entries :: Entry(entries[k].value[..], entries[k].expires)
    }

    constructor ()
      ensures Contents() == map[] && Buffers() == {}
    {
      entries := map[];
    }

    method Save(key: string, value: array<Byte>, ttl: int, now: int)
      modifies this
      ensures Contents() == TtlMap.Save(old(Contents()), key, value[..], ttl, now)
      ensures fresh(Buffers() - old(Buffers()))
    {
      var cp := Copied(value);
      var slot := new Slot(cp, now + ttl);
      entries := entries[key := slot];
    }

    method Load(key: string, now: int) returns (value: array?<Byte>)
      ensures value == null <==> TtlMap.Load(Contents(), key, now) == None
      ensures value != null ==> fresh(value) && TtlMap.Load(Contents(), key, now) == Some(value[..])
    {
      if key !in entries || now > entries[key].expires {
        return null;
      }
      value := Copied(entries[key].value);
    }

    method Delete(key: string)
      modifies this
      ensures Contents() == TtlMap.Delete(old(Contents()), key)
      ensures Buffers() <= old(Buffers())
    {
      entries := entries - {key};
    }

    // One pass of the reaper at the tick read as now.
    method Sweep(now: int)
      modifies this
      ensures Contents() == TtlMap.Sweep(old(Contents()), now)
      ensures forall k :: k in Contents() <==> k in old(Contents()) && now <= old(Contents())[k].expires
      ensures Buffers() <= old(Buffers())
    {
      var pending := entries.Keys;
      while pending != {}
        invariant pending <= entries.Keys <= old(entries.Keys)
        invariant forall k :: k in entries ==> entries[k] == old(entries[k])
        invariant forall k :: k in old(entries) - pending ==>
                    (k in entries <==> now <= old(entries[k]).expires)
        decreases pending
      {
        var k :| k in pending;
        if now > entries[k].expires {
          entries := entries - {k};
        }
        pending := pending - {k};
      }
    }
  }

  // A later write to a buffer that was passed to Save changes nothing stored.
  method SavedBufferIsDetached(store: MemoryStore, key: string, buffer: array<Byte>,
                               ttl: int, now: int, i: nat, junk: Byte)
    requires buffer !in store.Buffers() && i < buffer.Length
    modifies store, buffer
    ensures store.Contents() == TtlMap.Save(old(store.Contents()), key, old(buffer[..]), ttl, now)
    ensures buffer[i] == junk
  {
    store.Save(key, buffer, ttl, now);
    ghost var saved := store.Contents();
    buffer[i] := junk;
    assert store.Contents() == saved;
  }

  // A write to a buffer that Load returned changes no later Load.
  method LoadedBufferIsDetached(store: MemoryStore, key: string, now: int, i: nat, junk: Byte)
    returns (buffer: array?<Byte>, again: array?<Byte>)
    ensures buffer != null && i < buffer.Length ==> buffer[i] == junk
    ensures again == null <==> TtlMap.Load(store.Contents(), key, now) == None
    ensures again != null ==> TtlMap.Load(store.Contents(), key, now) == Some(again[..])
    ensures store.Contents() == old(store.Contents())
  {
    buffer := store.Load(key, now);
    if buffer != null && i < buffer.Length {
      buffer[i] := junk;
    }
    assert store.Contents() == old(store.Contents());
    again := store.Load(key, now);
  }
}
