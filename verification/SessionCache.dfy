/** The write-back cache of signal sessions carried by a context (store/sessioncache.go, store/signal.go). */
module SessionCache {
  import opened ByteStrings

  type Address = Bytes
  type Sessions = map<Address, Bytes>

  /** How records are turned into bytes and back; `parse` may refuse. */
  datatype Codec<!R> = Codec(serialize: R -> Bytes, parse: Bytes -> Option<R>, newSession: R)

  datatype Entry<R> = Entry(dirty: bool, found: bool, record: R)

  type Entries<R> = map<Address, Entry<R>>

  // ---- the two paths

  function FromRaw<R>(c: Codec<R>, raw: Option<Bytes>): Option<R> {
    if raw.None? then Some(c.newSession) else c.parse(raw.value)
  }

  function Lookup(store: Sessions, a: Address): Option<Bytes> {
    if a in store then Some(store[a]) else None
  }

  /** None when the stored bytes cannot be read. */
  function DirectLoad<R>(c: Codec<R>, store: Sessions, a: Address): Option<R> {
    FromRaw(c, Lookup(store, a))
  }

  /** No stored session is a new one; stored bytes are what they parse to. */
  lemma LoadsAre<R>(c: Codec<R>, store: Sessions, a: Address)
    ensures a !in store ==> DirectLoad(c, store, a) == Some(c.newSession)
    ensures a in store ==> DirectLoad(c, store, a) == c.parse(store[a])
  {}

  function CachedLoad<R>(c: Codec<R>, store: Sessions, entries: Entries<R>, a: Address): Option<R> {
    if a in entries then Some(entries[a].record) else DirectLoad(c, store, a)
  }

  /** Unreadable sessions are skipped. */
  function Prefetched<R>(c: Codec<R>, store: Sessions, addresses: set<Address>): Entries<R> {
    map a | a in addresses && DirectLoad(c, store, a).Some? :: Entry(false, a in store, DirectLoad(c, store, a).value)
  }

  function Dirty<R>(entries: Entries<R>): map<Address, R> {
    map a | a in entries && entries[a].dirty :: entries[a].record
  }

  function Serialized<R>(c: Codec<R>, records: map<Address, R>): Sessions {
    map a | a in records :: c.serialize(records[a])
  }

  function Flushed<R>(c: Codec<R>, store: Sessions, entries: Entries<R>): Sessions {
    store + Serialized(c, Dirty(entries))
  }

  /** A refused flush keeps the cache; without dirty entries there is nothing to refuse. */
  function AfterPut<R>(c: Codec<R>, store: Sessions, entries: Entries<R>, done: bool): (Sessions, Entries<R>) {
    if done || Dirty(entries).Keys == {} then (Flushed(c, store, entries), map[]) else (store, entries)
  }

  // ---- runs

  /** `done` is false when the database refuses the flush. */
  datatype Op<R> = Load(a: Address) | Store(a: Address, record: R) | PutCached(done: bool)

  datatype Direct<R> = Direct(loads: seq<Option<R>>, store: Sessions)
  datatype Cached<R> = Cached(loads: seq<Option<R>>, store: Sessions, entries: Entries<R>)

  function DirectRun<R>(c: Codec<R>, store: Sessions, ops: seq<Op<R>>): Direct<R>
    decreases ops
  {
    if ops == [] then Direct([], store)
    else
      match ops[0]
      case Load(a) =>
        var rest := DirectRun(c, store, ops[1..]);
        rest.(loads := [DirectLoad(c, store, a)] + rest.loads)
      case Store(a, r) => DirectRun(c, store[a := c.serialize(r)], ops[1..])
      case PutCached(_) => DirectRun(c, store, ops[1..])
  }

  function CachedRun<R>(c: Codec<R>, store: Sessions, entries: Entries<R>, ops: seq<Op<R>>): Cached<R>
    decreases ops
  {
    if ops == [] then Cached([], store, entries)
    else
      match ops[0]
      case Load(a) =>
        var rest := CachedRun(c, store, entries, ops[1..]);
        rest.(loads := [CachedLoad(c, store, entries, a)] + rest.loads)
      case Store(a, r) => CachedRun(c, store, entries[a := Entry(true, true, r)], ops[1..])
      case PutCached(done) =>
        var (store', entries') := AfterPut(c, store, entries, done);
        CachedRun(c, store', entries', ops[1..])
  }

  /** Every record loaded while it waits in the cache (`stored`) reads back as itself. */
  ghost predicate LoadsRoundTrip<R>(c: Codec<R>, stored: map<Address, R>, ops: seq<Op<R>>)
    decreases ops
  {
    ops == [] ||
    match ops[0]
    case Load(a) => (a in stored ==> c.parse(c.serialize(stored[a])) == Some(stored[a]))
        && LoadsRoundTrip(c, stored, ops[1..])
    case Store(a, r) => LoadsRoundTrip(c, stored[a := r], ops[1..])
    case PutCached(done) => LoadsRoundTrip(c, if done then map[] else stored, ops[1..])
  }

  /** Entries not written to hold what the store holds. */
  ghost predicate CleanEntriesCurrent<R>(c: Codec<R>, store: Sessions, entries: Entries<R>) {
    forall a | a in entries && !entries[a].dirty :: DirectLoad(c, store, a) == Some(entries[a].record)
  }

  /** From any cache whose clean entries are current, the cached path leaves the store of the uncached one once it is
      flushed, and returns the same records if and only if those it serves from unflushed writes round-trip. */
  lemma {:induction false} CachedRunMatches<R>(c: Codec<R>, store: Sessions, entries: Entries<R>, ops: seq<Op<R>>)
    requires CleanEntriesCurrent(c, store, entries)
    ensures
      var cached, direct := CachedRun(c, store, entries, ops), DirectRun(c, Flushed(c, store, entries), ops);
      && Flushed(c, cached.store, cached.entries) == direct.store
      && (cached.loads == direct.loads <==> LoadsRoundTrip(c, Dirty(entries), ops))
      && |cached.loads| == |direct.loads|
    decreases ops
  {
    hide Flushed, Dirty, CleanEntriesCurrent, DirectLoad, CachedLoad;
    if ops != [] {
      var rest := ops[1..];
      match ops[0] {
        case Load(a) =>
          assert a in Dirty(entries) ==> Dirty(entries)[a] == entries[a].record by { DirtyAt(entries, a); }
          CachedRunMatches(c, store, entries, rest);
          LoadMatches(c, store, entries, a);
          SameCons(CachedLoad(c, store, entries, a), CachedRun(c, store, entries, rest).loads,
                   DirectLoad(c, Flushed(c, store, entries), a), DirectRun(c, Flushed(c, store, entries), rest).loads);
        case Store(a, r) =>
          var next := entries[a := Entry(true, true, r)];
          StoreMatches(c, store, entries, a, r);
          CachedRunMatches(c, store, next, rest);
        case PutCached(done) =>
          var (store', entries') := AfterPut(c, store, entries, done);
          PutMatches(c, store, entries, done);
          CachedRunMatches(c, store', entries', rest);
      }
    }
  }

  lemma DirtyAt<R>(entries: Entries<R>, a: Address)
    ensures a in Dirty(entries) <==> a in entries && entries[a].dirty
    ensures a in Dirty(entries) ==> Dirty(entries)[a] == entries[a].record
  {}

  lemma EmptyCache<R>(c: Codec<R>, store: Sessions)
    ensures Dirty<R>(map[]) == map[] && Flushed<R>(c, store, map[]) == store
    ensures CleanEntriesCurrent<R>(c, store, map[])
  {
    assert Dirty<R>(map[]) == map[];
  }

  lemma PutMatches<R>(c: Codec<R>, store: Sessions, entries: Entries<R>, done: bool)
    requires CleanEntriesCurrent(c, store, entries)
    ensures
      var (store', entries') := AfterPut(c, store, entries, done);
      && CleanEntriesCurrent(c, store', entries') && Flushed(c, store', entries') == Flushed(c, store, entries)
      && Dirty(entries') == if done then map[] else Dirty(entries)
  {
    EmptyCache(c, Flushed(c, store, entries));
    assert Dirty(entries).Keys == {} ==> Dirty(entries) == map[];
    hide Dirty, Flushed, CleanEntriesCurrent;
  }

  lemma StoreMatches<R>(c: Codec<R>, store: Sessions, entries: Entries<R>, a: Address, r: R)
    requires CleanEntriesCurrent(c, store, entries)
    ensures
      var next := entries[a := Entry(true, true, r)];
      && Dirty(next) == Dirty(entries)[a := r]
      && Flushed(c, store, next) == Flushed(c, store, entries)[a := c.serialize(r)]
      && CleanEntriesCurrent(c, store, next)
  {
    hide DirectLoad, Serialized;
    var next := entries[a := Entry(true, true, r)];
    assert Dirty(next) == Dirty(entries)[a := r] by { hide CleanEntriesCurrent, Flushed; }
    assert CleanEntriesCurrent(c, store, next) by { hide Dirty, Flushed; }
    hide Dirty, CleanEntriesCurrent;
    SerializedStep(c, Dirty(entries), a, r);
  }

  lemma SerializedStep<R>(c: Codec<R>, records: map<Address, R>, a: Address, r: R)
    ensures Serialized(c, records[a := r]) == Serialized(c, records)[a := c.serialize(r)]
  {}

  lemma LoadMatches<R>(c: Codec<R>, store: Sessions, entries: Entries<R>, a: Address)
    requires CleanEntriesCurrent(c, store, entries)
    ensures CachedLoad(c, store, entries, a) == DirectLoad(c, Flushed(c, store, entries), a)
       <==> (a in Dirty(entries) ==> c.parse(c.serialize(entries[a].record)) == Some(entries[a].record))
  {}

  lemma SameCons<T>(x: T, xs: seq<T>, y: T, ys: seq<T>)
    requires |xs| == |ys|
    ensures [x] + xs == [y] + ys <==> x == y && xs == ys
  {
    assert ([x] + xs)[1..] == xs && ([y] + ys)[1..] == ys;
    assert ([x] + xs)[0] == x && ([y] + ys)[0] == y;
  }

  /** Prefetching, running and flushing leaves the store of the uncached path, whatever is prefetched; the loads agree
      exactly when the records served from the cache round-trip. */
  lemma CacheRefinesStore<R>(c: Codec<R>, store: Sessions, addresses: set<Address>, ops: seq<Op<R>>)
    ensures
      var cached, direct := CachedRun(c, store, Prefetched(c, store, addresses), ops + [PutCached(true)]),
          DirectRun(c, store, ops);
      && cached.store == direct.store && cached.entries == map[]
      && (cached.loads == direct.loads <==> LoadsRoundTrip(c, map[], ops))
  {
    var entries := Prefetched(c, store, addresses);
    assert Dirty(entries) == map[];
    assert Flushed(c, store, entries) == store;
    CachedRunMatches(c, store, entries, ops);
    PutLast(c, store, entries, ops);
  }

  lemma {:induction false} PutLast<R>(c: Codec<R>, store: Sessions, entries: Entries<R>, ops: seq<Op<R>>)
    ensures
      var run := CachedRun(c, store, entries, ops);
      CachedRun(c, store, entries, ops + [PutCached(true)])
          == Cached(run.loads, Flushed(c, run.store, run.entries), map[])
    decreases ops
  {
    if ops == [] {
      assert (ops + [PutCached(true)])[1..] == [];
      assert ops + [PutCached(true)] == [PutCached(true)];
    } else {
      assert (ops + [PutCached(true)])[1..] == ops[1..] + [PutCached(true)];
      match ops[0] {
        case Load(_) => PutLast(c, store, entries, ops[1..]);
        case Store(a, r) => PutLast(c, store, entries[a := Entry(true, true, r)], ops[1..]);
        case PutCached(done) =>
          var (store', entries') := AfterPut(c, store, entries, done);
          PutLast(c, store', entries', ops[1..]);
      }
    }
  }

  lemma NothingPrefetched<R>(c: Codec<R>, store: Sessions)
    ensures Prefetched(c, store, {}) == map[]
  {}

  lemma PrefetchStep<R>(c: Codec<R>, store: Sessions, done: set<Address>, a: Address)
    ensures
      var before, record := Prefetched(c, store, done), DirectLoad(c, store, a);
      Prefetched(c, store, done + {a})
      == if record.None? then before else before[a := Entry(false, a in store, record.value)]
  {}

  /** What is flushed of the entries at `done`. */
  ghost function DirtyIn<R>(c: Codec<R>, entries: Entries<R>, done: set<Address>): Sessions {
    map a | a in done && a in entries && entries[a].dirty :: c.serialize(entries[a].record)
  }

  lemma NothingDirty<R>(c: Codec<R>, entries: Entries<R>)
    ensures DirtyIn(c, entries, {}) == map[]
  {}

  lemma FlushStep<R>(c: Codec<R>, entries: Entries<R>, done: set<Address>, a: Address)
    requires a in entries
    ensures
      var before := DirtyIn(c, entries, done);
      DirtyIn(c, entries, done + {a})
      == if entries[a].dirty then before[a := c.serialize(entries[a].record)] else before
  {}

  lemma AllFlushed<R>(c: Codec<R>, entries: Entries<R>)
    ensures DirtyIn(c, entries, entries.Keys) == Serialized(c, Dirty(entries))
  {}

  lemma FlushedIs<R>(c: Codec<R>, store: Sessions, entries: Entries<R>, dirtySessions: Sessions)
    requires dirtySessions == Serialized(c, Dirty(entries))
    ensures Flushed(c, store, entries) == if |dirtySessions| > 0 then store + dirtySessions else store
    ensures |dirtySessions| == 0 <==> Dirty(entries).Keys == {}
  {
    hide Dirty;
    assert dirtySessions.Keys == Dirty(entries).Keys;
    hide Serialized;
    assert |dirtySessions| == 0 ==> store + dirtySessions == store;
  }

  // ---- the device

  class Cache<R> {
    var entries: Entries<R>

    constructor (entries: Entries<R>)
      ensures this.entries == entries
    {
      this.entries := entries;
    }
  }

  /** A null context carries no cache. `up` says whether the database answers the call. */
  class Device<R> {
    const codec: Codec<R>
    var sessions: Sessions

    constructor (codec: Codec<R>, sessions: Sessions)
      ensures this.codec == codec && this.sessions == sessions
    {
      this.codec, this.sessions := codec, sessions;
    }

    method GetManySessions(addresses: seq<Address>) returns (raw: map<Address, Option<Bytes>>)
      ensures raw.Keys == set a | a in addresses
      ensures forall a | a in raw :: raw[a] == Lookup(sessions, a)
    {
      raw := map[];
      for i := 0 to |addresses|
        invariant raw.Keys == set a | a in addresses[..i]
        invariant forall a | a in raw :: raw[a] == Lookup(sessions, a)
      {
        assert addresses[..i + 1] == addresses[..i] + [addresses[i]];
        raw := raw[addresses[i] := Lookup(sessions, addresses[i])];
      }
      assert addresses[..|addresses|] == addresses;
    }

    method WithCachedSessions(addresses: seq<Address>, up: bool)
      returns (ok: bool, existing: map<Address, bool>, ctx: Cache?<R>)
      ensures ok <==> addresses == [] || up
      ensures ctx != null <==> addresses != [] && up
      ensures ctx == null ==> existing == map[]
      ensures ctx != null ==>
        && fresh(ctx)
        && ctx.entries == Prefetched(codec, sessions, set a | a in addresses)
        && existing == map a | a in ctx.entries :: a in sessions
    {
      existing, ctx := map[], null;
      ok := |addresses| == 0 || up;
      if |addresses| == 0 || !up { return; }
      hide Prefetched;
      var raw := GetManySessions(addresses);
      var todo, wrapped: Entries<R> := raw.Keys, map[];
      ghost var done: set<Address> := {};
      NothingPrefetched(codec, sessions);
      while todo != {}
        invariant todo !! done && todo + done == raw.Keys
        invariant wrapped == Prefetched(codec, sessions, done)
        invariant existing == map a | a in wrapped :: a in sessions
        decreases todo
      {
        var a :| a in todo;
        PrefetchStep(codec, sessions, done, a);
        todo, done := todo - {a}, done + {a};
        var found := raw[a].Some?;
        var record := FromRaw(codec, raw[a]);
        if record.None? { continue; }
        existing := existing[a := found];
        wrapped := wrapped[a := Entry(false, found, record.value)];
      }
      ctx := new Cache(wrapped);
    }

    method LoadSession(ctx: Cache?<R>, address: Address, up: bool) returns (r: Option<R>)
      ensures r == if ctx != null && address in ctx.entries then Some(ctx.entries[address].record)
                   else if !up then None
                   else if address in sessions then codec.parse(sessions[address])
                   else Some(codec.newSession)
      ensures up ==> r == if ctx == null then DirectLoad(codec, sessions, address)
                          else CachedLoad(codec, sessions, ctx.entries, address)
    {
      if ctx != null && address in ctx.entries {
        return Some(ctx.entries[address].record);
      }
      if !up { return None; }
      r := FromRaw(codec, Lookup(sessions, address));
    }

    method StoreSession(ctx: Cache?<R>, address: Address, record: R, up: bool) returns (ok: bool)
      modifies this, ctx
      ensures ok <==> ctx != null || up
      ensures !ok ==> sessions == old(sessions)
      ensures ok && ctx == null ==> sessions == old(sessions)[address := codec.serialize(record)]
      ensures ctx != null ==>
        && sessions == old(sessions)
        && ctx.entries == old(ctx.entries)[address := Entry(true, true, record)]
    {
      if ctx != null {
        ctx.entries := ctx.entries[address := Entry(true, true, record)];
        return true;
      }
      if !up { return false; }
      sessions := sessions[address := codec.serialize(record)];
      return true;
    }

    /** What PutCachedSessions collects. */
    method DirtySessions(entries: Entries<R>) returns (dirtySessions: Sessions)
      ensures dirtySessions == Serialized(codec, Dirty(entries))
    {
      hide Dirty, Serialized, DirtyIn, DirectLoad;
      var todo := entries.Keys;
      dirtySessions := map[];
      ghost var done: set<Address> := {};
      NothingDirty(codec, entries);
      while todo != {}
        invariant todo !! done && todo + done == entries.Keys
        invariant dirtySessions == DirtyIn(codec, entries, done)
        decreases todo
      {
        var a :| a in todo;
        FlushStep(codec, entries, done, a);
        todo, done := todo - {a}, done + {a};
        if entries[a].dirty {
          dirtySessions := dirtySessions[a := codec.serialize(entries[a].record)];
        }
      }
      AllFlushed(codec, entries);
    }

    method PutCachedSessions(ctx: Cache?<R>, up: bool) returns (ok: bool)
      modifies this, ctx
      ensures ctx == null ==> ok && sessions == old(sessions)
      ensures ctx != null ==>
        && (ok <==> up || Dirty(old(ctx.entries)).Keys == {})
        && (sessions, ctx.entries) == AfterPut(codec, old(sessions), old(ctx.entries), up)
    {
      if ctx == null { return true; }
      hide Dirty, Serialized, Flushed;
      var dirtySessions := DirtySessions(ctx.entries);
      FlushedIs(codec, sessions, ctx.entries, dirtySessions);
      if |dirtySessions| > 0 {
        if !up { return false; }
        sessions := sessions + dirtySessions;
      }
      ctx.entries := map[];
      return true;
    }
  }
}
