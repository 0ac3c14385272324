/** The per-context session cache (store/sessioncache.go) in front of the session store, and the two
    paths of LoadSession and StoreSession (store/signal.go:85-120). */
module SessionCache {
  import opened Bytes

  /** Session records and their serialised form; blank is the empty record of an unknown address. */
  datatype Serializer<!Record> = Serializer(
    serialize: Record -> Bytes, deserialize: Bytes -> Option<Record>, blank: Record)

  /** A record that was serialised deserialises to itself. */
  ghost predicate Lawful<Record(!new)>(ser: Serializer<Record>) {
    forall r :: ser.deserialize(ser.serialize(r)) == Some(r)
  }

  type Store = map<Bytes, Bytes>

  datatype Entry<Record> = Entry(dirty: bool, found: bool, record: Record)

  type Cache<Record> = map<Bytes, Entry<Record>>

  datatype LoadError = BadSession | StoreFailed

  // ----- The two paths

  /** LoadSession without a cache. */
  function PlainLoad<Record>(ser: Serializer<Record>, store: Store, address: Bytes): Result<Record, LoadError> {
    if address !in store then Ok(ser.blank)
    else
      var record := ser.deserialize(store[address]);
      if record.Some? then Ok(record.value) else Err(BadSession)
  }

  function PlainStore<Record>(ser: Serializer<Record>, store: Store, address: Bytes, record: Record): Store {
    store[address := ser.serialize(record)]
  }

  /** LoadSession with a cache: an address the cache lacks is read from the store. */
  function CachedLoad<Record>(ser: Serializer<Record>, store: Store, cache: Cache<Record>, address: Bytes)
    : Result<Record, LoadError>
  {
    if address in cache then Ok(cache[address].record) else PlainLoad(ser, store, address)
  }

  /** The cache WithCachedSessions fills; a session that does not deserialise is left out. */
  function Prefetched<Record>(ser: Serializer<Record>, store: Store, addresses: set<Bytes>): Cache<Record> {
    map a | a in addresses && PlainLoad(ser, store, a).Ok? :: Entry(false, a in store, PlainLoad(ser, store, a).value)
  }

  /** The rows to write back, with the addresses in `todo` left out. */
  function DirtySessions<Record>(ser: Serializer<Record>, cache: Cache<Record>, todo: set<Bytes>): Store {
    map a | a in cache && a !in todo && cache[a].dirty :: ser.serialize(cache[a].record)
  }

  /** The store PutCachedSessions leaves. */
  function Flushed<Record>(ser: Serializer<Record>, store: Store, cache: Cache<Record>): Store {
    store + DirtySessions(ser, cache, {})
  }

  // ----- Device

  class Device<Record> {
    const ser: Serializer<Record>
    var sessions: Store
    var cache: Option<Cache<Record>>

    constructor (ser: Serializer<Record>, sessions: Store)
      ensures this.ser == ser && this.sessions == sessions && cache == None
    {
      this.ser, this.sessions, cache := ser, sessions, None;
    }

    /** WithCachedSessions, reading the rows in any order. No addresses, no cache; and none when the store fails. */
    method WithCachedSessions(addresses: seq<Bytes>, getFails: bool) returns (r: Result<map<Bytes, bool>, LoadError>)
      modifies this`cache
      ensures r.Ok? <==> addresses == [] || !getFails
      ensures r.Err? || addresses == [] ==> cache == old(cache)
      ensures addresses == [] ==> r == Ok(map[])
      ensures addresses != [] && r.Ok? ==>
                var wanted := set a | a in addresses;
                && cache == Some(Prefetched(ser, sessions, wanted))
                && r.value == map a | a in Prefetched(ser, sessions, wanted) :: a in sessions
    {
      if |addresses| == 0 {
        return Ok(map[]);
      } else if getFails {
        return Err(StoreFailed);
      }
      var todo := set a | a in addresses;
      ghost var wanted := todo;
      var wrapped: Cache<Record> := map[];
      var existing: map<Bytes, bool> := map[];
      while todo != {}
        invariant todo <= wanted
        invariant wrapped == Prefetched(ser, sessions, wanted - todo)
        invariant existing == map a | a in wrapped :: a in sessions
        decreases todo
      {
        var address :| address in todo;
        ghost var left := todo - {address};
        assert wanted - left == (wanted - todo) + {address};
        PrefetchOne(ser, sessions, wanted - todo, address);
        todo := todo - {address};
        var record, found := ser.blank, false;
        if address in sessions {
          found := true;
          var parsed := ser.deserialize(sessions[address]);
          if parsed == None {
            continue;
          }
          record := parsed.value;
        }
        existing := existing[address := found];
        wrapped := wrapped[address := Entry(false, found, record)];
      }
      assert wanted - todo == wanted;
      cache := Some(wrapped);
      return Ok(existing);
    }

    method LoadSession(address: Bytes, getFails: bool) returns (r: Result<Record, LoadError>)
      ensures r == if getFails && (cache.None? || address !in cache.value) then Err(StoreFailed)
                   else if cache.Some? then CachedLoad(ser, sessions, cache.value, address)
                   else PlainLoad(ser, sessions, address)
    {
      if cache.Some? && address in cache.value {
        return Ok(cache.value[address].record);
      }
      if getFails {
        return Err(StoreFailed);
      }
      if address !in sessions {
        return Ok(ser.blank);
      }
      var record := ser.deserialize(sessions[address]);
      return if record.Some? then Ok(record.value) else Err(BadSession);
    }

    method StoreSession(address: Bytes, record: Record, putFails: bool) returns (ok: bool)
      modifies this
      ensures cache.Some? == old(cache).Some?
      ensures cache.Some? ==>
                ok && sessions == old(sessions) && cache.value == old(cache).value[address := Entry(true, true, record)]
      ensures cache.None? ==>
                && ok == !putFails
                && sessions == if ok then PlainStore(ser, old(sessions), address, record) else old(sessions)
    {
      if cache.Some? {
        cache := Some(cache.value[address := Entry(true, true, record)]);
        return true;
      } else if putFails {
        return false;
      }
      sessions := sessions[address := ser.serialize(record)];
      return true;
    }

    /** PutCachedSessions. When the store refuses the rows, nothing changes. */
    method PutCachedSessions(storeFails: bool) returns (ok: bool)
      modifies this
      ensures cache.Some? == old(cache).Some?
      ensures ok && cache.Some? ==> sessions == Flushed(ser, old(sessions), old(cache).value) && cache.value == map[]
      ensures !ok || cache.None? ==> sessions == old(sessions) && cache == old(cache)
      ensures !storeFails ==> ok
    {
      if cache.None? {
        return true;
      }
      var todo := cache.value.Keys;
      var dirtySessions: Store := map[];
      while todo != {}
        invariant cache == old(cache) && sessions == old(sessions) && cache.Some? && todo <= cache.value.Keys
        invariant dirtySessions == DirtySessions(ser, cache.value, todo)
        decreases todo
      {
        var address :| address in todo;
        DirtyOne(ser, cache.value, todo, address);
        todo := todo - {address};
        var item := cache.value[address];
        if item.dirty {
          dirtySessions := dirtySessions[address := ser.serialize(item.record)];
        }
      }
      if |dirtySessions| > 0 {
        if storeFails {
          return false;
        }
        sessions := sessions + dirtySessions;
      } else {
        NothingDirty(sessions, dirtySessions);
      }
      cache := Some(map[]);
      return true;
    }
  }

  lemma PrefetchOne<Record>(ser: Serializer<Record>, store: Store, addresses: set<Bytes>, address: Bytes)
    ensures Prefetched(ser, store, addresses + {address}) ==
            if PlainLoad(ser, store, address).Ok?
            then Prefetched(ser, store, addresses)
                   [address := Entry(false, address in store, PlainLoad(ser, store, address).value)]
            else Prefetched(ser, store, addresses)
  {
  }

  lemma DirtyOne<Record>(ser: Serializer<Record>, cache: Cache<Record>, todo: set<Bytes>, address: Bytes)
    requires address in cache && address in todo
    ensures DirtySessions(ser, cache, todo - {address}) ==
            if cache[address].dirty
            then DirtySessions(ser, cache, todo)[address := ser.serialize(cache[address].record)]
            else DirtySessions(ser, cache, todo)
  {
  }

  lemma NothingDirty(sessions: Store, dirty: Store)
    requires |dirty| == 0
    ensures sessions + dirty == sessions
  {
    assert dirty == map[];
  }

  // ----- Runs

  /** A flush that fails writes nothing and keeps the cache. */
  datatype Op<Record> = Load(address: Bytes) | Save(address: Bytes, record: Record) | Flush | FailedFlush

  datatype Plain<Record> = Plain(store: Store, loads: seq<Result<Record, LoadError>>)

  datatype Cached<Record> = Cached(store: Store, cache: Cache<Record>, loads: seq<Result<Record, LoadError>>)

  function PlainStep<Record>(ser: Serializer<Record>, s: Plain<Record>, op: Op<Record>): Plain<Record> {
    match op
    case Load(a) => s.(loads := s.loads + [PlainLoad(ser, s.store, a)])
    case Save(a, r) => s.(store := PlainStore(ser, s.store, a, r))
    case Flush | FailedFlush => s
  }

  function CachedStep<Record>(ser: Serializer<Record>, s: Cached<Record>, op: Op<Record>): Cached<Record> {
    match op
    case Load(a) => s.(loads := s.loads + [CachedLoad(ser, s.store, s.cache, a)])
    case Save(a, r) => s.(cache := s.cache[a := Entry(true, true, r)])
    case Flush => s.(store := Flushed(ser, s.store, s.cache), cache := map[])
    case FailedFlush => s
  }

  function RunPlain<Record>(ser: Serializer<Record>, s: Plain<Record>, ops: seq<Op<Record>>): Plain<Record> {
    if ops == [] then s else PlainStep(ser, RunPlain(ser, s, ops[..|ops| - 1]), ops[|ops| - 1])
  }

  function RunCached<Record>(ser: Serializer<Record>, s: Cached<Record>, ops: seq<Op<Record>>): Cached<Record> {
    if ops == [] then s else CachedStep(ser, RunCached(ser, s, ops[..|ops| - 1]), ops[|ops| - 1])
  }

  /** Writing the dirty entries back would give the plain store, and a clean entry is what a plain load of
      its address returns. */
  ghost predicate Refines<Record(!new)>(ser: Serializer<Record>, c: Cached<Record>, p: Plain<Record>) {
    && p.store == Flushed(ser, c.store, c.cache)
    && (forall a | a in c.cache && !c.cache[a].dirty :: PlainLoad(ser, c.store, a) == Ok(c.cache[a].record))
    && c.loads == p.loads
  }

  lemma FlushedLookup<Record>(ser: Serializer<Record>, store: Store, cache: Cache<Record>, a: Bytes)
    ensures Lookup(Flushed(ser, store, cache), a) ==
            if a in cache && cache[a].dirty then Some(ser.serialize(cache[a].record)) else Lookup(store, a)
  {
  }

  lemma LoadsAgree<Record(!new)>(ser: Serializer<Record>, store: Store, cache: Cache<Record>, a: Bytes)
    requires Lawful(ser)
    requires forall b | b in cache && !cache[b].dirty :: PlainLoad(ser, store, b) == Ok(cache[b].record)
    ensures CachedLoad(ser, store, cache, a) == PlainLoad(ser, Flushed(ser, store, cache), a)
  {
    FlushedLookup(ser, store, cache, a);
    if a in cache && cache[a].dirty {
      assert ser.deserialize(ser.serialize(cache[a].record)) == Some(cache[a].record);
    }
  }

  lemma StepRefines<Record(!new)>(ser: Serializer<Record>, c: Cached<Record>, p: Plain<Record>, op: Op<Record>)
    requires Lawful(ser) && Refines(ser, c, p)
    ensures Refines(ser, CachedStep(ser, c, op), PlainStep(ser, p, op))
  {
    match op
    case Load(a) =>
      LoadsAgree(ser, c.store, c.cache, a);
    case Save(a, r) =>
      FlushedSave(ser, c.store, c.cache, a, r);
    case Flush =>
      FlushedEmpty(ser, Flushed(ser, c.store, c.cache));
    case FailedFlush =>
  }

  lemma FlushedSave<Record>(ser: Serializer<Record>, store: Store, cache: Cache<Record>, a: Bytes, r: Record)
    ensures Flushed(ser, store, cache[a := Entry(true, true, r)]) == Flushed(ser, store, cache)[a := ser.serialize(r)]
  {
  }

  lemma FlushedEmpty<Record>(ser: Serializer<Record>, store: Store)
    ensures Flushed(ser, store, map[]) == store
  {
  }

  lemma {:induction false} RunRefines<Record(!new)>(ser: Serializer<Record>, c: Cached<Record>, p: Plain<Record>,
                                                    ops: seq<Op<Record>>)
    requires Lawful(ser) && Refines(ser, c, p)
    ensures Refines(ser, RunCached(ser, c, ops), RunPlain(ser, p, ops))
  {
    if ops != [] {
      var before := ops[..|ops| - 1];
      RunRefines(ser, c, p, before);
      StepRefines(ser, RunCached(ser, c, before), RunPlain(ser, p, before), ops[|ops| - 1]);
    }
  }

  /** Whatever was prefetched, found, missing or broken: from the same store, any sequence of loads, stores
      and flushes returns the same loads as the plain path, and a final flush leaves the same store. */
  lemma CacheRefinesStore<Record(!new)>(ser: Serializer<Record>, store: Store, addresses: set<Bytes>,
                                        ops: seq<Op<Record>>)
    requires Lawful(ser)
    ensures var c := RunCached(ser, Cached(store, Prefetched(ser, store, addresses), []), ops + [Flush]);
            var p := RunPlain(ser, Plain(store, []), ops + [Flush]);
            c.loads == p.loads && c.store == p.store && c.cache == map[]
  {
    var start := Cached(store, Prefetched(ser, store, addresses), []);
    assert Flushed(ser, store, start.cache) == store;
    RunRefines(ser, start, Plain(store, []), ops + [Flush]);
    var all := ops + [Flush];
    assert all[|all| - 1] == Flush;
    var c := RunCached(ser, start, all);
    assert c.cache == map[];
    assert Flushed(ser, c.store, c.cache) == c.store;
  }

  /** Without the final flush the store is the plain one exactly when no dirty entry would change it. */
  lemma UnflushedStore<Record(!new)>(ser: Serializer<Record>, store: Store, addresses: set<Bytes>, ops: seq<Op<Record>>)
    requires Lawful(ser)
    ensures var c := RunCached(ser, Cached(store, Prefetched(ser, store, addresses), []), ops);
            var p := RunPlain(ser, Plain(store, []), ops);
            c.store == p.store <==>
            forall a | a in c.cache && c.cache[a].dirty :: Lookup(c.store, a) == Some(ser.serialize(c.cache[a].record))
  {
    var start := Cached(store, Prefetched(ser, store, addresses), []);
    assert Flushed(ser, store, start.cache) == store;
    RunRefines(ser, start, Plain(store, []), ops);
    var c := RunCached(ser, start, ops);
    forall a ensures Lookup(Flushed(ser, c.store, c.cache), a) ==
                     if a in c.cache && c.cache[a].dirty then Some(ser.serialize(c.cache[a].record))
                     else Lookup(c.store, a) {
      FlushedLookup(ser, c.store, c.cache, a);
    }
    SameLookups(c.store, Flushed(ser, c.store, c.cache));
  }

  // ----- What is prefetched

  /** Every wanted address is cached, clean, unless its row does not deserialise; an entry tells whether there is a
      row, and holds the record in it or a blank one. */
  lemma PrefetchedIs<Record>(ser: Serializer<Record>, store: Store, addresses: set<Bytes>, a: Bytes)
    ensures Lookup(Prefetched(ser, store, addresses), a) ==
            if a !in addresses then None
            else if a !in store then Some(Entry(false, false, ser.blank))
            else if ser.deserialize(store[a]).None? then None
            else Some(Entry(false, true, ser.deserialize(store[a]).value))
  {
  }

  // ----- Loads see stores

  /** A load without a cache: a blank record for a row that is missing, else the record in the row. */
  lemma PlainLoads<Record>(ser: Serializer<Record>, store: Store, a: Bytes)
    ensures a !in store ==> PlainLoad(ser, store, a) == Ok(ser.blank)
    ensures a in store && ser.deserialize(store[a]).Some? ==>
              PlainLoad(ser, store, a) == Ok(ser.deserialize(store[a]).value)
    ensures a in store && ser.deserialize(store[a]).None? ==> PlainLoad(ser, store, a).Err?
  {
  }

  predicate NeverSaves<Record>(ops: seq<Op<Record>>, a: Bytes) {
    forall i | 0 <= i < |ops| :: !(ops[i].Save? && ops[i].address == a)
  }

  lemma {:induction false} RowStays<Record>(ser: Serializer<Record>, p: Plain<Record>, ops: seq<Op<Record>>, a: Bytes)
    requires NeverSaves(ops, a)
    ensures Lookup(RunPlain(ser, p, ops).store, a) == Lookup(p.store, a)
  {
    if ops != [] {
      RowStays(ser, p, ops[..|ops| - 1], a);
    }
  }

  lemma {:induction false} RunPlainTwice<Record>(ser: Serializer<Record>, p: Plain<Record>, ops: seq<Op<Record>>,
                                                 more: seq<Op<Record>>)
    ensures RunPlain(ser, p, ops + more) == RunPlain(ser, RunPlain(ser, p, ops), more)
  {
    if more == [] {
      assert ops + more == ops;
    } else {
      RunPlainTwice(ser, p, ops, more[..|more| - 1]);
      assert (ops + more)[..|ops + more| - 1] == ops + more[..|more| - 1];
    }
  }

  /** With a cache: a load after a store of the same address returns the stored record, whatever was prefetched and
      whatever is loaded, stored elsewhere and flushed in between. */
  lemma LoadsSeeStores<Record(!new)>(ser: Serializer<Record>, store: Store, addresses: set<Bytes>,
                                     before: seq<Op<Record>>, a: Bytes, r: Record, between: seq<Op<Record>>)
    requires Lawful(ser) && NeverSaves(between, a)
    ensures var ops := before + [Save(a, r)] + between + [Load(a)];
            var loads := RunCached(ser, Cached(store, Prefetched(ser, store, addresses), []), ops).loads;
            loads != [] && loads[|loads| - 1] == Ok(r)
  {
    var start, plain := Cached(store, Prefetched(ser, store, addresses), []), Plain(store, []);
    var ops, saved := before + [Save(a, r)] + between + [Load(a)], before + [Save(a, r)];
    assert Flushed(ser, store, start.cache) == store;
    RunRefines(ser, start, plain, ops);
    RunPlainTwice(ser, plain, saved, between);
    RowStays(ser, RunPlain(ser, plain, saved), between, a);
    assert saved[..|saved| - 1] == before && saved[|saved| - 1] == Save(a, r);
    assert ops[..|ops| - 1] == saved + between && ops[|ops| - 1] == Load(a);
    assert ser.deserialize(ser.serialize(r)) == Some(r);
    var p := RunPlain(ser, plain, saved + between);
    assert Lookup(p.store, a) == Some(ser.serialize(r));
    assert PlainLoad(ser, p.store, a) == Ok(r);
  }

  // ----- Records that are changed in place

  /** A cached record is handed out as a pointer: its holder may change it, stored or not. The plain path hands out
      a record of its own at every load. */
  datatype Use<Record> = Do(op: Op<Record>) | Change(address: Bytes, record: Record)

  function UseStep<Record>(ser: Serializer<Record>, s: Cached<Record>, use: Use<Record>): Cached<Record> {
    match use
    case Do(op) => CachedStep(ser, s, op)
    case Change(a, r) => if a in s.cache then s.(cache := s.cache[a := s.cache[a].(record := r)]) else s
  }

  function RunUses<Record>(ser: Serializer<Record>, s: Cached<Record>, uses: seq<Use<Record>>): Cached<Record> {
    if uses == [] then s else UseStep(ser, RunUses(ser, s, uses[..|uses| - 1]), uses[|uses| - 1])
  }

  /** What the plain path sees of them. */
  function Ops<Record>(uses: seq<Use<Record>>): seq<Op<Record>> {
    if uses == [] then []
    else
      var last := uses[|uses| - 1];
      Ops(uses[..|uses| - 1]) + if last.Do? then [last.op] else []
  }

  predicate Saves<Record>(use: Use<Record>, a: Bytes) {
    use.Do? && use.op.Save? && use.op.address == a
  }

  /** The record as its holder left it; None for an address that is not cached. */
  function Held<Record>(start: Cache<Record>, uses: seq<Use<Record>>, a: Bytes): Option<Record> {
    if uses == [] then if a in start then Some(start[a].record) else None
    else
      var before, last := Held(start, uses[..|uses| - 1], a), uses[|uses| - 1];
      if Saves(last, a) then Some(last.op.record)
      else if last.Change? && last.address == a && before.Some? then Some(last.record)
      else before
  }

  /** The record as it was stored or prefetched last. */
  function Stored<Record>(start: Cache<Record>, uses: seq<Use<Record>>, a: Bytes): Option<Record> {
    if uses == [] then if a in start then Some(start[a].record) else None
    else
      var before, last := Stored(start, uses[..|uses| - 1], a), uses[|uses| - 1];
      if Saves(last, a) then Some(last.op.record) else before
  }

  predicate EverSaved<Record>(uses: seq<Use<Record>>, a: Bytes) {
    uses != [] && (Saves(uses[|uses| - 1], a) || EverSaved(uses[..|uses| - 1], a))
  }

  predicate NoFlush<Record>(uses: seq<Use<Record>>) {
    forall i | 0 <= i < |uses| :: !(uses[i].Do? && uses[i].op.Flush?)
  }

  /** The holder stored its changes. */
  ghost predicate InSync<Record(!new)>(start: Cache<Record>, uses: seq<Use<Record>>, a: Bytes) {
    Held(start, uses, a) == Stored(start, uses, a)
  }

  ghost predicate LoadsInSync<Record(!new)>(start: Cache<Record>, uses: seq<Use<Record>>) {
    uses != [] ==>
      var before, last := uses[..|uses| - 1], uses[|uses| - 1];
      LoadsInSync(start, before) && (last.Do? && last.op.Load? ==> InSync(start, before, last.op.address))
  }

  /** Both paths at one address, after the uses. */
  ghost predicate FollowsAt<Record(!new)>(ser: Serializer<Record>, store: Store, start: Cache<Record>,
                                          uses: seq<Use<Record>>, cache: Cache<Record>, plain: Store, a: Bytes) {
    && (if a in cache then Held(start, uses, a) == Some(cache[a].record) else Held(start, uses, a) == None)
    && (a in cache && cache[a].dirty <==> EverSaved(uses, a))
    && (EverSaved(uses, a) ==> Stored(start, uses, a).Some?)
    && Lookup(plain, a) == if EverSaved(uses, a) then Some(ser.serialize(Stored(start, uses, a).value))
                           else Lookup(store, a)
  }

  ghost predicate Follows<Record(!new)>(ser: Serializer<Record>, store: Store, start: Cache<Record>,
                                        uses: seq<Use<Record>>, c: Cached<Record>, p: Plain<Record>) {
    c.store == store && forall a :: FollowsAt(ser, store, start, uses, c.cache, p.store, a)
  }

  lemma {:induction false} SameHolding<Record>(start: Cache<Record>, uses: seq<Use<Record>>, a: Bytes)
    ensures Held(start, uses, a).Some? <==> Stored(start, uses, a).Some?
    ensures !EverSaved(uses, a) ==>
              Stored(start, uses, a) == if a in start then Some(start[a].record) else None
  {
    if uses != [] {
      SameHolding(start, uses[..|uses| - 1], a);
    }
  }

  lemma {:induction false} UsesFollow<Record(!new)>(ser: Serializer<Record>, store: Store, start: Cache<Record>,
                                                    uses: seq<Use<Record>>)
    requires NoFlush(uses) && forall a | a in start :: !start[a].dirty
    ensures Follows(ser, store, start, uses, RunUses(ser, Cached(store, start, []), uses),
                    RunPlain(ser, Plain(store, []), Ops(uses)))
  {
    if uses != [] {
      var before, last := uses[..|uses| - 1], uses[|uses| - 1];
      UsesFollow(ser, store, start, before);
      OpsSnoc(ser, Plain(store, []), uses);
      UseFollows(ser, store, start, uses, RunUses(ser, Cached(store, start, []), before),
                 RunPlain(ser, Plain(store, []), Ops(before)));
    }
  }

  lemma OpsSnoc<Record>(ser: Serializer<Record>, p: Plain<Record>, uses: seq<Use<Record>>)
    requires uses != []
    ensures var before, last := uses[..|uses| - 1], uses[|uses| - 1];
            RunPlain(ser, p, Ops(uses)) ==
            if last.Do? then PlainStep(ser, RunPlain(ser, p, Ops(before)), last.op) else RunPlain(ser, p, Ops(before))
  {
    var before, last := uses[..|uses| - 1], uses[|uses| - 1];
    if last.Do? {
      assert Ops(uses)[..|Ops(uses)| - 1] == Ops(before);
    } else {
      assert Ops(uses) == Ops(before);
    }
  }

  lemma UseFollows<Record(!new)>(ser: Serializer<Record>, store: Store, start: Cache<Record>, uses: seq<Use<Record>>,
                                 c: Cached<Record>, p: Plain<Record>)
    requires uses != [] && !(uses[|uses| - 1].Do? && uses[|uses| - 1].op.Flush?)
    requires Follows(ser, store, start, uses[..|uses| - 1], c, p)
    ensures var last := uses[|uses| - 1];
            Follows(ser, store, start, uses, UseStep(ser, c, last), if last.Do? then PlainStep(ser, p, last.op) else p)
  {
    var before, last := uses[..|uses| - 1], uses[|uses| - 1];
    var c', p' := UseStep(ser, c, last), if last.Do? then PlainStep(ser, p, last.op) else p;
    forall a ensures FollowsAt(ser, store, start, uses, c'.cache, p'.store, a) {
      assert FollowsAt(ser, store, start, before, c.cache, p.store, a);
    }
  }

  /** A load agrees with the plain path exactly when the holder stored its changes. */
  lemma LoadAgrees<Record(!new)>(ser: Serializer<Record>, store: Store, addresses: set<Bytes>,
                                 uses: seq<Use<Record>>, a: Bytes)
    requires Lawful(ser) && NoFlush(uses)
    ensures var start := Prefetched(ser, store, addresses);
            var c, p := RunUses(ser, Cached(store, start, []), uses), RunPlain(ser, Plain(store, []), Ops(uses));
            CachedLoad(ser, c.store, c.cache, a) == PlainLoad(ser, p.store, a) <==> InSync(start, uses, a)
  {
    var start := Prefetched(ser, store, addresses);
    UsesFollow(ser, store, start, uses);
    SameHolding(start, uses, a);
    var c, p := RunUses(ser, Cached(store, start, []), uses), RunPlain(ser, Plain(store, []), Ops(uses));
    assert FollowsAt(ser, store, start, uses, c.cache, p.store, a);
    if EverSaved(uses, a) {
      var r := Stored(start, uses, a).value;
      assert Lookup(p.store, a) == Some(ser.serialize(r)) && ser.deserialize(ser.serialize(r)) == Some(r);
      assert PlainLoad(ser, p.store, a) == Ok(r);
    } else {
      assert Lookup(p.store, a) == Lookup(store, a);
      assert PlainLoad(ser, p.store, a) == PlainLoad(ser, store, a);
    }
  }

  lemma {:induction false} AllLoadsAgree<Record(!new)>(ser: Serializer<Record>, store: Store, addresses: set<Bytes>,
                                                       uses: seq<Use<Record>>)
    requires Lawful(ser) && NoFlush(uses)
    ensures var start := Prefetched(ser, store, addresses);
            var c, p := RunUses(ser, Cached(store, start, []), uses), RunPlain(ser, Plain(store, []), Ops(uses));
            |c.loads| == |p.loads| && (c.loads == p.loads <==> LoadsInSync(start, uses))
  {
    if uses != [] {
      var before, last := uses[..|uses| - 1], uses[|uses| - 1];
      AllLoadsAgree(ser, store, addresses, before);
      OpsSnoc(ser, Plain(store, []), uses);
      if last.Do? && last.op.Load? {
        var start, a := Prefetched(ser, store, addresses), last.op.address;
        var c, p := RunUses(ser, Cached(store, start, []), before), RunPlain(ser, Plain(store, []), Ops(before));
        LoadAgrees(ser, store, addresses, before, a);
        AppendedEqual(c.loads, p.loads, CachedLoad(ser, c.store, c.cache, a), PlainLoad(ser, p.store, a));
      }
    }
  }

  lemma AppendedEqual<T>(s: seq<T>, t: seq<T>, x: T, y: T)
    requires |s| == |t|
    ensures s + [x] == t + [y] <==> s == t && x == y
  {
    if s + [x] == t + [y] {
      assert s == (s + [x])[..|s|] && t == (t + [y])[..|s|];
      assert x == (s + [x])[|s|] && y == (t + [y])[|s|];
    }
  }

  /** Two records with one serialised form are one record. */
  lemma SerializesOnce<Record(!new)>(ser: Serializer<Record>, r: Record, r': Record)
    requires Lawful(ser)
    ensures ser.serialize(r) == ser.serialize(r') <==> r == r'
  {
    assert ser.deserialize(ser.serialize(r)) == Some(r) && ser.deserialize(ser.serialize(r')) == Some(r');
  }

  /** From a prefetch to its flush, with records changed in place at any time: every load and the final store are
      those of the plain path if and only if each load finds the changes of its record stored, and so does the
      flush for each record that was stored at all. */
  lemma ChangesMustBeStored<Record(!new)>(ser: Serializer<Record>, store: Store, addresses: set<Bytes>,
                                          uses: seq<Use<Record>>)
    requires Lawful(ser) && NoFlush(uses)
    ensures var start := Prefetched(ser, store, addresses);
            var c := RunUses(ser, Cached(store, start, []), uses);
            var p := RunPlain(ser, Plain(store, []), Ops(uses));
            c.loads == p.loads && Flushed(ser, c.store, c.cache) == p.store
            <==> LoadsInSync(start, uses) && forall a | EverSaved(uses, a) :: InSync(start, uses, a)
  {
    var start := Prefetched(ser, store, addresses);
    var c := RunUses(ser, Cached(store, start, []), uses);
    var p := RunPlain(ser, Plain(store, []), Ops(uses));
    AllLoadsAgree(ser, store, addresses, uses);
    UsesFollow(ser, store, start, uses);
    forall a ensures Lookup(Flushed(ser, c.store, c.cache), a) == Lookup(p.store, a)
                     <==> (EverSaved(uses, a) ==> InSync(start, uses, a)) {
      FlushedLookup(ser, c.store, c.cache, a);
      SameHolding(start, uses, a);
      assert FollowsAt(ser, store, start, uses, c.cache, p.store, a);
      if EverSaved(uses, a) {
        SerializesOnce(ser, Held(start, uses, a).value, Stored(start, uses, a).value);
      }
    }
    SameLookups(Flushed(ser, c.store, c.cache), p.store);
  }
}
