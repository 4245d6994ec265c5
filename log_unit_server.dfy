/**
 * LogUnitServer: the request handlers of a log unit. Every read and write
 * goes through dataCache, an address-keyed loading cache whose loader reads
 * the local log and whose writer hook refuses overwrites and persists new
 * entries; trimMap holds each stream's trim watermark, which the garbage
 * collection pass compares with the streams of every cached entry.
 */
module LogUnit {

  import opened Wrappers
  import opened Codec
  import opened LogEntry
  import opened InMemory
  import opened SortedKeys

  // ---------------------------------------------------------------------
  // The cache over the local log
  // ---------------------------------------------------------------------

  /** What an address reads as through the cache: its cached entry, else
      the local log's entry, else nothing. */
  function View(cache: map<int64, Entry>, backend: map<int64, Entry>, a: int64): Option<Entry> {
    if a in cache then Some(cache[a]) else if a in backend then Some(backend[a]) else None
  }

  /** The cache after LoadingCache.get(a): a miss is loaded from the local
      log when it has the address. Loading changes what no address reads as. */
  function Loaded(cache: map<int64, Entry>, backend: map<int64, Entry>, a: int64): (r: map<int64, Entry>)
    ensures forall x :: View(r, backend, x) == View(cache, backend, x)
    ensures r.Keys == cache.Keys + (if a in backend then {a} else {})
  {
    if a in cache || a !in backend then cache else cache[a := backend[a]]
  }

  /** The cache after LoadingCache.getAll(keys). */
  function LoadedAll(cache: map<int64, Entry>, backend: map<int64, Entry>, keys: set<int64>): (r: map<int64, Entry>)
    ensures forall x :: View(r, backend, x) == View(cache, backend, x)
    ensures r.Keys == cache.Keys + (keys * backend.Keys)
  {
    map a | a in cache.Keys + (keys * backend.Keys) :: if a in cache then cache[a] else backend[a]
  }

  /** Loading the keys one at a time is loading them all at once. */
  lemma LoadedAllStep(cache: map<int64, Entry>, backend: map<int64, Entry>, keys: set<int64>, a: int64)
    ensures Loaded(LoadedAll(cache, backend, keys), backend, a) == LoadedAll(cache, backend, keys + {a})
  {
    var l := Loaded(LoadedAll(cache, backend, keys), backend, a);
    var r := LoadedAll(cache, backend, keys + {a});
    assert l.Keys == r.Keys;
    forall x | x in l.Keys ensures l[x] == r[x] {
      assert View(l, backend, x) == View(cache, backend, x) == View(r, backend, x);
    }
  }

  /** One more key looked up with get, from the cache getAll has loaded so far,
      extends both the loaded cache and the reply by that key. */
  lemma GetAllStep(cache0: map<int64, Entry>, backend: map<int64, Entry>, done: set<int64>, a: int64,
                   cache: map<int64, Entry>, reply: map<int64, Entry>, e: Option<Entry>)
    requires cache == LoadedAll(cache0, backend, done) && reply == RangeReply(cache0, backend, done)
    requires e == View(cache, backend, a)
    ensures Loaded(cache, backend, a) == LoadedAll(cache0, backend, done + {a})
    ensures (if e.Some? then reply[a := e.value] else reply) == RangeReply(cache0, backend, done + {a})
  {
    LoadedAllStep(cache0, backend, done, a);
    RangeReplyStep(cache0, backend, done, a);
  }

  /** getAll's result: every requested address that reads as an entry,
      mapped to that entry; nothing else. */
  function RangeReply(cache: map<int64, Entry>, backend: map<int64, Entry>, keys: set<int64>): (r: map<int64, Entry>)
    ensures r.Keys <= keys
    ensures forall a :: a in keys ==> (a in r <==> View(cache, backend, a).Some?)
    ensures forall a :: a in r ==> View(cache, backend, a) == Some(r[a])
  {
    map a | a in keys && View(cache, backend, a).Some? :: View(cache, backend, a).value
  }

  lemma RangeReplyStep(cache: map<int64, Entry>, backend: map<int64, Entry>, keys: set<int64>, a: int64)
    ensures RangeReply(cache, backend, keys + {a}) ==
      match View(cache, backend, a)
      case Some(e) => RangeReply(cache, backend, keys)[a := e]
      case None => RangeReply(cache, backend, keys)
  {
  }

  /** The cache after dataCache.get(a, x -> new LogUnitEntry(a)): a hole is
      computed only when the cache has nothing at a; the local log is not
      consulted, and an existing entry (data or hole) stays. */
  function Filled(cache: map<int64, Entry>, a: int64): (r: map<int64, Entry>)
    ensures a in r && r.Keys == cache.Keys + {a}
    ensures a in cache ==> r == cache
    ensures a !in cache ==> r[a] == HoleEntry(a) && forall x :: x in cache ==> r[x] == cache[x]
  {
    if a in cache then cache else cache[a := HoleEntry(a)]
  }

  /** Filling a hole twice is filling it once. */
  lemma FillHoleIdempotent(cache: map<int64, Entry>, a: int64)
    ensures Filled(Filled(cache, a), a) == Filled(cache, a)
  {
  }

  /** After a fill, the address reads as its old cached entry, or as the
      hole; an entry only the local log holds is shadowed by the hole. */
  lemma FillHoleReads(cache: map<int64, Entry>, backend: map<int64, Entry>, a: int64)
    ensures a in cache ==> View(Filled(cache, a), backend, a) == View(cache, backend, a)
    ensures a !in cache ==> View(Filled(cache, a), backend, a) == Some(HoleEntry(a))
    ensures forall x :: x != a ==> View(Filled(cache, a), backend, x) == View(cache, backend, x)
  {
  }

  // ---------------------------------------------------------------------
  // Responses
  // ---------------------------------------------------------------------

  datatype WriteMode = ReplexStream | OtherWriteMode
  datatype WriteResponse = ErrorOk | ErrorOverwrite
  datatype ReadResponse = Empty | FilledHole | Data(entry: Entry)
  datatype Ack = Ack

  /** A point read's classification of what the address reads as. */
  function Classify(e: Option<Entry>): (r: ReadResponse)
    ensures r.Empty? <==> e.None?
    ensures r.FilledHole? <==> e.Some? && e.value.isHole
    ensures r.Data? <==> e.Some? && !e.value.isHole
    ensures r.Data? ==> e == Some(r.entry)
  {
    match e
    case None => Empty
    case Some(x) => if x.isHole then FilledHole else Data(x)
  }

  // ---------------------------------------------------------------------
  // Trim watermarks and garbage collection
  // ---------------------------------------------------------------------

  /** trimMap.compute(s, (k, prev) -> prev == null ? p : max(prev, p)): the
      least watermark at least p and at least the old one; other streams keep theirs. */
  function Raised(m: map<Uuid, int64>, s: Uuid, p: int64): (r: map<Uuid, int64>)
    ensures r.Keys == m.Keys + {s}
    ensures r[s] >= p && (s in m ==> r[s] >= m[s])
    ensures r[s] == p || (s in m && r[s] == m[s])
    ensures forall u :: u in m && u != s ==> r[u] == m[u]
  {
    m[s := if s in m && m[s] > p then m[s] else p]
  }

  /** Raising the same watermark to the same prefix twice is raising it once. */
  lemma TrimIdempotent(m: map<Uuid, int64>, s: Uuid, p: int64)
    ensures Raised(Raised(m, s, p), s, p) == Raised(m, s, p)
  {
  }

  /** trimMap after a run of trim requests. */
  function TrimAll(m: map<Uuid, int64>, ts: seq<(Uuid, int64)>): map<Uuid, int64> {
    if ts == [] then m else Raised(TrimAll(m, ts[..|ts| - 1]), ts[|ts| - 1].0, ts[|ts| - 1].1)
  }

  /** Over any run of trims no watermark goes down, and each stream's
      watermark ends at least at every prefix it was trimmed to. */
  lemma {:induction false} TrimsNeverLower(m: map<Uuid, int64>, ts: seq<(Uuid, int64)>)
    ensures m.Keys <= TrimAll(m, ts).Keys
    ensures forall u :: u in m ==> m[u] <= TrimAll(m, ts)[u]
    ensures forall k :: 0 <= k < |ts| ==> ts[k].0 in TrimAll(m, ts) && ts[k].1 <= TrimAll(m, ts)[ts[k].0]
  {
    if ts != [] {
      var init := ts[..|ts| - 1];
      TrimsNeverLower(m, init);
      forall k | 0 <= k < |ts| - 1 ensures ts[k] == init[k] { }
    }
  }

  /** Every stream of the set has a watermark at or beyond the address. */
  predicate Covered(address: int64, streams: set<Uuid>, trimMap: map<Uuid, int64>) {
    forall s :: s in streams ==> s in trimMap && address <= trimMap[s]
  }

  /** An entry the garbage collector frees: it names at least one stream,
      and every stream it names has been trimmed to its address. */
  predicate Trimmable(address: int64, e: Entry, trimMap: map<Uuid, int64>) {
    e.streams != {} && Covered(address, e.streams, trimMap)
  }

  /** The cached addresses a collection pass counts as freed. */
  function TrimmableAddresses(cache: map<int64, Entry>, trimMap: map<Uuid, int64>): set<int64> {
    set a | a in cache && Trimmable(a, cache[a], trimMap)
  }

  /** Raising a watermark can only make more entries trimmable. */
  lemma TrimmableGrows(cache: map<int64, Entry>, m: map<Uuid, int64>, s: Uuid, p: int64)
    ensures TrimmableAddresses(cache, m) <= TrimmableAddresses(cache, Raised(m, s, p))
  {
  }

  /** The cache a collection pass evidently intends to leave: the trimmable
      entries removed, every other entry kept as it was. */
  function Collect(cache: map<int64, Entry>, trimMap: map<Uuid, int64>): (r: map<int64, Entry>)
    ensures r.Keys == cache.Keys - TrimmableAddresses(cache, trimMap)
    ensures forall a :: a in r ==> r[a] == cache[a]
    ensures forall a :: a in cache && cache[a].streams == {} ==> a in r
  {
    map a | a in cache && !Trimmable(a, cache[a], trimMap) :: cache[a]
  }

  /** The intended pass frees exactly as many entries as handleGC counts. */
  lemma CollectFrees(cache: map<int64, Entry>, trimMap: map<Uuid, int64>)
    ensures |cache| == |Collect(cache, trimMap)| + |TrimmableAddresses(cache, trimMap)|
  {
    var t := TrimmableAddresses(cache, trimMap);
    assert t <= cache.Keys;
    RemovedSize(cache.Keys, t);
  }

  /** Taking a subset out of a set takes its size off. */
  lemma RemovedSize(whole: set<int64>, part: set<int64>)
    requires part <= whole
    ensures |whole - part| + |part| == |whole|
  {
    assert whole == (whole - part) + part;
    assert (whole - part) * part == {};
  }

  /** A second intended pass with the same watermarks frees nothing more. */
  lemma CollectIdempotent(cache: map<int64, Entry>, trimMap: map<Uuid, int64>)
    ensures Collect(Collect(cache, trimMap), trimMap) == Collect(cache, trimMap)
  {
    var c := Collect(cache, trimMap);
    assert TrimmableAddresses(c, trimMap) == {};
  }

  /** The request's ranges, discretized and unioned into one address set. */
  method RequestedAddresses(ranges: seq<(int64, int64)>) returns (total: set<int64>)
    ensures total == Union(ranges)
  {
    total := {};
    for k := 0 to |ranges|
      invariant total == Union(ranges[..k])
    {
      assert ranges[..k + 1][..k] == ranges[..k];
      total := total + AddressRange(ranges[k].0, ranges[k].1);
    }
    assert ranges[..|ranges|] == ranges;
  }

  // ---------------------------------------------------------------------
  // The server
  // ---------------------------------------------------------------------

  class LogUnitServer {

    var dataCache: map<int64, Entry>
    var trimMap: map<Uuid, int64>
    const maxCacheSize: int64
    const localLog: InMemoryLog

    /** An in-memory log unit: an empty cache, no watermarks, an empty local log. */
    constructor (maxCacheSize: int64)
      ensures this.maxCacheSize == maxCacheSize
      ensures dataCache == map[] && trimMap == map[]
      ensures fresh(localLog) && localLog.cache == map[]
    {
      this.maxCacheSize := maxCacheSize;
      localLog := new InMemoryLog();
      dataCache := map[];
      trimMap := map[];
    }

    /** A new, empty cache and trim map; the local log keeps its entries. */
    method Reset()
      modifies this
      ensures dataCache == map[] && trimMap == map[]
    {
      dataCache := map[];
      trimMap := map[];
    }

    /** The cache loader: the local log's entry at the address, or null. */
    method HandleRetrieval(address: int64) returns (r: Option<Entry>)
      ensures r.Some? <==> address in localLog.cache
      ensures r.Some? ==> r.value == localLog.cache[address]
    {
      r := localLog.BackendRead(address);
    }

    /** dataCache.get: the cached entry, or the loader's, which is then cached. */
    method Get(address: int64) returns (r: Option<Entry>)
      modifies this
      ensures r == View(old(dataCache), localLog.cache, address)
      ensures dataCache == Loaded(old(dataCache), localLog.cache, address)
      ensures trimMap == old(trimMap)
    {
      if address in dataCache {
        r := Some(dataCache[address]);
      } else {
        r := HandleRetrieval(address);
        if r.Some? {
          dataCache := dataCache[address := r.value];
        }
      }
    }

    /** The cache writer's write hook: an overwrite if the cache (not the
        local log) already has the address; else the entry is persisted
        unless it is marked persisted already. */
    method CacheWriterWrite(address: int64, entry: Entry) returns (overwrite: bool)
      modifies localLog
      ensures overwrite <==> address in dataCache
      ensures localLog.cache ==
        if !overwrite && !entry.isPersisted then old(localLog.cache)[address := entry] else old(localLog.cache)
    {
      if address in dataCache {
        return true;
      }
      if !entry.isPersisted {
        localLog.BackendWrite(address, entry);
      }
      overwrite := false;
    }

    /** dataCache.put through the writer hook: false where the put throws. */
    method Put(address: int64, entry: Entry) returns (ok: bool)
      modifies this, localLog
      ensures ok <==> address !in old(dataCache)
      ensures dataCache == if ok then old(dataCache)[address := entry] else old(dataCache)
      ensures localLog.cache ==
        if ok && !entry.isPersisted then old(localLog.cache)[address := entry] else old(localLog.cache)
      ensures trimMap == old(trimMap)
    {
      var overwrite := CacheWriterWrite(address, entry);
      if overwrite {
        return false;
      }
      dataCache := dataCache[address := entry];
      ok := true;
    }

    /** WRITE: a REPLEX_STREAM write is acknowledged and not stored; any
        other write is put, ERROR_OK if the put succeeds and ERROR_OVERWRITE
        if the cache already had the address. */
    method Write(address: int64, data: seq<uint8>, streams: set<Uuid>, mode: WriteMode) returns (reply: WriteResponse)
      modifies this, localLog
      ensures mode == ReplexStream ==>
        reply == ErrorOk && dataCache == old(dataCache) && localLog.cache == old(localLog.cache)
      ensures mode != ReplexStream ==> (reply == ErrorOk <==> address !in old(dataCache))
      ensures mode != ReplexStream && reply == ErrorOk ==>
        var e := WrittenEntry(address, data, streams);
        dataCache == old(dataCache)[address := e] && localLog.cache == old(localLog.cache)[address := e]
      ensures reply == ErrorOverwrite ==> dataCache == old(dataCache) && localLog.cache == old(localLog.cache)
      ensures trimMap == old(trimMap)
    {
      var e := WrittenEntry(address, data, streams);
      if mode != ReplexStream {
        var ok := Put(address, e);
        reply := if ok then ErrorOk else ErrorOverwrite;
      } else {
        reply := ErrorOk;
      }
    }

    /** READ_REQUEST: EMPTY, FILLED_HOLE or the entry the address reads as. */
    method ReadNormal(address: int64) returns (r: ReadResponse)
      modifies this
      ensures r == Classify(View(old(dataCache), localLog.cache, address))
      ensures dataCache == Loaded(old(dataCache), localLog.cache, address)
      ensures trimMap == old(trimMap)
    {
      var e := Get(address);
      r := Classify(e);
    }

    /** READ_RANGE: the union of the requested ranges, looked up with one getAll. */
    method ReadRange(ranges: seq<(int64, int64)>) returns (reply: map<int64, Entry>)
      modifies this
      ensures reply == RangeReply(old(dataCache), localLog.cache, Union(ranges))
      ensures dataCache == LoadedAll(old(dataCache), localLog.cache, Union(ranges))
      ensures trimMap == old(trimMap)
    {
      var total := RequestedAddresses(ranges);
      reply := GetAll(total);
    }

    /** dataCache.getAll: each key looked up as get would, in no fixed order;
        the reply maps every key that reads as an entry to that entry, holes
        unclassified. */
    method GetAll(keys: set<int64>) returns (reply: map<int64, Entry>)
      modifies this
      ensures reply == RangeReply(old(dataCache), localLog.cache, keys)
      ensures dataCache == LoadedAll(old(dataCache), localLog.cache, keys)
      ensures trimMap == old(trimMap)
    {
      ghost var cache0 := dataCache;
      ghost var done: set<int64> := {};
      reply := map[];
      var todo := keys;
      while todo != {}
        invariant done <= keys
        invariant forall x :: x in todo <==> x in keys && x !in done
        invariant dataCache == LoadedAll(cache0, localLog.cache, done)
        invariant reply == RangeReply(cache0, localLog.cache, done)
        invariant trimMap == old(trimMap)
        decreases |todo|
      {
        var a :| a in todo;
        ghost var before, replied := dataCache, reply;
        var e := Get(a);
        GetAllStep(cache0, localLog.cache, done, a, before, replied, e);
        if e.Some? {
          reply := reply[a := e.value];
        }
        done, todo := done + {a}, todo - {a};
      }
      assert done == keys;
    }

    /** FILL_HOLE: a hole at the address unless the cache has an entry there. */
    method FillHole(address: int64) returns (ack: Ack)
      modifies this
      ensures dataCache == Filled(old(dataCache), address)
      ensures trimMap == old(trimMap)
    {
      if address !in dataCache {
        dataCache := dataCache[address := HoleEntry(address)];
      }
      ack := Ack;
    }

    /** TRIM: the stream's watermark raised to the prefix. */
    method Trim(stream: Uuid, prefix: int64) returns (ack: Ack)
      modifies this
      ensures trimMap == Raised(old(trimMap), stream, prefix)
      ensures dataCache == old(dataCache)
    {
      var mark := if stream in trimMap && trimMap[stream] > prefix then trimMap[stream] else prefix;
      trimMap := trimMap[stream := mark];
      ack := Ack;
    }

    /** The stream loop of handleGC: false at the first stream without a
        watermark or trimmed short of the address. */
    method IsTrimmable(address: int64, streams: set<Uuid>) returns (trimmable: bool)
      ensures trimmable <==> Covered(address, streams, trimMap)
    {
      trimmable := true;
      var todo := streams;
      while todo != {}
        invariant todo <= streams
        invariant Covered(address, streams - todo, trimMap)
        decreases |todo|
      {
        var s :| s in todo;
        if s !in trimMap || address > trimMap[s] {
          trimmable := false;
          return;
        }
        todo := todo - {s};
      }
      assert streams - todo == streams;
    }

    /** The body of handleGC's loop for one address: whether the entry
        there is counted as freed. An entry naming no stream is skipped.
        trimEntry calls dataCache.invalidate with the raw long address,
        which equals no LogAddress key, so no entry is removed. */
    method VisitAddress(address: int64) returns (counted: bool)
      ensures counted <==> address in TrimmableAddresses(dataCache, trimMap)
    {
      counted := false;
      if address in dataCache {
        var streams := dataCache[address].streams;
        if streams != {} {
          var trimmable := IsTrimmable(address, streams);
          if trimmable {
            // trimEntry(address, streams, buffer)
            counted := true;
          }
        }
      }
    }

    /** handleGC: every cached address in ascending order, counting the
        trimmable entries; the pass leaves the cache as it was. */
    method HandleGC() returns (done: bool, freedEntries: nat, ghost visited: seq<int64>)
      ensures done
      ensures freedEntries == |TrimmableAddresses(dataCache, trimMap)|
      ensures Increasing(visited) && Elems(visited) == dataCache.Keys
    {
      ghost var t := TrimmableAddresses(dataCache, trimMap);
      var addresses := SortedAddresses(dataCache.Keys);
      freedEntries := 0;
      for i := 0 to |addresses|
        invariant freedEntries == CountIn(addresses[..i], t)
      {
        var counted := VisitAddress(addresses[i]);
        CountInStep(addresses, i, t);
        if counted {
          freedEntries := freedEntries + 1;
        }
      }
      assert addresses[..|addresses|] == addresses;
      CountAll(addresses, t);
      done := true;
      visited := addresses;
    }

    /** The pass as evidently intended: the count handleGC reports, and the
        trimmable entries removed from the cache. */
    method HandleGCIntended() returns (done: bool, freedEntries: nat)
      modifies this
      ensures done
      ensures dataCache == Collect(old(dataCache), trimMap) && trimMap == old(trimMap)
      ensures freedEntries == |old(dataCache)| - |dataCache|
    {
      CollectFrees(dataCache, trimMap);
      ghost var visited;
      done, freedEntries, visited := HandleGC();
      dataCache := Collect(dataCache, trimMap);
    }
  }

  /** The entry at 5 names one stream trimmed to 10: handleGC counts it as
      freed, but trimEntry's invalidate(5L) matches no LogAddress key, so it
      stays in the cache; the intended pass removes it. */
  method TrimmedEntryStaysCached() returns (server: LogUnitServer, freedEntries: nat)
    ensures freedEntries == 1 && 5 in server.dataCache
    ensures 5 !in Collect(server.dataCache, server.trimMap)
  {
    var u := Uuid(1, 2);
    server := new LogUnitServer(0);
    server.dataCache := map[5 := WrittenEntry(5, [0x2a], {u})];
    server.trimMap := map[u := 10];
    assert Trimmable(5, server.dataCache[5], server.trimMap);
    assert TrimmableAddresses(server.dataCache, server.trimMap) == {5};
    var done;
    ghost var visited;
    done, freedEntries, visited := server.HandleGC();
  }

  /** A write to a fresh address, then a read of it, gives the data written. */
  method WriteThenRead(server: LogUnitServer, a: int64, data: seq<uint8>, streams: set<Uuid>) returns (w: WriteResponse, r: ReadResponse)
    requires a !in server.dataCache
    modifies server, server.localLog
    ensures w == ErrorOk && r == Data(WrittenEntry(a, data, streams))
  {
    w := server.Write(a, data, streams, OtherWriteMode);
    r := server.ReadNormal(a);
  }

  /** A second write to an address is refused and the first one's data stays. */
  method WriteTwiceThenRead(server: LogUnitServer, a: int64, d1: seq<uint8>, d2: seq<uint8>, streams: set<Uuid>)
    returns (w1: WriteResponse, w2: WriteResponse, r: ReadResponse)
    requires a !in server.dataCache
    modifies server, server.localLog
    ensures w1 == ErrorOk && w2 == ErrorOverwrite && r == Data(WrittenEntry(a, d1, streams))
  {
    w1 := server.Write(a, d1, streams, OtherWriteMode);
    w2 := server.Write(a, d2, streams, OtherWriteMode);
    r := server.ReadNormal(a);
  }
}
