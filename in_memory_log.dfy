/**
 * InMemoryLog: the local log of a log unit run in memory, an address to
 * entry HashMap with no stream index.
 */
module InMemory {

  import opened Wrappers
  import opened Codec
  import opened LogEntry

  class InMemoryLog {

    var cache: map<int64, Entry>

    /** The map starts empty. */
    constructor ()
      ensures cache == map[]
    {
      cache := map[];
    }

    /** cache.put: the entry at address is replaced, every other address kept. */
    method BackendWrite(address: int64, entry: Entry)
      modifies this
      ensures cache == old(cache)[address := entry]
    {
      cache := cache[address := entry];
    }

    /** cache.get: the entry stored at address, or null if none is. */
    method BackendRead(address: int64) returns (r: Option<Entry>)
      ensures r.Some? <==> address in cache
      ensures r.Some? ==> r.value == cache[address]
    {
      if address in cache {
        r := Some(cache[address]);
      } else {
        r := None;
      }
    }

    /** No-op. */
    method InitializeLog()
      modifies this
      ensures cache == old(cache)
    {
    }

    /** No-op: the stream index is not kept. */
    method BackendStreamWrite(streamId: Uuid, entry: set<int64>)
      modifies this
      ensures cache == old(cache)
    {
    }

    /** A fresh, empty range set for any stream. */
    method BackendStreamRead(streamId: Uuid) returns (r: set<int64>)
      ensures r == {}
    {
      r := {};
    }
  }

  /** A backendWrite call. */
  datatype Write = Write(address: int64, entry: Entry)

  /** The map after a run of backendWrite calls from the empty map. */
  function Replay(ws: seq<Write>): map<int64, Entry> {
    if ws == [] then map[]
    else Replay(ws[..|ws| - 1])[ws[|ws| - 1].address := ws[|ws| - 1].entry]
  }

  /** The index of the last write to a in ws, if any. */
  function LastWriteTo(ws: seq<Write>, a: int64): (r: Option<nat>)
    ensures r.Some? ==>
      r.value < |ws| && ws[r.value].address == a && forall k :: r.value < k < |ws| ==> ws[k].address != a
    ensures r.None? ==> forall k :: 0 <= k < |ws| ==> ws[k].address != a
  {
    if ws == [] then None
    else if ws[|ws| - 1].address == a then Some(|ws| - 1)
    else LastWriteTo(ws[..|ws| - 1], a)
  }

  /**
   * Read after writes: after any run of backendWrite calls on a fresh log,
   * backendRead(a) gives the entry of the last write to a (a later write
   * replaces an earlier one), and null if a was never written.
   */
  lemma {:induction false} ReadGivesLastWrite(ws: seq<Write>, a: int64)
    ensures a in Replay(ws) <==> LastWriteTo(ws, a).Some?
    ensures a in Replay(ws) ==> Replay(ws)[a] == ws[LastWriteTo(ws, a).value].entry
  {
    if ws != [] {
      ReadGivesLastWrite(ws[..|ws| - 1], a);
      if ws[|ws| - 1].address != a {
        var p := LastWriteTo(ws[..|ws| - 1], a);
        if p.Some? {
          assert ws[..|ws| - 1][p.value] == ws[p.value];
        }
      }
    }
  }

  /** A stream read ignores every earlier stream write. */
  method StreamWriteThenRead(log: InMemoryLog, s: Uuid, t: Uuid, ranges: set<int64>) returns (r: set<int64>)
    modifies log
    ensures log.cache == old(log.cache) && r == {}
  {
    log.BackendStreamWrite(s, ranges);
    r := log.BackendStreamRead(t);
  }

  /** Writing then reading the same address gives the entry written, and
      the other addresses keep their entries. */
  method WriteThenRead(log: InMemoryLog, a: int64, e: Entry) returns (r: Option<Entry>)
    modifies log
    ensures r == Some(e)
    ensures forall b :: b != a ==> (b in log.cache <==> b in old(log.cache))
    ensures forall b :: b != a && b in log.cache ==> log.cache[b] == old(log.cache)[b]
  {
    log.BackendWrite(a, e);
    r := log.BackendRead(a);
  }
}
