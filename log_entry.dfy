/**
 * The values the log unit stores: 64-bit addresses, stream identifiers and
 * log-unit entries, with the cache's weigher.
 */
module LogEntry {

  import opened Wrappers
  import opened Codec

  /** java.util.UUID: two 64-bit halves. */
  datatype Uuid = Uuid(mostSigBits: int64, leastSigBits: int64)

  /**
   * A LogUnitEntry, as far as the log unit looks at it: the global address,
   * the payload buffer (null for a hole), the streams the metadata names,
   * whether it is a hole and whether it is already in the local log.
   */
  datatype Entry = Entry(
    address: int64,
    buffer: Option<seq<uint8>>,
    streams: set<Uuid>,
    isHole: bool,
    isPersisted: bool)

  /** The entry a write request carries: a copy of its data buffer, not a
      hole, not yet persisted. */
  function WrittenEntry(address: int64, data: seq<uint8>, streams: set<Uuid>): (e: Entry)
    ensures e.address == address && e.buffer == Some(data) && e.streams == streams
    ensures !e.isHole && !e.isPersisted
  {
    Entry(address, Some(data), streams, false, false)
  }

  /** new LogUnitEntry(address): a hole, with no buffer and no streams. */
  function HoleEntry(address: int64): (e: Entry)
    ensures e.address == address && e.isHole && e.buffer.None? && e.streams == {}
  {
    Entry(address, None, {}, true, false)
  }

  /** The cache's weigher: 1 for an entry with no buffer, else the buffer's
      readable bytes; so only an entry with an empty buffer weighs nothing. */
  function Weight(e: Entry): (w: nat)
    ensures e.buffer.None? ==> w == 1
    ensures e.buffer.Some? ==> w == |e.buffer.value|
    ensures w == 0 <==> e.buffer == Some([])
  {
    match e.buffer
    case None => 1
    case Some(bytes) => |bytes|
  }

  /** A hole always weighs exactly 1. */
  lemma HoleWeight(address: int64)
    ensures Weight(HoleEntry(address)) == 1
  {
  }

  /** The addresses of a closed range lo..hi, as Utils.discretizeRange lists them. */
  function AddressRange(lo: int64, hi: int64): (r: set<int64>)
    ensures forall a: int64 :: a in r <==> lo <= a <= hi
    decreases hi as int - lo as int
  {
    if lo > hi then {} else if lo == hi then {lo} else {lo} + AddressRange(lo + 1, hi)
  }

  /** The union of several requested ranges. */
  function Union(ranges: seq<(int64, int64)>): (r: set<int64>)
    ensures forall a: int64 :: a in r <==> exists k :: 0 <= k < |ranges| && ranges[k].0 <= a <= ranges[k].1
  {
    if ranges == [] then {}
    else
      var last := ranges[|ranges| - 1];
      var r := Union(ranges[..|ranges| - 1]) + AddressRange(last.0, last.1);
      assert forall a: int64 :: a in r <==> exists k :: 0 <= k < |ranges| && ranges[k].0 <= a <= ranges[k].1 by {
        forall a: int64 ensures a in r <==> exists k :: 0 <= k < |ranges| && ranges[k].0 <= a <= ranges[k].1 {
          if a in Union(ranges[..|ranges| - 1]) {
            var k :| 0 <= k < |ranges| - 1 && ranges[..|ranges| - 1][k].0 <= a <= ranges[..|ranges| - 1][k].1;
            assert ranges[k] == ranges[..|ranges| - 1][k];
          }
          if exists k :: 0 <= k < |ranges| && ranges[k].0 <= a <= ranges[k].1 {
            var k :| 0 <= k < |ranges| && ranges[k].0 <= a <= ranges[k].1;
            if k < |ranges| - 1 {
              assert ranges[..|ranges| - 1][k] == ranges[k];
            }
          }
        }
      }
      r
  }
}
