/**
 * BaseServer: the handlers every Corfu server shares. SET_EPOCH moves the
 * router's server epoch forward, never back; PING answers PONG.
 */
module Base {

  import opened Codec

  /** The part of the server router these handlers read and write. */
  class ServerRouter {
    var serverEpoch: int64

    constructor (epoch: int64)
      ensures serverEpoch == epoch
    {
      serverEpoch := epoch;
    }
  }

  datatype Response = Pong | AckResponse | WrongEpoch(currentEpoch: int64)

  /** One SET_EPOCH against the current epoch: the epoch afterwards and the
      reply. Accepted, and the epoch moved to the request, exactly when the
      request is not older than the current epoch; otherwise rejected with
      the current epoch, which stays. */
  function SetEpochStep(current: int64, requested: int64): (r: (int64, Response))
    ensures requested >= current ==> r == (requested, AckResponse)
    ensures requested < current ==> r == (current, WrongEpoch(current))
    ensures r.0 >= current && r.0 >= requested
    ensures r.1 == AckResponse <==> r.0 == requested && requested >= current
  {
    if requested >= current then (requested, AckResponse) else (current, WrongEpoch(current))
  }

  /** SET_EPOCH on a router. */
  method SetEpoch(requested: int64, r: ServerRouter) returns (reply: Response)
    modifies r
    ensures (r.serverEpoch, reply) == SetEpochStep(old(r.serverEpoch), requested)
  {
    if requested >= r.serverEpoch {
      r.serverEpoch := requested;
      reply := AckResponse;
    } else {
      reply := WrongEpoch(r.serverEpoch);
    }
  }

  /** PING: PONG, whatever the router's state. */
  method Ping(r: ServerRouter) returns (reply: Response)
    ensures reply == Pong
  {
    reply := Pong;
  }

  /** reset: nothing to reset. */
  method Reset(r: ServerRouter)
    ensures r.serverEpoch == old(r.serverEpoch)
  {
  }

  /** The epoch after a run of SET_EPOCH requests. */
  function EpochAfter(current: int64, requests: seq<int64>): int64 {
    if requests == [] then current
    else SetEpochStep(EpochAfter(current, requests[..|requests| - 1]), requests[|requests| - 1]).0
  }

  /** Over any run of SET_EPOCH requests the epoch never goes down, and it
      ends at the largest of the starting epoch and the requests. */
  lemma {:induction false} EpochNeverDecreases(current: int64, requests: seq<int64>)
    ensures EpochAfter(current, requests) >= current
    ensures forall k :: 0 <= k < |requests| ==> EpochAfter(current, requests) >= requests[k]
    ensures EpochAfter(current, requests) == current
      || exists k :: 0 <= k < |requests| && EpochAfter(current, requests) == requests[k]
  {
    if requests != [] {
      var init := requests[..|requests| - 1];
      EpochNeverDecreases(current, init);
      forall k | 0 <= k < |requests| - 1 ensures requests[k] == init[k] { }
      var before := EpochAfter(current, init);
      if before != current && EpochAfter(current, requests) == before {
        var k :| 0 <= k < |init| && before == init[k];
        assert requests[k] == init[k];
      }
    }
  }

  /** Re-sending the current epoch is accepted and changes nothing. */
  lemma ResendIsNoOp(current: int64)
    ensures SetEpochStep(current, current) == (current, AckResponse)
  {
  }

  /** A rejected request leaves the epoch as it was, whatever follows it. */
  lemma RejectedThenReplayed(current: int64, stale: int64, requests: seq<int64>)
    requires stale < current
    ensures EpochAfter(current, [stale] + requests) == EpochAfter(current, requests)
    decreases |requests|
  {
    if requests != [] {
      var init := requests[..|requests| - 1];
      assert ([stale] + requests)[..|requests|] == [stale] + init;
      RejectedThenReplayed(current, stale, init);
    } else {
      assert EpochAfter(current, [stale]) == SetEpochStep(EpochAfter(current, []), stale).0;
    }
  }
}
