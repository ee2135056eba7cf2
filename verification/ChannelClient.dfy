/** Asynchronous requests of lib/libipc/ChannelClient.cpp: request slots, identifiers and callbacks. */
module ChannelClients {
  import opened Basics

  const MAX_REQUESTS: nat := 32

  datatype Result = Success | NotFound | IOError | OutOfMemory

  /** `callback` identifies the registered callback. */
  datatype Request = Request(active: bool, pid: nat, identifier: nat, callback: nat)

  /** Who is waited for under an identifier, and what runs when the answer comes. */
  datatype Waiting = Waiting(pid: nat, callback: nat)

  function Outstanding(rs: seq<Request>): map<nat, Waiting> {
    map i: nat | i < |rs| && rs[i].active :: Waiting(rs[i].pid, rs[i].callback)
  }

  class ChannelClient {
    var requests: seq<Request>

    constructor ()
      ensures Valid() && Outstanding(requests) == map[]
    {
      requests := [];
      assert Outstanding([]) == map[];
    }

    /** Active requests carry the number of their slot as identifier, hence distinct ones. */
    ghost predicate Valid()
      reads this
    {
      |requests| <= MAX_REQUESTS
      && forall i :: 0 <= i < |requests| && requests[i].active ==> requests[i].identifier == i
    }

    /** The first inactive slot, or the number of slots. */
    method FindSlot() returns (i: nat)
      ensures i <= |requests| && (i < |requests| ==> !requests[i].active)
      ensures i == |requests| ==> forall k :: 0 <= k < |requests| ==> requests[k].active
    {
      i := 0;
      while i < |requests| && requests[i].active
        invariant i <= |requests| && forall k :: 0 <= k < i ==> requests[k].active
      {
        i := i + 1;
      }
    }

    /**
     `channel` is whether a producer for the process exists, `written` whether its
     ring took the message. Success registers the callback under an identifier
     that was not in use; every other result leaves the outstanding requests alone.
     */
    method SendRequest(pid: nat, callback: nat, channel: bool, written: bool) returns (r: Result, identifier: nat)
      requires Valid()
      modifies this
      ensures Valid()
      ensures r == Success ==>
        && identifier !in Outstanding(old(requests))
        && Outstanding(requests) == Outstanding(old(requests))[identifier := Waiting(pid, callback)]
      ensures r != Success ==> Outstanding(requests) == Outstanding(old(requests))
      ensures r == NotFound <==> !channel
      ensures r == OutOfMemory <==> channel && |Outstanding(old(requests))| == 32
    {
      identifier := 0;
      AllActive(requests);
      if !channel {
        return NotFound, 0;
      }
      var slot := FindSlot();
      if slot == |requests| {
        if slot == MAX_REQUESTS {
          return OutOfMemory, 0;
        }
        requests := requests + [Request(false, 0, 0, 0)];
        assert Outstanding(requests) == Outstanding(old(requests));
      }
      identifier := slot;
      requests := requests[slot := Request(true, pid, identifier, callback)];
      assert Outstanding(requests) == Outstanding(old(requests))[identifier := Waiting(pid, callback)];
      if !written {
        requests := requests[slot := requests[slot].(active := false)];
        assert Outstanding(requests) == Outstanding(old(requests));
        return IOError, identifier;
      }
      r := Success;
    }

    /** A response runs exactly the callback registered for its process and identifier, once; any other finds nothing. */
    method ProcessResponse(pid: nat, identifier: nat) returns (ran: Option<nat>)
      requires Valid()
      modifies this
      ensures Valid()
      ensures
        var before := Outstanding(old(requests));
        if identifier in before && before[identifier].pid == pid then
          ran == Some(before[identifier].callback) && Outstanding(requests) == before - {identifier}
        else
          ran == None && Outstanding(requests) == before
    {
      for i := 0 to |requests|
        invariant requests == old(requests)
        invariant forall k :: 0 <= k < i ==>
          !(requests[k].active && requests[k].pid == pid && requests[k].identifier == identifier)
      {
        var req := requests[i];
        if req.active && req.pid == pid && req.identifier == identifier {
          ran := Some(req.callback);
          requests := requests[i := req.(active := false)];
          assert Outstanding(requests) == Outstanding(old(requests)) - {identifier};
          return;
        }
      }
      ran := None;
    }
  }

  /** As many requests are outstanding as there are slots exactly when every slot is active. */
  lemma AllActive(rs: seq<Request>)
    ensures |Outstanding(rs)| <= |rs|
    ensures |Outstanding(rs)| == |rs| <==> forall k :: 0 <= k < |rs| ==> rs[k].active
  {
    var keys := Outstanding(rs).Keys;
    SubsetSize(keys, Below(|rs|));
    if k: nat :| k < |rs| && !rs[k].active {
      assert k !in keys && k in Below(|rs|);
    } else {
      assert keys == Below(|rs|);
    }
  }

  // ------------------------------------------------------------ page placement

  /** Offset of the producer's pages in the share, for process `self` talking to `peer`. */
  function ProducerOffset(self: nat, peer: nat): nat {
    if self < peer then 0 else 2 * PAGESIZE
  }

  function ConsumerOffset(self: nat, peer: nat): nat {
    if self < peer then 2 * PAGESIZE else 0
  }

  /**
   Connecting and accepting side agree on both directions exactly when they are two different
   processes; each direction has two pages of its own, the lower process ID writes to the first two.
   */
  lemma PlacementAgreesExactly(a: nat, b: nat)
    ensures ProducerOffset(a, b) == ConsumerOffset(b, a) && ConsumerOffset(a, b) == ProducerOffset(b, a) <==> a != b
    ensures a < b ==> ProducerOffset(a, b) == 0 && ProducerOffset(b, a) == 0x2000
    ensures {ProducerOffset(a, b), ConsumerOffset(a, b)} == {0, 0x2000}
  {
  }
}
