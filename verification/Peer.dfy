/** The acknowledgments that a client owes to a server. */
module Peer {

  const HOMA_MAX_ACKS_PER_PKT := 5

  /** Removes up to `count` acks from the end. */
  function Kept(acks: seq<nat>, count: nat): (rest: seq<nat>) {
    if count >= |acks| then [] else acks[..|acks| - count]
  }

  function Taken(acks: seq<nat>, count: nat): (taken: seq<nat>)
    ensures Kept(acks, count) + taken == acks && |taken| <= count
  {
    if count >= |acks| then acks else acks[|acks| - count..]
  }

  /** The list and the ACK packet after another RPC has been completed. A
      packet stands for the RPC itself, too. */
  function Added(acks: seq<nat>, id: nat): (r: (seq<nat>, seq<nat>, bool))
    ensures r.2 ==> r.0 == [] && r.1 == acks
    ensures !r.2 ==> r.0 == acks + [id] && |r.0| <= HOMA_MAX_ACKS_PER_PKT
  {
    if |acks| < HOMA_MAX_ACKS_PER_PKT then (acks + [id], [], false) else ([], acks, true)
  }

  class Peer {
    const acks: array<nat>
    var numAcks: nat

    ghost predicate Valid()
      reads this
    {
      acks.Length == HOMA_MAX_ACKS_PER_PKT && numAcks <= acks.Length
    }

    ghost function Pending(): seq<nat>
      requires Valid()
      reads this, acks
    {
      acks[..numAcks]
    }

    constructor ()
      ensures Valid() && Pending() == [] && fresh(acks)
    {
      acks := new nat[HOMA_MAX_ACKS_PER_PKT];
      numAcks := 0;
    }

    /** Adds an ack; if there is no room, an ACK packet with all others is to
        be sent at once. */
    method AddAck(id: nat) returns (send: bool, packet: seq<nat>)
      requires Valid()
      modifies this`numAcks, acks
      ensures Valid() && (Pending(), packet, send) == Added(old(Pending()), id)
    {
      if numAcks < HOMA_MAX_ACKS_PER_PKT {
        acks[numAcks] := id;
        numAcks := numAcks + 1;
        assert acks[..numAcks] == old(acks[..numAcks]) + [id];
        return false, [];
      }
      packet := acks[..numAcks];
      numAcks := 0;
      send := true;
    }

    /** Takes up to `count` acks out. */
    method GetAcks(count: nat) returns (dst: seq<nat>)
      requires Valid()
      modifies this`numAcks
      ensures Valid() && dst == Taken(old(Pending()), count) && Pending() == Kept(old(Pending()), count)
    {
      if numAcks == 0 {
        return [];
      }
      var n := count;
      if n > numAcks {
        n := numAcks;
      }
      dst := acks[numAcks - n..numAcks];
      numAcks := numAcks - n;
    }
  }
}
