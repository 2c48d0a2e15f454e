/** When a server may forget an RPC. Clients acknowledge completed RPCs; over
    a network that may lose, duplicate and reorder packets, no server frees an
    RPC because of that before its client has no more use for it. */
module Acks {
  import opened Wire
  import opened Peer
  import opened GapList
  import M = MessageIn

  type Addr = nat

  /** An RPC, named by its client's address and identifier. */
  datatype Rpc = Rpc(client: Addr, id: nat)

  /** A client waits for the response, or has got some bytes of it and lacks
      `remaining` of them. */
  datatype ClientState =
    | Waiting(server: Addr)
    | Receiving(server: Addr, length: nat, remaining: int, got: set<int>)

  /** `remaining` counts the bytes that the client has not got. */
  ghost predicate CountOk(c: ClientState) {
    c.Receiving? ==> c.remaining == |Range(0, c.length) - c.got|
  }

  /** The client has got the whole response. */
  ghost predicate HasAll(c: ClientState) {
    c.Receiving? && Range(0, c.length) <= c.got
  }

  lemma CountMeans(c: ClientState)
    requires CountOk(c)
    ensures c.Receiving? && c.remaining == 0 <==> HasAll(c)
  {
    if c.Receiving? { NoneLeft(Range(0, c.length), c.got); }
  }

  lemma NoneLeft(a: set<int>, b: set<int>)
    ensures |a - b| == 0 <==> a <= b
  {
    assert a <= b ==> a - b == {};
    assert forall x :: x in a && x !in b ==> x in a - b;
    assert |a - b| == 0 ==> a - b == {};
  }

  /** What bytes of the response that reach a client change. They are kept
      exactly if there is `room`, they belong to the response, and all of them
      are new; the first packet decides about the length. */
  ghost predicate Absorbs(c: ClientState, c': ClientState, length: nat, start: int, size: nat, room: bool) {
    var got := if c.Waiting? then {} else c.got;
    && c'.Receiving? && c'.server == c.server && c'.length == (if c.Waiting? then length else c.length)
    && c'.got == if room && 0 <= start && start + size <= c'.length && Range(start, start + size) !! got
                 then got + Range(start, start + size) else got
  }

  /** Bytes of the response reach the client. */
  method Keep(c: ClientState, length: nat, start: int, size: nat, room: bool) returns (c': ClientState)
    requires CountOk(c)
    ensures CountOk(c') && c'.Receiving? && Absorbs(c, c', length, start, size, room)
    ensures c.Receiving? && c.remaining == 0 ==> c'.remaining == 0
  {
    hide Range;
    c' := c;
    if c.Waiting? {
      M.AllMissing(length);
      c' := Receiving(c.server, length, length, {});
    }
    if room && 0 <= start && start + size <= c'.length && Range(start, start + size) !! c'.got {
      M.StillMissing(c'.length, c'.got, start, start + size);
      c' := c'.(remaining := c'.remaining - size, got := c'.got + Range(start, start + size));
    }
    CountMeans(c);
    CountMeans(c');
  }

  datatype ServerState = Incoming | InService | Outgoing

  /** The server's side of an RPC. */
  datatype ServerRpc = ServerRpc(server: Addr, rpc: Rpc)

  /** Packets; `id` is the sender's identifier for the RPC. */
  datatype Packet =
    | Data(src: Addr, dst: Addr, id: nat, acks: seq<nat>)
    | Resend(src: Addr, dst: Addr, id: nat)
    | Unknown(src: Addr, dst: Addr, id: nat)
    | NeedAck(src: Addr, dst: Addr, id: nat)
    | Ack(src: Addr, dst: Addr, id: nat, acks: seq<nat>)

  /** The acks that a client owes to a server. */
  function Owed(pending: map<(Addr, Addr), seq<nat>>, host: Addr, peer: Addr): seq<nat> {
    if (host, peer) in pending then pending[(host, peer)] else []
  }

  /** The client's RPC has come to its end. */
  ghost predicate Ended(created: set<Rpc>, clients: map<Rpc, ClientState>, r: Rpc) {
    r in created && r !in clients
  }

  /** What a server frees because of acks. */
  ghost function AckedBy(server: Addr, client: Addr, ids: seq<nat>): set<ServerRpc> {
    set k | 0 <= k < |ids| :: ServerRpc(server, Rpc(client, ids[k]))
  }

  /** The client has received the whole response, or its RPC has ended. */
  ghost predicate Done(created: set<Rpc>, clients: map<Rpc, ClientState>, r: Rpc) {
    r in created && (r in clients ==> clients[r].Receiving? && clients[r].remaining == 0)
  }

  ghost predicate AllDone(created: set<Rpc>, clients: map<Rpc, ClientState>, client: Addr, ids: seq<nat>) {
    forall k :: 0 <= k < |ids| ==> Done(created, clients, Rpc(client, ids[k]))
  }

  /** What a packet tells about the RPC it belongs to. */
  ghost predicate PacketOk(created: set<Rpc>, clients: map<Rpc, ClientState>, p: Packet) {
    match p
    case Data(src, dst, id, acks) =>
      && (if IsClient(id) then Rpc(src, id) in created else Rpc(dst, LocalId(id)) in created)
      && AllDone(created, clients, src, acks)
    case Resend(src, dst, id) => !IsClient(id) ==> Rpc(dst, LocalId(id)) in created
    case Unknown(src, dst, id) => IsClient(id) ==> Ended(created, clients, Rpc(src, id))
    case NeedAck(src, dst, id) => !IsClient(id) && Rpc(dst, LocalId(id)) in created
    case Ack(src, dst, id, acks) =>
      IsClient(id) && Done(created, clients, Rpc(src, id)) && AllDone(created, clients, src, acks)
  }

  /** The client's side only moves forward. */
  ghost predicate Forward(created: set<Rpc>, clients: map<Rpc, ClientState>,
                          created': set<Rpc>, clients': map<Rpc, ClientState>) {
    && created <= created'
    && forall r :: r in created && r in clients' ==>
         r in clients && (Done(created, clients, r) ==> Done(created', clients', r))
  }

  /** Packets keep telling the truth. */
  lemma PacketStays(created: set<Rpc>, clients: map<Rpc, ClientState>,
                    created': set<Rpc>, clients': map<Rpc, ClientState>, p: Packet)
    requires Forward(created, clients, created', clients') && PacketOk(created, clients, p)
    ensures PacketOk(created', clients', p)
  {
    DoneStays(created, clients, created', clients');
  }

  lemma DoneStays(created: set<Rpc>, clients: map<Rpc, ClientState>,
                  created': set<Rpc>, clients': map<Rpc, ClientState>)
    requires Forward(created, clients, created', clients')
    ensures forall r :: Done(created, clients, r) ==> Done(created', clients', r)
    ensures forall r :: Ended(created, clients, r) ==> Ended(created', clients', r)
  {
  }

  /** All that there is, at one point. */
  datatype State = State(
    created: set<Rpc>, clients: map<Rpc, ClientState>, servers: map<ServerRpc, ServerState>,
    pending: map<(Addr, Addr), seq<nat>>, net: set<Packet>, freed: set<ServerRpc>)

  /** What a packet that arrives does. */
  ghost predicate Reacts(v: State, p: Packet, length: nat, start: int, size: nat, room: bool, v': State) {
    match p
    case Data(src, dst, id, acks) =>
      if IsClient(id) then
        var s := ServerRpc(dst, Rpc(src, id));
        v'.servers == (if s in v.servers then v.servers else v.servers[s := Incoming]) - AckedBy(dst, src, acks)
      else
        var r := Rpc(dst, LocalId(id));
        if r !in v.clients then v'.clients == v.clients && v'.servers == v.servers else
          && r in v'.clients && v'.clients == v.clients[r := v'.clients[r]]
          && Absorbs(v.clients[r], v'.clients[r], length, start, size, room)
          && v'.servers == v.servers - AckedBy(dst, src, acks)
    case Resend(src, dst, id) =>
      !IsClient(id) ==>
        v'.net == v.net + if Rpc(dst, LocalId(id)) in v.clients then {} else {Unknown(dst, src, LocalId(id))}
    case Unknown(src, dst, id) =>
      IsClient(id) ==> v'.servers == v.servers - {ServerRpc(dst, Rpc(src, id))}
    case NeedAck(src, dst, id) =>
      var r := Rpc(dst, LocalId(id));
      v'.net == v.net +
        if r !in v.clients || HasAll(v.clients[r])
        then {Ack(dst, src, LocalId(id), Taken(Owed(v.pending, dst, src), HOMA_MAX_ACKS_PER_PKT))}
        else {}
    case Ack(src, dst, id, acks) =>
      v'.servers == v.servers - {ServerRpc(dst, Rpc(src, id))} - AckedBy(dst, src, acks)
  }

  /** What an event does. */
  ghost predicate Does(v: State, e: Event, v': State) {
    match e
    case Start(r, server) =>
      IsClient(r.id) && r !in v.created ==>
        v'.created == v.created + {r} && v'.clients == v.clients[r := Waiting(server)]
    case Request(r) =>
      r in v.clients ==>
        var server := v.clients[r].server;
        v'.net == v.net + {Data(r.client, server, r.id, Taken(Owed(v.pending, r.client, server), 1))}
    case Receive(r, error) =>
      r in v.clients && (error || HasAll(v.clients[r])) ==>
        var server := v.clients[r].server;
        var (rest, packet, send) := Added(Owed(v.pending, r.client, server), r.id);
        && v'.clients == v.clients - {r} && v'.pending == v.pending[(r.client, server) := rest]
        && v'.net == v.net + if send then {Ack(r.client, server, r.id, packet)} else {}
    case ClientEnds(r) => v'.clients == v.clients - {r}
    case Serve(s) =>
      s in v.servers ==> v'.servers == v.servers[s := if v.servers[s].Incoming? then InService else Outgoing]
    case Respond(s) =>
      s in v.servers && v.servers[s].Outgoing? ==>
        v'.net == v.net + {Data(s.server, s.rpc.client, LocalId(s.rpc.id), Taken(Owed(v.pending, s.server, s.rpc.client), 1))}
    case Timer(s) =>
      s in v.servers && !v.servers[s].InService? ==>
        v'.net == v.net + {if v.servers[s].Outgoing? then NeedAck(s.server, s.rpc.client, LocalId(s.rpc.id))
                           else Resend(s.server, s.rpc.client, LocalId(s.rpc.id))}
    case ServerEnds(s) => v'.servers == v.servers - {s}
    case Packets(p, length, start, size, room) => p in v.net ==> Reacts(v, p, length, start, size, room, v')
  }

  /** Servers have only freed RPCs of which the client has the whole response,
      or which have ended. */
  ghost predicate FreedRightly(v: State) {
    forall s :: s in v.freed ==> s.rpc in v.created && (s.rpc in v.clients ==> HasAll(v.clients[s.rpc]))
  }

  class World {
    var created: set<Rpc>                        // all client RPCs that ever existed
    var clients: map<Rpc, ClientState>           // those that exist
    var servers: map<ServerRpc, ServerState>
    var pending: map<(Addr, Addr), seq<nat>>     // acks that a client owes to a server
    var net: set<Packet>                         // all packets ever sent
    var freed: set<ServerRpc>                    // freed because of ACK, piggybacked ack or UNKNOWN

    ghost predicate Inv()
      reads this
    {
      && (forall r :: r in clients ==> r in created && CountOk(clients[r]))
      && (forall r :: r in created ==> IsClient(r.id))
      && (forall s :: s in servers ==> s.rpc in created)
      && (forall k :: k in pending ==> AllDone(created, clients, k.0, pending[k]))
      && (forall p :: p in net ==> PacketOk(created, clients, p))
      && (forall s :: s in freed ==> Done(created, clients, s.rpc))
    }

    ghost function View(): State
      reads this
    {
      State(created, clients, servers, pending, net, freed)
    }

    constructor ()
      ensures Inv() && View() == State({}, map[], map[], map[], {}, {})
    {
      created, clients, servers, pending, net, freed := {}, map[], map[], map[], {}, {};
    }

    /** The client's side changes; everything else stays true. */
    method SetClients(created': set<Rpc>, clients': map<Rpc, ClientState>)
      requires Inv() && Forward(created, clients, created', clients')
      requires (forall r :: r in clients' ==> r in created' && CountOk(clients'[r])) && (forall r :: r in created' ==> IsClient(r.id))
      modifies this`created, this`clients
      ensures Inv() && created == created' && clients == clients'
    {
      DoneStays(created, clients, created', clients');
      forall p | p in net ensures PacketOk(created', clients', p) {
        PacketStays(created, clients, created', clients', p);
      }
      created, clients := created', clients';
    }

    method Send(p: Packet)
      requires Inv() && PacketOk(created, clients, p)
      modifies this`net
      ensures Inv() && net == old(net) + {p}
    {
      net := net + {p};
    }

    /** Takes acks out of what `host` owes to `peer`. */
    method GetAcks(host: Addr, peer: Addr, count: nat) returns (acks: seq<nat>)
      requires Inv()
      modifies this`pending
      ensures Inv() && AllDone(created, clients, host, acks)
      ensures acks == Taken(Owed(old(pending), host, peer), count)
      ensures Owed(pending, host, peer) == Kept(Owed(old(pending), host, peer), count)
      ensures forall h: Addr, p: Addr :: (h, p) != (host, peer) ==> Owed(pending, h, p) == Owed(old(pending), h, p)
    {
      hide PacketOk, Done;
      var k := (host, peer);
      if k !in pending {
        return [];
      }
      acks := Taken(pending[k], count);
      var rest := Kept(pending[k], count);
      SplitDone(created, clients, host, rest, acks);
      pending := pending[k := rest];
    }

    // ----- Client -----

    method NewClient(r: Rpc, server: Addr)
      requires Inv() && IsClient(r.id) && r !in created
      modifies this`created, this`clients
      ensures Inv() && created == old(created) + {r} && clients == old(clients)[r := Waiting(server)]
    {
      SetClients(created + {r}, clients[r := Waiting(server)]);
    }

    /** Sends a request, with an ack if one is owed. */
    method SendRequest(r: Rpc)
      requires Inv() && r in clients
      modifies this`pending, this`net
      ensures Inv()
      ensures var server := clients[r].server;
        net == old(net) + {Data(r.client, server, r.id, Taken(Owed(old(pending), r.client, server), 1))}
    {
      var acks := GetAcks(r.client, clients[r].server, 1);
      Send(Data(r.client, clients[r].server, r.id, acks));
    }

    /** A packet of the response arrives, with `size` bytes from `start`; the
        `length` is that of the first one. If the RPC does not exist, the
        packet is dropped with its ack. */
    method ResponseArrives(p: Packet, length: nat, start: int, size: nat, room: bool)
      requires Inv() && p in net && p.Data? && !IsClient(p.id)
      modifies this`created, this`clients, this`servers, this`freed
      ensures Inv() && created == old(created)
      ensures var r := Rpc(p.dst, LocalId(p.id));
        if r !in old(clients) then clients == old(clients) && servers == old(servers) else
          && r in clients && clients == old(clients)[r := clients[r]]
          && Absorbs(old(clients)[r], clients[r], length, start, size, room)
          && servers == old(servers) - AckedBy(p.dst, p.src, p.acks)
    {
      hide AllDone, CountOk, Absorbs;
      var r := Rpc(p.dst, LocalId(p.id));
      if r in clients {
        Progress(r, length, start, size, room);
        assert PacketOk(created, clients, p);
        AckAll(p.dst, p.src, p.acks);
      }
    }

    method Progress(r: Rpc, length: nat, start: int, size: nat, room: bool)
      requires Inv() && r in clients
      modifies this`created, this`clients
      ensures Inv() && created == old(created) && r in clients && clients == old(clients)[r := clients[r]]
      ensures Absorbs(old(clients)[r], clients[r], length, start, size, room)
    {
      hide AllDone, PacketOk, CountOk, Absorbs;
      var c := Keep(clients[r], length, start, size, room);
      SetClients(created, clients[r := c]);
    }

    /** The application gets the response or an error; the ack is recorded,
        and the RPC freed. */
    method RecvMsg(r: Rpc, error: bool)
      requires Inv() && r in clients && (error || (clients[r].Receiving? && clients[r].remaining == 0))
      modifies this`created, this`clients, this`pending, this`net
      ensures Inv() && created == old(created) && clients == old(clients) - {r}
      // The ack is recorded, or sent together with all others.
      ensures var server := old(clients)[r].server;
        var (rest, packet, send) := Added(Owed(old(pending), r.client, server), r.id);
        && pending == old(pending)[(r.client, server) := rest]
        && net == old(net) + if send then {Ack(r.client, server, r.id, packet)} else {}
    {
      hide PacketOk;
      var server := clients[r].server;
      var k := (r.client, server);
      var acks := if k in pending then pending[k] else [];
      SetClients(created, clients - {r});
      var (rest, packet, send) := Added(acks, r.id);
      AddDone(created, clients, r, acks);
      pending := pending[k := rest];
      if send {
        AckOk(created, clients, Ack(r.client, server, r.id, packet));
        Send(Ack(r.client, server, r.id, packet));
      }
    }

    /** The RPC is freed without an ack. */
    method EndClient(r: Rpc)
      requires Inv() && r in clients
      modifies this`created, this`clients
      ensures Inv() && created == old(created) && clients == old(clients) - {r}
    {
      SetClients(created, clients - {r});
    }

    /** RESEND for an RPC that is not known: answered with UNKNOWN. */
    method ResendAtClient(p: Packet)
      requires Inv() && p in net && p.Resend? && !IsClient(p.id)
      modifies this`net
      ensures Inv()
      ensures net == old(net) +
        if Rpc(p.dst, LocalId(p.id)) in clients then {} else {Unknown(p.dst, p.src, LocalId(p.id))}
    {
      var r := Rpc(p.dst, LocalId(p.id));
      if r !in clients {
        assert PacketOk(created, clients, p);
        Send(Unknown(p.dst, p.src, r.id));
      }
    }

    /** NEED_ACK is answered unless part of the response is missing. */
    method NeedAckAtClient(p: Packet)
      requires Inv() && p in net && p.NeedAck?
      modifies this`pending, this`net
      ensures Inv()
      ensures var r, acks := Rpc(p.dst, LocalId(p.id)), Owed(old(pending), p.dst, p.src);
        if r !in clients || HasAll(clients[r]) then
          && net == old(net) + {Ack(p.dst, p.src, LocalId(p.id), Taken(acks, HOMA_MAX_ACKS_PER_PKT))}
          && Owed(pending, p.dst, p.src) == Kept(acks, HOMA_MAX_ACKS_PER_PKT)
        else net == old(net) && pending == old(pending)
    {
      hide AllDone, CountOk, HasAll;
      assert PacketOk(created, clients, p);
      var r := Rpc(p.dst, LocalId(p.id));
      if r in clients { CountMeans(clients[r]); }
      if r in clients && (!clients[r].Receiving? || clients[r].remaining != 0) {
        return;
      }
      var acks := GetAcks(p.dst, p.src, HOMA_MAX_ACKS_PER_PKT);
      Send(Ack(p.dst, p.src, r.id, acks));
    }

    // ----- Server -----

    /** A packet of a request arrives; the first one creates the RPC. */
    method RequestArrives(p: Packet)
      requires Inv() && p in net && p.Data? && IsClient(p.id)
      modifies this`servers, this`freed
      ensures Inv()
      ensures var s := ServerRpc(p.dst, Rpc(p.src, p.id));
        servers == (if s in old(servers) then old(servers) else old(servers)[s := Incoming]) - AckedBy(p.dst, p.src, p.acks)
    {
      hide AllDone;
      assert PacketOk(created, clients, p);
      var s := ServerRpc(p.dst, Rpc(p.src, p.id));
      if s !in servers {
        servers := servers[s := Incoming];
      }
      AckAll(p.dst, p.src, p.acks);
    }

    /** The application takes the request, and later replies. */
    method Advance(s: ServerRpc)
      requires Inv() && s in servers
      modifies this`servers
      ensures Inv() && servers == old(servers)[s := if old(servers)[s].Incoming? then InService else Outgoing]
    {
      servers := servers[s := if servers[s].Incoming? then InService else Outgoing];
    }

    /** Sends (part of) the response, with an ack if the server's host owes one
        as a client. */
    method SendResponse(s: ServerRpc)
      requires Inv() && s in servers && servers[s].Outgoing?
      modifies this`pending, this`net
      ensures Inv()
      ensures net == old(net) +
        {Data(s.server, s.rpc.client, LocalId(s.rpc.id), Taken(Owed(old(pending), s.server, s.rpc.client), 1))}
    {
      hide AllDone;
      LocalIdInverts(s.rpc.id);
      var acks := GetAcks(s.server, s.rpc.client, 1);
      Send(Data(s.server, s.rpc.client, LocalId(s.rpc.id), acks));
    }

    /** The timer asks the client for more of the request, or for an ack. */
    method ServerTimer(s: ServerRpc)
      requires Inv() && s in servers && !servers[s].InService?
      modifies this`net
      ensures Inv()
      ensures net == old(net) + {if servers[s].Outgoing? then NeedAck(s.server, s.rpc.client, LocalId(s.rpc.id))
                                 else Resend(s.server, s.rpc.client, LocalId(s.rpc.id))}
    {
      LocalIdInverts(s.rpc.id);
      if servers[s].Outgoing? {
        Send(NeedAck(s.server, s.rpc.client, LocalId(s.rpc.id)));
      } else {
        Send(Resend(s.server, s.rpc.client, LocalId(s.rpc.id)));
      }
    }

    /** Frees an RPC that its client does not need any more. */
    method Acked(server: Addr, r: Rpc)
      requires Inv() && Done(created, clients, r)
      modifies this`servers, this`freed
      ensures Inv() && servers == old(servers) - {ServerRpc(server, r)}
      ensures freed == old(freed) + if ServerRpc(server, r) in old(servers) then {ServerRpc(server, r)} else {}
    {
      var s := ServerRpc(server, r);
      if s in servers {
        servers := servers - {s};
        freed := freed + {s};
      }
    }

    method AckAll(server: Addr, client: Addr, ids: seq<nat>)
      requires Inv() && AllDone(created, clients, client, ids)
      modifies this`servers, this`freed
      ensures Inv() && servers == old(servers) - AckedBy(server, client, ids)
      ensures freed == old(freed) + (AckedBy(server, client, ids) * old(servers).Keys)
    {
      assert ids[..0] == [] && old(servers) - {} == old(servers);
      for k := 0 to |ids|
        invariant Inv() && servers == old(servers) - AckedBy(server, client, ids[..k])
        invariant freed == old(freed) + (AckedBy(server, client, ids[..k]) * old(servers).Keys)
      {
        AckedMore(server, client, ids, k);
        Acked(server, Rpc(client, ids[k]));
      }
      assert ids[..|ids|] == ids;
    }

    method AckArrives(p: Packet)
      requires Inv() && p in net && p.Ack?
      modifies this`servers, this`freed
      ensures Inv()
      ensures servers == old(servers) - {ServerRpc(p.dst, Rpc(p.src, p.id))} - AckedBy(p.dst, p.src, p.acks)
    {
      hide AllDone;
      assert PacketOk(created, clients, p);
      Acked(p.dst, Rpc(p.src, p.id));
      AckAll(p.dst, p.src, p.acks);
    }

    method UnknownArrives(p: Packet)
      requires Inv() && p in net && p.Unknown? && IsClient(p.id)
      modifies this`servers, this`freed
      ensures Inv() && servers == old(servers) - {ServerRpc(p.dst, Rpc(p.src, p.id))}
    {
      assert PacketOk(created, clients, p);
      Acked(p.dst, Rpc(p.src, p.id));
    }

    /** The RPC is freed for another reason. */
    method EndServer(s: ServerRpc)
      requires Inv()
      modifies this`servers
      ensures Inv() && servers == old(servers) - {s}
    {
      servers := servers - {s};
    }

    // ----- Runs -----

    /** A packet that was sent arrives, perhaps not for the first time. */
    method Arrives(p: Packet, length: nat, start: int, size: nat, room: bool)
      requires Inv() && p in net
      modifies this
      ensures Inv()
      ensures Reacts(old(View()), p, length, start, size, room, View())
    {
      hide AllDone, PacketOk, Done, CountOk, HasAll, Absorbs, AckedBy;
      match p {
        case Data(_, _, id, _) =>
          if IsClient(id) { RequestArrives(p); } else { ResponseArrives(p, length, start, size, room); }
        case Resend(_, _, id) =>
          if !IsClient(id) { ResendAtClient(p); }
        case Unknown(_, _, id) =>
          if IsClient(id) { UnknownArrives(p); }
        case NeedAck(_, _, _) => NeedAckAtClient(p);
        case Ack(_, _, _, _) => AckArrives(p);
      }
    }

    /** One event, with what it changes. */
    method Handle(e: Event)
      requires Inv()
      modifies this
      ensures Inv()
      ensures Does(old(View()), e, View())
    {
      hide AllDone, PacketOk, Done, CountOk, HasAll, Absorbs, AckedBy, Taken, Added;
      if e.Receive? && e.r in clients { CountMeans(clients[e.r]); }
      match e {
        case Start(r, server) =>
          if IsClient(r.id) && r !in created { NewClient(r, server); }
        case Request(r) =>
          if r in clients { SendRequest(r); }
        case Receive(r, error) =>
          if r in clients && (error || (clients[r].Receiving? && clients[r].remaining == 0)) { RecvMsg(r, error); }
        case ClientEnds(r) =>
          if r in clients { EndClient(r); }
        case Serve(s) =>
          if s in servers { Advance(s); }
        case Respond(s) =>
          if s in servers && servers[s].Outgoing? { SendResponse(s); }
        case Timer(s) =>
          if s in servers && !servers[s].InService? { ServerTimer(s); }
        case ServerEnds(s) => EndServer(s);
        case Packets(p, length, start, size, room) =>
          if p in net { Arrives(p, length, start, size, room); }
      }
    }

    /** Every run, from the start: whenever a server has freed an RPC because
        of an ACK, a piggybacked ack or UNKNOWN, its client has received the
        whole response or has ended the RPC. */
    method Run(events: seq<Event>) returns (ghost trace: seq<State>)
      requires Inv()
      modifies this
      ensures Inv()
      ensures |trace| == |events| + 1 && trace[0] == old(View()) && trace[|events|] == View()
      ensures forall k :: 0 <= k <= |events| ==> FreedRightly(trace[k])
      ensures forall k :: 0 <= k < |events| ==> Does(trace[k], events[k], trace[k + 1])
    {
      hide Does, FreedRightly;
      trace := [View()];
      RightSoFar();
      for n := 0 to |events|
        invariant Inv()
        invariant |trace| == n + 1 && trace[0] == old(View()) && trace[n] == View()
        invariant forall k :: 0 <= k <= n ==> FreedRightly(trace[k])
        invariant forall k :: 0 <= k < n ==> Does(trace[k], events[k], trace[k + 1])
      {
        Handle(events[n]);
        RightSoFar();
        trace := trace + [View()];
      }
    }

    lemma RightSoFar()
      requires Inv()
      ensures FreedRightly(View())
    {
      hide AllDone, PacketOk, Done;
      forall s | s in freed ensures s.rpc in created && (s.rpc in clients ==> HasAll(clients[s.rpc])) {
        DoneMeans(created, clients, s.rpc);
      }
    }
  }

  datatype Event =
    | Start(r: Rpc, server: Addr)
    | Request(r: Rpc)
    | Receive(r: Rpc, error: bool)
    | ClientEnds(r: Rpc)
    | Serve(s: ServerRpc)
    | Respond(s: ServerRpc)
    | Timer(s: ServerRpc)
    | ServerEnds(s: ServerRpc)
    | Packets(p: Packet, length: nat, start: int, size: nat, room: bool)

  lemma DoneMeans(created: set<Rpc>, clients: map<Rpc, ClientState>, r: Rpc)
    requires Done(created, clients, r) && (r in clients ==> CountOk(clients[r]))
    ensures r in created && (r in clients ==> HasAll(clients[r]))
  {
    if r in clients { CountMeans(clients[r]); }
  }

  lemma AckedMore(server: Addr, client: Addr, ids: seq<nat>, k: nat)
    requires k < |ids|
    ensures AckedBy(server, client, ids[..k + 1]) ==
      AckedBy(server, client, ids[..k]) + {ServerRpc(server, Rpc(client, ids[k]))}
  {
    var a, b := ids[..k], ids[..k + 1];
    assert b[k] == ids[k] && forall j :: 0 <= j < k ==> b[j] == a[j];
  }

  lemma SplitDone(created: set<Rpc>, clients: map<Rpc, ClientState>, host: Addr, a: seq<nat>, b: seq<nat>)
    requires AllDone(created, clients, host, a + b)
    ensures AllDone(created, clients, host, a) && AllDone(created, clients, host, b)
  {
    forall k | 0 <= k < |a| ensures Done(created, clients, Rpc(host, a[k])) { assert (a + b)[k] == a[k]; }
    forall k | 0 <= k < |b| ensures Done(created, clients, Rpc(host, b[k])) { assert (a + b)[|a| + k] == b[k]; }
  }

  lemma AddDone(created: set<Rpc>, clients: map<Rpc, ClientState>, r: Rpc, acks: seq<nat>)
    requires AllDone(created, clients, r.client, acks) && Done(created, clients, r)
    ensures AllDone(created, clients, r.client, Added(acks, r.id).0)
    ensures AllDone(created, clients, r.client, Added(acks, r.id).1)
  {
  }

  lemma AckOk(created: set<Rpc>, clients: map<Rpc, ClientState>, p: Packet)
    requires p.Ack? && IsClient(p.id) && Done(created, clients, Rpc(p.src, p.id)) && AllDone(created, clients, p.src, p.acks)
    ensures PacketOk(created, clients, p)
  {
  }
}
