/** The accept handler, the sessions it starts, and the two registries that are kept in step. */
module TcpManager {
  import opened Wire
  import opened Packet
  import opened Messages
  import opened Framing
  import opened TcpSession
  import opened Fragments
  import opened Reassembly
  import opened UdpRelay

  /** What doSend writes to a new client: its own address and port as the server sees them. */
  function Greeting(i: ClientInfo): seq<byte> {
    Frame(Encode(OnePacket(Server, FIRST_DATA, EncodeFirstData(FirstData(i.addr, i.port)))))
  }

  method Greet(i: ClientInfo) returns (bytes: seq<byte>)
    ensures bytes == Greeting(i)
  {
    var body := EncodeFirstData(FirstData(i.addr, i.port));
    bytes := Send(true, Server, FIRST_DATA, body);
  }

  // ---- The registries as a state machine ----

  /** A registered client: its address, what its session has read, and whether its stream has ended. */
  datatype Conn = Conn(info: ClientInfo, progress: Progress, ended: bool)

  datatype Registry = Registry(next: u32, conns: map<u32, Conn>)

  datatype TcpEvent = Accepted(remote: Option<ClientInfo>) | Arrived(id: u32, segment: seq<byte>) | Ended(id: u32)

  predicate Reading(r: Registry, id: u32) {
    id in r.conns && !r.conns[id].ended
  }

  /** One event. A stream that ends while a size is read removes its client; one that ends inside a body does not. */
  function Happen(r: Registry, e: TcpEvent): Registry {
    match e
    case Accepted(None) => r
    case Accepted(Some(i)) => Registry(ToU32(r.next + 1), r.conns[r.next := Conn(i, Progress([], []), false)])
    case Arrived(id, segment) =>
      if Reading(r, id)
      then r.(conns := r.conns[id := r.conns[id].(progress := Feed(r.conns[id].progress, segment))])
      else r
    case Ended(id) =>
      if !Reading(r, id) then r
      else if |r.conns[id].progress.rest| < 4 then r.(conns := r.conns - {id})
      else r.(conns := r.conns[id := r.conns[id].(ended := true)])
  }

  function HappenAll(r: Registry, es: seq<TcpEvent>): Registry
    decreases |es|
  {
    if es == [] then r else HappenAll(Happen(r, es[0]), es[1..])
  }

  /** What arrives from a client before its stream ends. */
  function Received(es: seq<TcpEvent>, id: u32): seq<seq<byte>> {
    if es == [] || es[0] == Ended(id) then []
    else (if es[0].Arrived? && es[0].id == id then [es[0].segment] else []) + Received(es[1..], id)
  }

  function Accepts(es: seq<TcpEvent>): nat {
    if es == [] then 0 else (if es[0].Accepted? && es[0].remote.Some? then 1 else 0) + Accepts(es[1..])
  }

  /** Until the 32-bit counter comes round to its id again, a client is registered exactly while its stream has not ended,
      or if it ended inside a body; and its session has read what has arrived. */
  lemma {:induction false} ClientOverRun(r: Registry, id: u32, es: seq<TcpEvent>)
    requires Reading(r, id) && Accepts(es) <= ToU32(id - r.next)
    ensures var p := FeedAll(r.conns[id].progress, Received(es, id));
            var after := HappenAll(r, es).conns;
            && (id in after <==> Ended(id) !in es || |p.rest| >= 4)
            && (id in after ==> after[id] == Conn(r.conns[id].info, p, Ended(id) in es))
    decreases |es|
  {
    hide Feed;
    if es != [] {
      var next, rest := Happen(r, es[0]), es[1..];
      CounterAhead(id, r.next);
      ReceivedStep(r.conns[id].progress, es, id);
      if es[0] == Ended(id) {
        ClientStays(next, id, rest);
      } else {
        ClientOverRun(next, id, rest);
      }
    }
  }

  lemma HappenNext(r: Registry, es: seq<TcpEvent>, i: nat)
    requires i < |es|
    ensures HappenAll(r, es[i..]) == HappenAll(Happen(r, es[i]), es[i + 1..])
  {
    hide Happen;
    assert es[i..][1..] == es[i + 1..];
  }

  lemma ReceivedStep(p: Progress, es: seq<TcpEvent>, id: u32)
    requires es != []
    ensures Ended(id) in es <==> es[0] == Ended(id) || Ended(id) in es[1..]
    ensures FeedAll(p, Received(es, id)) ==
            if es[0] == Ended(id) then p
            else if es[0].Arrived? && es[0].id == id then FeedAll(Feed(p, es[0].segment), Received(es[1..], id))
            else FeedAll(p, Received(es[1..], id))
  {
    hide Feed;
    assert es == [es[0]] + es[1..];
    var rest := Received(es[1..], id);
    assert [] + rest == rest;
    if es[0].Arrived? { assert ([es[0].segment] + rest)[1..] == rest; }
  }

  /** Nothing happens any more to a client whose stream has ended. */
  lemma {:induction false} ClientStays(r: Registry, id: u32, es: seq<TcpEvent>)
    requires !Reading(r, id) && Accepts(es) <= ToU32(id - r.next)
    ensures var after := HappenAll(r, es).conns;
            (id in after <==> id in r.conns) && (id in after ==> after[id] == r.conns[id])
    decreases |es|
  {
    hide Feed;
    if es != [] {
      CounterAhead(id, r.next);
      ClientStays(Happen(r, es[0]), id, es[1..]);
    }
  }

  lemma CounterAhead(id: u32, next: u32)
    ensures id != next ==> ToU32(id - ToU32(next + 1)) == ToU32(id - next) - 1
    ensures id == next <==> ToU32(id - next) == 0
  {}

  /** The addresses that broadcasts go to. */
  function Clients(r: Registry): map<u32, ClientInfo> {
    map id | id in r.conns :: r.conns[id].info
  }

  /** A client whose stream ends inside a body stays registered and is sent every broadcast. */
  lemma HalfClosedIsServed(C: Chunk, r: Registry, info: ClientInfo, es: seq<TcpEvent>, s: ServerState, d_type: u16,
                           data: seq<byte>)
    requires Accepts(es) < MAX32 && Ended(r.next) in es
    requires |Deframe(Concat(Received(es, r.next))).rest| >= 4
    requires s.open && s.clients == Clients(HappenAll(Happen(r, Accepted(Some(info))), es)) && Fragments.Sendable(data)
    ensures r.next in s.clients
    ensures Mailed(s, Broadcast(C, s, d_type, data), r.next, info, EncodeAll(Split(C, d_type, data)))
  {
    AcceptedReads(r, info);
    ClientOverRun(Happen(r, Accepted(Some(info))), r.next, es);
    FeedFromStart(Received(es, r.next));
    hide Outbox, Happen, HappenAll, Received, Mailed, Feed, Deframe, FeedAll, EncodeAll, Split;
    OutboxMails(s, Broadcast(C, s, d_type, data), EncodeAll(Split(C, d_type, data)), r.next);
  }

  /** A client that announces a body of five bytes and hangs up is still registered. */
  lemma HalfClosedStays(info: ClientInfo)
    ensures var es := [Accepted(Some(info)), Arrived(0, [5, 0, 0, 0]), Ended(0)];
            var after := HappenAll(Registry(0, map[]), es).conns;
            0 in after && after[0].ended && after[0].info == info
  {
    var r := Registry(0, map[]);
    var es := [Accepted(Some(info)), Arrived(0, [5, 0, 0, 0]), Ended(0)];
    SizeOfFive();
    hide Feed;
    assert es[0..] == es && es[3..] == [];
    HappenNext(r, es, 0);
    var r1 := Happen(r, es[0]);
    HappenNext(r1, es, 1);
    var r2 := Happen(r1, es[1]);
    HappenNext(r2, es, 2);
  }

  lemma SizeOfFive()
    ensures Feed(Progress([], []), [5, 0, 0, 0]) == Progress([], [5, 0, 0, 0])
  {
    var s: seq<byte> := [5, 0, 0, 0];
    assert [] + s == s && s[..4] == s;
    assert !Complete(s);
  }

  lemma AcceptedReads(r: Registry, info: ClientInfo)
    ensures var r1 := Happen(r, Accepted(Some(info)));
            Reading(r1, r.next) && r1.conns[r.next] == Conn(info, Progress([], []), false)
            && ToU32(r.next - r1.next) == MAX32 - 1
  {}

  lemma FeedFromStart(segments: seq<seq<byte>>)
    ensures FeedAll(Progress([], []), segments) == Deframe(Concat(segments))
  {
    DeframeNothing();
    hide Deframe, FeedAll;
    FeedAllIsDeframe([], segments);
    assert [] + Concat(segments) == Concat(segments);
  }

  // ---- The class ----

  /** The session stands where c says. */
  ghost predicate SessionIs(session: AsioTcpClientSession, c: Conn)
    reads session
  {
    session.Valid() && session.State() == c.progress && session.ended == c.ended
  }

  method NewSession(client_id: u32, ghost c: Conn) returns (session: AsioTcpClientSession)
    requires c.progress == Progress([], []) && !c.ended
    ensures fresh(session) && session.cur_client_id_ == client_id && SessionIs(session, c) && !session.closed
  {
    session := new AsioTcpClientSession(client_id);
  }

  method SessionReceives(session: AsioTcpClientSession, ghost c: Conn, segment: seq<byte>)
    requires SessionIs(session, c) && !c.ended && !session.closed
    modifies session
    ensures SessionIs(session, c.(progress := Feed(c.progress, segment))) && !session.closed
  {
    hide Feed;
    session.Receive(segment);
  }

  method SessionEnds(session: AsioTcpClientSession, ghost c: Conn)
    requires SessionIs(session, c) && !c.ended && !session.closed
    modifies session
    ensures SessionIs(session, c.(ended := true)) && session.closed == (|c.progress.rest| < 4)
  {
    session.EndOfStream();
  }

  /** Both registries hold the same clients; every one of them has been told the address and port that the UDP
      server sends to, and each has a session of its own. */
  ghost predicate InStep(cl: map<u32, AsioTcpClientSession>, udp: map<u32, ClientInfo>, written: map<u32, seq<byte>>,
                         conns: map<u32, Conn>)
  {
    && cl.Keys == udp.Keys == conns.Keys
    && forall k | k in conns ::
         && udp[k] == conns[k].info && k in written && written[k] == Greeting(conns[k].info)
         && cl[k].cur_client_id_ == k
  }

  lemma InStepAdded(cl: map<u32, AsioTcpClientSession>, udp: map<u32, ClientInfo>, written: map<u32, seq<byte>>,
                    conns: map<u32, Conn>, session: AsioTcpClientSession, c: Conn)
    requires InStep(cl, udp, written, conns)
    ensures var k := session.cur_client_id_;
            InStep(cl[k := session], udp[k := c.info], written[k := Greeting(c.info)], conns[k := c])
  {
    hide Greeting;
  }

  lemma InStepRemoved(cl: map<u32, AsioTcpClientSession>, udp: map<u32, ClientInfo>, written: map<u32, seq<byte>>,
                      conns: map<u32, Conn>, k: u32)
    requires InStep(cl, udp, written, conns)
    ensures InStep(cl - {k}, udp - {k}, written, conns - {k})
  {
    hide Greeting;
  }

  lemma InStepChanged(cl: map<u32, AsioTcpClientSession>, udp: map<u32, ClientInfo>, written: map<u32, seq<byte>>,
                      conns: map<u32, Conn>, k: u32, c: Conn)
    requires InStep(cl, udp, written, conns) && k in conns && c.info == conns[k].info
    ensures InStep(cl, udp, written, conns[k := c])
  {
    hide Greeting;
  }

  /** Every session stands where its registry entry says; but for the client `but`, none has raised signal_deleting. */
  ghost predicate SessionsAre(cl: map<u32, AsioTcpClientSession>, conns: map<u32, Conn>, but: Option<u32>)
    reads cl.Values
  {
    forall k | k in conns :: k in cl && SessionIs(cl[k], conns[k]) && (but != Some(k) ==> !cl[k].closed)
  }

  lemma SessionsAdded(cl: map<u32, AsioTcpClientSession>, conns: map<u32, Conn>, session: AsioTcpClientSession, c: Conn)
    requires SessionsAre(cl, conns, None) && SessionIs(session, c) && !session.closed
    ensures var k := session.cur_client_id_; SessionsAre(cl[k := session], conns[k := c], None)
  {
    hide SessionIs;
  }

  lemma SessionsRemoved(cl: map<u32, AsioTcpClientSession>, conns: map<u32, Conn>, but: Option<u32>, k: u32)
    requires SessionsAre(cl, conns, but) && (but == None || but == Some(k))
    ensures SessionsAre(cl - {k}, conns - {k}, None)
  {
    hide SessionIs;
  }

  class AsioTcpManager {
    const udp_server_: AsioUdpManager
    var id: u32
    var cl_: map<u32, AsioTcpClientSession>
    var written: map<u32, seq<byte>>
    ghost var conns: map<u32, Conn>

    /** The registries are in step; `but` is a client that is about to be removed. */
    ghost predicate Coherent(but: Option<u32>)
      reads this, udp_server_, cl_.Values
    {
      InStep(cl_, udp_server_.cl_, written, conns) && SessionsAre(cl_, conns, but)
    }

    ghost predicate Valid()
      reads this, udp_server_, cl_.Values
    {
      Coherent(None)
    }

    ghost function State(): Registry
      reads this
    {
      Registry(id, conns)
    }

    /** The UDP server sends to exactly the registered clients, at the addresses they have been told. */
    lemma RegistriesAgree()
      requires Valid()
      ensures cl_.Keys == udp_server_.cl_.Keys && udp_server_.cl_ == Clients(State())
      ensures forall k | k in cl_ :: k in written && written[k] == Greeting(udp_server_.cl_[k])
    {
      hide Greeting, SessionsAre;
    }

    lemma ReadingAgrees(k: u32)
      requires Valid()
      ensures Reading(State(), k) <==> k in cl_ && !cl_[k].ended
    {
      hide Greeting;
    }

    constructor (C: Chunk)
      ensures Valid() && State() == Registry(0, map[]) && fresh(udp_server_)
      ensures udp_server_.State() == ServerState(false, map[], IDLE, map[])
    {
      udp_server_ := new AsioUdpManager(C);
      id := 0;
      cl_ := map[];
      written := map[];
      conns := map[];
    }

    /** The accept handler; None stands for an accept or an endpoint that failed. */
    method OnAccept(remote: Option<ClientInfo>)
      requires Valid()
      modifies this, udp_server_`cl_
      ensures Valid() && State() == Happen(old(State()), Accepted(remote))
      ensures udp_server_.cl_ == if remote.Some? then old(udp_server_.cl_)[old(id) := remote.value]
                                 else old(udp_server_.cl_)
      ensures forall k | k in cl_ :: (k in old(cl_) && cl_[k] == old(cl_)[k]) || fresh(cl_[k])
    {
      hide InStep, SessionsAre;
      if remote.Some? {
        Register(remote.value);
        id := ToU32(id + 1);
      }
    }

    /** Any run of events follows the state machine, and at its end the UDP server sends to exactly the clients that are
        registered, at the addresses they have been told. Events of clients that are not read from do not occur. */
    method OnEvents(es: seq<TcpEvent>)
      requires Valid()
      modifies this, udp_server_`cl_, cl_.Values
      ensures Valid() && State() == HappenAll(old(State()), es)
      ensures cl_.Keys == udp_server_.cl_.Keys && udp_server_.cl_ == Clients(HappenAll(old(State()), es))
      ensures forall k | k in cl_ :: k in written && written[k] == Greeting(udp_server_.cl_[k])
    {
      hide InStep, SessionsAre, Happen, Greeting;
      ghost var before := State();
      for i := 0 to |es|
        invariant Valid() && HappenAll(State(), es[i..]) == HappenAll(before, es)
        invariant forall k | k in cl_ :: cl_[k] in old(cl_.Values) || fresh(cl_[k])
      {
        HappenNext(State(), es, i);
        OnEvent(es[i]);
      }
      assert es[|es|..] == [];
      RegistriesAgree();
    }

    method OnEvent(e: TcpEvent)
      requires Valid()
      modifies this, udp_server_`cl_, cl_.Values
      ensures Valid() && State() == Happen(old(State()), e)
      ensures forall k | k in cl_ :: cl_[k] in old(cl_.Values) || fresh(cl_[k])
    {
      hide InStep, SessionsAre, Feed;
      match e
      case Accepted(remote) => OnAccept(remote);
      case Arrived(client_id, segment) =>
        ReadingAgrees(client_id);
        if client_id in cl_ && !cl_[client_id].ended {
          OnBytes(client_id, segment);
        }
      case Ended(client_id) =>
        ReadingAgrees(client_id);
        if client_id in cl_ && !cl_[client_id].ended {
          OnEnd(client_id);
        }
    }

    method Register(i: ClientInfo)
      requires Valid()
      modifies this`cl_, this`written, this`conns, udp_server_`cl_
      ensures Valid() && conns == old(conns)[id := Conn(i, Progress([], []), false)]
      ensures udp_server_.cl_ == old(udp_server_.cl_)[id := i]
      ensures forall k | k in cl_ :: (k in old(cl_) && cl_[k] == old(cl_)[k]) || fresh(cl_[k])
    {
      hide Greeting, Serve, InStep, SessionsAre, SessionIs;
      ghost var c := Conn(i, Progress([], []), false);
      var session := NewSession(id, c);
      InStepAdded(cl_, udp_server_.cl_, written, conns, session, c);
      SessionsAdded(cl_, conns, session, c);
      cl_ := cl_[id := session];
      conns := conns[id := c];
      udp_server_.CreateClient(id, i);
      var bytes := Greet(i);
      written := written[id := bytes];
    }

    /** Bytes arrive from a client whose stream has not ended. */
    method OnBytes(client_id: u32, segment: seq<byte>)
      requires Valid() && client_id in cl_ && Reading(State(), client_id)
      modifies cl_[client_id], this`conns
      ensures Valid() && State() == Happen(old(State()), Arrived(client_id, segment))
    {
      hide Greeting, Feed, SessionIs;
      ghost var c := conns[client_id];
      SessionReceives(cl_[client_id], c, segment);
      InStepChanged(cl_, udp_server_.cl_, written, conns, client_id, c.(progress := Feed(c.progress, segment)));
      conns := conns[client_id := c.(progress := Feed(c.progress, segment))];
    }

    /** The stream of a client ends; the session's signal_deleting removes it from both registries. */
    method OnEnd(client_id: u32)
      requires Valid() && client_id in cl_ && Reading(State(), client_id)
      modifies this`cl_, this`conns, udp_server_`cl_, cl_[client_id]
      ensures Valid() && State() == Happen(old(State()), Ended(client_id))
      ensures forall k | k in cl_ :: k in old(cl_) && cl_[k] == old(cl_)[k]
    {
      hide InStep, SessionsAre;
      EndSession(client_id);
      if cl_[client_id].closed {
        OnDeleting(client_id);
      }
    }

    method EndSession(client_id: u32)
      requires Valid() && client_id in cl_ && Reading(State(), client_id)
      modifies cl_[client_id], this`conns
      ensures Coherent(if cl_[client_id].closed then Some(client_id) else None)
      ensures cl_[client_id].closed == (|old(conns)[client_id].progress.rest| < 4)
      ensures conns == old(conns)[client_id := old(conns)[client_id].(ended := true)]
    {
      hide Greeting, SessionIs;
      ghost var c := conns[client_id];
      SessionEnds(cl_[client_id], c);
      InStepChanged(cl_, udp_server_.cl_, written, conns, client_id, c.(ended := true));
      conns := conns[client_id := c.(ended := true)];
    }

    /** signal_deleting: the UDP manager's slot runs first, then this one's. */
    method OnDeleting(client_id: u32)
      requires Valid() || Coherent(Some(client_id))
      modifies this`cl_, this`conns, udp_server_`cl_
      ensures Valid() && conns == old(conns) - {client_id}
      ensures cl_ == old(cl_) - {client_id} && udp_server_.cl_ == old(udp_server_.cl_) - {client_id}
    {
      hide Serve, InStep, SessionsAre;
      InStepRemoved(cl_, udp_server_.cl_, written, conns, client_id);
      SessionsRemoved(cl_, conns, if Valid() then None else Some(client_id), client_id);
      ghost var left := cl_ - {client_id};
      udp_server_.RemoveClient(client_id);
      if client_id in cl_ {
        cl_ := cl_ - {client_id};
      }
      assert cl_ == left;
      conns := conns - {client_id};
    }
  }

  // ---- The client that is greeted ----

  class BoostTcpConnection {
    const udp_: BoostUdpConnection

    constructor (C: Chunk)
      ensures fresh(udp_) && !udp_.open
    {
      udp_ := new BoostUdpConnection(C);
    }

    /** prcsPacket on one buffer: first data opens the UDP socket; false stands for the exception that a second one
        makes the source throw. */
    method PrcsPacket(buf: seq<byte>) returns (ok: bool)
      requires Process(Client, buf) != TcpSession.OutOfBounds
      modifies udp_`open, udp_`local
      ensures match Process(Client, buf)
              case GotFirstData(f) =>
                && ok == !old(udp_.open) && udp_.open
                && udp_.local == if ok then Some(ClientInfo(f.client_addr, f.client_port)) else old(udp_.local)
              case _ => ok && udp_.open == old(udp_.open) && udp_.local == old(udp_.local)
    {
      hide Process;
      var e := ProcessPacket(Client, buf);
      ok := true;
      if e.GotFirstData? {
        ok := udp_.Open(e.f.client_addr, e.f.client_port);
      }
    }
  }

  /** A client that reads its greeting, in any pieces, opens its UDP socket at the address and port registered for it. */
  method Connect(client: BoostTcpConnection, i: ClientInfo, segments: seq<seq<byte>>)
    requires |i.addr| + 6 + PREFIX_SIZE < MAX32 && Concat(segments) == Greeting(i) && !client.udp_.open
    modifies client.udp_`open, client.udp_`local
    ensures client.udp_.open && client.udp_.local == Some(i)
  {
    hide Greeting, Process, FeedAll;
    GreetingArrives(i, segments);
    var session := new AsioTcpClientSession(0);
    for k := 0 to |segments|
      invariant session.Valid() && !session.ended && fresh(session)
      invariant FeedAll(session.State(), segments[k..]) == FeedAll(Progress([], []), segments)
      invariant !client.udp_.open
    {
      FeedOne(session.State(), segments, k);
      session.Receive(segments[k]);
    }
    FeedNone(session.State());
    assert segments[|segments|..] == [];
    var ok := client.PrcsPacket(session.delivered[0]);
  }

  lemma FeedOne(p: Progress, segments: seq<seq<byte>>, k: nat)
    requires k < |segments|
    ensures FeedAll(p, segments[k..]) == FeedAll(Feed(p, segments[k]), segments[k + 1..])
  {
    hide Feed;
    assert segments[k..][1..] == segments[k + 1..];
  }

  lemma FeedNone(p: Progress)
    ensures FeedAll(p, []) == p
  {}

  /** The greeting as the server's one packet of first data: numbered 0, with the client's address and port. */
  lemma GreetingHeader(i: ClientInfo)
    ensures var p := Decode(Greeting(i)[4..]);
            && p.Some? && p.value.header.server_hash == 1337
            && p.value.header.total_cnt_packets == 1 && p.value.header.cur_packet_number == 0
            && p.value.header.isFirst == 1 && p.value.header.isLast == 1 && p.value.d_type == 1
            && p.value.buffer == EncodeFirstData(FirstData(i.addr, i.port))
  {
    var body := EncodeFirstData(FirstData(i.addr, i.port));
    OnlyPacket(Server, FIRST_DATA, body);
    FrameLayout(Encode(OnePacket(Server, FIRST_DATA, body)));
    hide Encode, Decode, Frame, EncodeFirstData;
  }

  /** The greeting is the one frame that arrives, and it carries the client's address and port. */
  lemma GreetingArrives(i: ClientInfo, segments: seq<seq<byte>>)
    requires |i.addr| + 6 + PREFIX_SIZE < MAX32 && Concat(segments) == Greeting(i)
    ensures var p := FeedAll(Progress([], []), segments);
            && p.rest == [] && |p.bodies| == 1
            && Process(Client, p.bodies[0]) == GotFirstData(FirstData(i.addr, i.port))
  {
    var f := FirstData(i.addr, i.port);
    var body := Encode(OnePacket(Server, FIRST_DATA, EncodeFirstData(f)));
    assert |body| < MAX32 by { EncodeStringSize(i.addr); }
    FirstDataArrives(f);
    hide Encode, EncodeFirstData, Process, Frame, Deframe, FeedAll, Concat;
    FrameRoundTrip(body);
    FeedFromStart(segments);
  }

  lemma DeframeNothing()
    ensures Deframe([]) == Progress([], [])
  {}
}
