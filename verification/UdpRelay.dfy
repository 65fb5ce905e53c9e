/** The UDP server that relays images, the client connection, and the registries that feed them. */
module UdpRelay {
  import opened Wire
  import opened Packet
  import opened Fragments
  import opened Reassembly
  import opened Datagrams

  datatype ClientInfo = ClientInfo(addr: seq<byte>, port: u16)

  /** One async_send_to. */
  datatype Outgoing = Outgoing(target: ClientInfo, bytes: seq<byte>)

  function Addressed(target: ClientInfo, ds: seq<seq<byte>>): seq<Outgoing> {
    seq(|ds|, i requires 0 <= i < |ds| => Outgoing(target, ds[i]))
  }

  // ---- The server as a state machine ----

  /** `sent` holds, for every client, the datagrams handed to the socket for it, in order. */
  datatype ServerState = ServerState(
    open: bool, clients: map<u32, ClientInfo>, st: Assembly, sent: map<u32, seq<Outgoing>>)

  datatype Event = Arrive(buf: seq<byte>) | Create(id: u32, info: ClientInfo) | Remove(id: u32)

  /** Every client's datagrams after one broadcast. */
  function Outbox(sent: map<u32, seq<Outgoing>>, clients: map<u32, ClientInfo>, ds: seq<seq<byte>>)
    : map<u32, seq<Outgoing>>
  {
    map id | id in sent.Keys + clients.Keys ::
      (if id in sent then sent[id] else []) + (if id in clients then Addressed(clients[id], ds) else [])
  }

  /** A broadcast is defined when nothing is sent or the size is one the loop can cut up. */
  predicate CanBroadcast(s: ServerState, data: seq<byte>) {
    s.open && s.clients != map[] ==> Sendable(data)
  }

  function Broadcast(C: Chunk, s: ServerState, d_type: u16, data: seq<byte>): ServerState
    requires CanBroadcast(s, data)
  {
    if !s.open || s.clients == map[] then s
    else s.(sent := Outbox(s.sent, s.clients, EncodeAll(Split(C, d_type, data))))
  }

  /** One event; None when the source leaves it undefined. */
  function Serve(C: Chunk, s: ServerState, e: Event): Option<ServerState> {
    match e
    case Create(id, info) => Some(s.(clients := s.clients[id := info]))
    case Remove(id) => Some(s.(clients := s.clients - {id}))
    case Arrive(buf) =>
      match Receive(C, s.st, buf)
      case OutOfBounds => None
      case Stepped(st, None) => Some(s.(st := st))
      case Stepped(st, Some(image)) =>
        if CanBroadcast(s, image) then Some(Broadcast(C, s, IMAGE, image).(st := st)) else None
  }

  function ServeAll(C: Chunk, s: ServerState, es: seq<Event>): Option<ServerState>
    decreases |es|
  {
    if es == [] then Some(s)
    else
      match Serve(C, s, es[0])
      case None => None
      case Some(s1) => ServeAll(C, s1, es[1..])
  }

  /** The buffers that arrive in a run. */
  function Arrived(es: seq<Event>): seq<seq<byte>> {
    if es == [] then [] else (if es[0].Arrive? then [es[0].buf] else []) + Arrived(es[1..])
  }

  function Enroll(clients: map<u32, ClientInfo>, e: Event): map<u32, ClientInfo> {
    match e
    case Create(id, info) => clients[id := info]
    case Remove(id) => clients - {id}
    case Arrive(_) => clients
  }

  /** The registry after a run. */
  function Registered(clients: map<u32, ClientInfo>, es: seq<Event>): map<u32, ClientInfo>
    decreases |es|
  {
    if es == [] then clients else Registered(Enroll(clients, es[0]), es[1..])
  }

  /** While no image is finished, registrations and arrivals do not see each other. */
  lemma {:induction false} ServeQuietly(C: Chunk, s: ServerState, es: seq<Event>)
    requires RunBuffers(C, s.st, Arrived(es)).Ran? && RunBuffers(C, s.st, Arrived(es)).images == []
    ensures ServeAll(C, s, es) ==
            Some(s.(clients := Registered(s.clients, es), st := RunBuffers(C, s.st, Arrived(es)).st))
    decreases |es|
  {
    hide Receive, Outbox, CanBroadcast, Broadcast;
    if es != [] {
      if es[0].Arrive? {
        var bufs := Arrived(es);
        assert bufs[0] == es[0].buf && bufs[1..] == Arrived(es[1..]);
        var r := Receive(C, s.st, bufs[0]);
        assert r.Stepped? && r.image == None;
        ServeQuietly(C, s.(st := r.st), es[1..]);
      } else {
        assert Arrived(es) == Arrived(es[1..]);
        ServeQuietly(C, Serve(C, s, es[0]).value, es[1..]);
      }
    }
  }

  lemma {:induction false} ServeAllAppend(C: Chunk, s: ServerState, a: seq<Event>, b: seq<Event>)
    requires ServeAll(C, s, a).Some?
    ensures ServeAll(C, s, a + b) == ServeAll(C, ServeAll(C, s, a).value, b)
    ensures Arrived(a + b) == Arrived(a) + Arrived(b)
    ensures Registered(s.clients, a + b) == Registered(Registered(s.clients, a), b)
    decreases |a|
  {
    ArrivedAppend(a, b);
    RegisteredAppend(s.clients, a, b);
    hide Serve, Arrived, Registered;
    if a == [] {
      assert a + b == b;
    } else {
      assert (a + b)[1..] == a[1..] + b;
      ServeAllAppend(C, Serve(C, s, a[0]).value, a[1..], b);
    }
  }

  lemma {:induction false} ArrivedAppend(a: seq<Event>, b: seq<Event>)
    ensures Arrived(a + b) == Arrived(a) + Arrived(b)
  {
    if a == [] {
      assert a + b == b;
    } else {
      assert (a + b)[1..] == a[1..] + b;
      ArrivedAppend(a[1..], b);
    }
  }

  lemma {:induction false} RegisteredAppend(clients: map<u32, ClientInfo>, a: seq<Event>, b: seq<Event>)
    ensures Registered(clients, a + b) == Registered(Registered(clients, a), b)
    decreases |a|
  {
    if a == [] {
      assert a + b == b;
    } else {
      assert (a + b)[1..] == a[1..] + b;
      RegisteredAppend(Enroll(clients, a[0]), a[1..], b);
    }
  }

  /** A run whose arrivals leave the buffer is undefined, whatever is registered in between. */
  lemma {:induction false} ServeFails(C: Chunk, s: ServerState, es: seq<Event>)
    requires RunBuffers(C, s.st, Arrived(es)) == Failed
    ensures ServeAll(C, s, es) == None
    decreases |es|
  {
    hide Receive, Outbox, CanBroadcast, Broadcast;
    if es != [] {
      var next := Serve(C, s, es[0]);
      if es[0].Arrive? {
        var bufs := Arrived(es);
        assert bufs[0] == es[0].buf && bufs[1..] == Arrived(es[1..]);
        if next.Some? {
          BroadcastKeepsAssembly(C, s, es[0].buf);
          ServeFails(C, next.value, es[1..]);
        }
      } else {
        assert Arrived(es) == Arrived(es[1..]);
        ServeFails(C, next.value, es[1..]);
      }
    }
  }

  lemma BroadcastKeepsAssembly(C: Chunk, s: ServerState, buf: seq<byte>)
    requires Serve(C, s, Arrive(buf)).Some?
    ensures Receive(C, s.st, buf).Stepped? && Serve(C, s, Arrive(buf)).value.st == Receive(C, s.st, buf).st
  {
    hide Receive, Outbox, Split, EncodeAll;
  }

  function OwnEvents(es: seq<Event>): seq<Event> {
    if es == [] then []
    else (if es[0].Arrive? && Foreign(es[0].buf) then [] else [es[0]]) + OwnEvents(es[1..])
  }

  /** Foreign datagrams change nothing about the server, wherever they come in between. */
  lemma {:induction false} ForeignUnserved(C: Chunk, s: ServerState, es: seq<Event>)
    ensures ServeAll(C, s, es) == ServeAll(C, s, OwnEvents(es))
    decreases |es|
  {
    hide Serve, Foreign;
    if es != [] {
      var own := OwnEvents(es[1..]);
      if es[0].Arrive? && Foreign(es[0].buf) {
        ForeignServed(C, s, es[0].buf);
        ForeignUnserved(C, s, es[1..]);
        assert [] + own == own;
      } else {
        assert ([es[0]] + own)[1..] == own;
        var next := Serve(C, s, es[0]);
        if next.Some? { ForeignUnserved(C, next.value, es[1..]); }
      }
    }
  }

  lemma ForeignServed(C: Chunk, s: ServerState, buf: seq<byte>)
    requires Foreign(buf)
    ensures Serve(C, s, Arrive(buf)) == Some(s)
  {
    hide Receive, Foreign, Outbox;
    ForeignIgnored(C, s.st, buf);
  }

  predicate Untouched(es: seq<Event>, id: u32) {
    forall i | 0 <= i < |es| :: (es[i].Create? || es[i].Remove?) ==> es[i].id != id
  }

  /** A client is registered, at the address last given for it, exactly when its last registration has not been undone. */
  lemma RegisteredSince(clients: map<u32, ClientInfo>, es: seq<Event>, rest: seq<Event>, id: u32, info: ClientInfo)
    requires Untouched(rest, id)
    ensures var r := Registered(clients, es + [Create(id, info)] + rest); id in r && r[id] == info
    ensures id !in Registered(clients, es + [Remove(id)] + rest)
    ensures var r := Registered(clients, rest);
            (id in r <==> id in clients) && (id in clients ==> r[id] == clients[id])
  {
    RegisteredOne(clients, es, Create(id, info));
    RegisteredOne(clients, es, Remove(id));
    RegisteredAppend(clients, es + [Create(id, info)], rest);
    RegisteredAppend(clients, es + [Remove(id)], rest);
    hide Registered;
    RegisteredRest(Registered(clients, es + [Create(id, info)]), rest, id);
    RegisteredRest(Registered(clients, es + [Remove(id)]), rest, id);
    RegisteredRest(clients, rest, id);
  }

  lemma RegisteredOne(clients: map<u32, ClientInfo>, es: seq<Event>, e: Event)
    ensures Registered(clients, es + [e]) == Enroll(Registered(clients, es), e)
  {
    RegisteredAppend(clients, es, [e]);
    assert [e][1..] == [];
  }

  lemma {:induction false} RegisteredRest(clients: map<u32, ClientInfo>, rest: seq<Event>, id: u32)
    requires Untouched(rest, id)
    ensures var r := Registered(clients, rest);
            (id in r <==> id in clients) && (id in clients ==> r[id] == clients[id])
    decreases |rest|
  {
    if rest != [] {
      RegisteredRest(Enroll(clients, rest[0]), rest[1..], id);
    }
  }

  // ---- What one client is sent ----

  function Mail(sent: map<u32, seq<Outgoing>>, id: u32): seq<Outgoing> {
    if id in sent then sent[id] else []
  }

  function Bytes(mail: seq<Outgoing>): (ds: seq<seq<byte>>)
    ensures |ds| == |mail|
  {
    seq(|mail|, i requires 0 <= i < |mail| => mail[i].bytes)
  }

  /** Between two states the client is sent the datagrams ds, at its address, and nothing else. */
  ghost predicate Mailed(before: ServerState, after: ServerState, id: u32, info: ClientInfo, ds: seq<seq<byte>>) {
    var earlier, later := Mail(before.sent, id), Mail(after.sent, id);
    && |later| == |earlier| + |ds| && later[..|earlier|] == earlier
    && Bytes(later[|earlier|..]) == ds
    && forall i | |earlier| <= i < |later| :: later[i].target == info
  }

  lemma OutboxMails(before: ServerState, after: ServerState, ds: seq<seq<byte>>, id: u32)
    requires after.sent == Outbox(before.sent, after.clients, ds)
    ensures id in after.clients ==> Mailed(before, after, id, after.clients[id], ds)
    ensures id !in after.clients ==> Mail(after.sent, id) == Mail(before.sent, id)
  {
    var earlier, later := Mail(before.sent, id), Mail(after.sent, id);
    if id in after.clients {
      assert later == earlier + Addressed(after.clients[id], ds);
      assert later[|earlier|..] == Addressed(after.clients[id], ds);
    }
  }

  // ---- End to end ----

  /** The datagrams a client sends for an image. */
  function ImageDatagrams(C: Chunk, image: seq<byte>): seq<seq<byte>>
    requires |image| <= 65535 * C
  {
    NumberedIsExact(C, image);
    EncodeAll(Split(C, IMAGE, image))
  }

  /** After the run, exactly the clients then registered have been sent the datagrams of x, once, and the server
      is idle. */
  ghost predicate Relayed(C: Chunk, s: ServerState, es: seq<Event>, x: seq<byte>, after: Option<ServerState>)
    requires |x| <= 65535 * C
  {
    && after.Some?
    && after.value.open && after.value.clients == Registered(s.clients, es) && after.value.st == IDLE
    && (forall id | id in after.value.clients ::
          Mailed(s, after.value, id, after.value.clients[id], ImageDatagrams(C, x)))
    && (forall id | id !in after.value.clients :: Mail(after.value.sent, id) == Mail(s.sent, id))
  }

  /** A buffer that finishes an image x makes the server relay x. */
  lemma RelayFinished(C: Chunk, s: ServerState, es: seq<Event>, last: seq<byte>, x: seq<byte>)
    requires s.open && |x| <= 65535 * C
    requires RunBuffers(C, s.st, Arrived(es)).Ran? && RunBuffers(C, s.st, Arrived(es)).images == []
    requires Receive(C, RunBuffers(C, s.st, Arrived(es)).st, last) == Stepped(IDLE, Some(x))
    ensures Relayed(C, s, es, x, ServeAll(C, s, es + [Arrive(last)]))
  {
    NumberedIsExact(C, x);
    hide Packets, Total, Split, EncodeAll, RunBuffers, Receive, Outbox, Fragments.Sendable, Arrived, Registered, Mailed,
         Mail, Addressed;
    ServeQuietly(C, s, es);
    var s1 := ServeAll(C, s, es).value;
    assert ServeAll(C, s1, [Arrive(last)]) == Serve(C, s1, Arrive(last)) by {
      assert [Arrive(last)][1..] == [];
    }
    ServeAllAppend(C, s, es, [Arrive(last)]);
    var after := Serve(C, s1, Arrive(last)).value;
    if s1.clients == map[] {
      forall id ensures Mail(after.sent, id) == Mail(s.sent, id) {}
    } else {
      forall id: u32
        ensures id in after.clients ==> Mailed(s, after, id, after.clients[id], ImageDatagrams(C, x))
        ensures id !in after.clients ==> Mail(after.sent, id) == Mail(s.sent, id)
      {
        OutboxMails(s, after, ImageDatagrams(C, x), id);
      }
    }
  }

  /** A run that hands on one image does so with its last buffer, if all but that one hand on nothing. */
  lemma {:induction false} RunBuffersLast(C: Chunk, st: Assembly, early: seq<seq<byte>>, last: seq<byte>)
    ensures RunBuffers(C, st, early + [last]) ==
            match RunBuffers(C, st, early)
            case Failed => Failed
            case Ran(st1, images1) =>
              (match Receive(C, st1, last)
               case OutOfBounds => Failed
               case Stepped(st2, image) => Ran(st2, images1 + Images(image)))
    decreases |early|
  {
    hide Receive;
    if early == [] {
      assert early + [last] == [last] && [last][1..] == [];
    } else {
      assert (early + [last])[1..] == early[1..] + [last];
      var r := Receive(C, st, early[0]);
      if r.Stepped? { RunBuffersLast(C, r.st, early[1..], last); }
    }
  }

  /** The buffer holds the last packet of an image. */
  predicate Finishes(buf: seq<byte>) {
    match Decode(buf)
    case None => false
    case Some(p) => p.header.server_hash == SERVER_HASH && p.d_type == IMAGE && p.header.isLast == 1
  }

  lemma FinishesEncoded(p: Packet)
    requires p.header.server_hash == SERVER_HASH && p.d_type == IMAGE && p.header.isLast == 1
    ensures Finishes(Encode(p))
  {
    hide Encode, Decode;
    DecodeEncode(p);
  }

  lemma FinishedImage(C: Chunk, st: Assembly, buf: seq<byte>)
    requires Finishes(buf) && Receive(C, st, buf).Stepped?
    ensures Receive(C, st, buf).st == IDLE && Receive(C, st, buf).image.Some?
  {
    hide Decode;
  }

  /** A run that ends with an image's last packet and hands on x alone relays x. */
  lemma RelayRun(C: Chunk, s: ServerState, es: seq<Event>, last: seq<byte>, x: seq<byte>)
    requires s.open && |x| <= 65535 * C && Finishes(last)
    requires RunBuffers(C, s.st, Arrived(es) + [last]) == Ran(IDLE, [x])
    ensures Relayed(C, s, es, x, ServeAll(C, s, es + [Arrive(last)]))
  {
    hide Receive, RunBuffers, Relayed, Finishes, ServeAll;
    RunBuffersLast(C, s.st, Arrived(es), last);
    var before := RunBuffers(C, s.st, Arrived(es));
    FinishedImage(C, before.st, last);
    var r := Receive(C, before.st, last);
    assert |before.images + [r.image.value]| == 1;
    assert before.images == [] && [x][0] == (before.images + [r.image.value])[0] == r.image.value;
    RelayFinished(C, s, es, last, x);
  }

  /** The datagrams a client has been sent since. */
  function NewBytes(before: ServerState, after: ServerState, id: u32): seq<seq<byte>> {
    var earlier, later := Mail(before.sent, id), Mail(after.sent, id);
    if |earlier| <= |later| then Bytes(later[|earlier|..]) else []
  }

  /** Whoever reads the datagrams of an image ends with the image, whatever it held before. */
  lemma Reassembles(C: Chunk, R: nat, image: seq<byte>, st: Assembly)
    requires 1 <= |image| <= 65535 * C && C + PREFIX_SIZE <= R
    ensures TruncateAll(R, ImageDatagrams(C, image)) == ImageDatagrams(C, image)
    ensures RunBuffers(C, st, ImageDatagrams(C, image)) == Ran(IDLE, [image])
  {
    NumberedIsExact(C, image);
    NothingTruncated(C, R, image);
    hide Packets, Total, Run, RunBuffers, EncodeAll, Split, Fragments.Sendable;
    SplitImages(C, image);
    RunEncoded(C, st, Split(C, IMAGE, image));
    InOrder(C, image, st);
  }

  /** The last datagram of an image finishes it. */
  lemma LastDatagram(C: Chunk, image: seq<byte>) returns (p: Packet)
    requires Exact(image) && image != []
    ensures var ds := EncodeAll(Split(C, IMAGE, image)); ds != [] && ds[|ds| - 1] == Encode(p)
    ensures p.header.server_hash == SERVER_HASH && p.d_type == IMAGE && p.header.isLast == 1
  {
    CountBounds(C, Total(image));
    hide Packets, Count, Encode;
    PacketsIsCount(C, image);
    p := Fragment(C, IMAGE, image, Packets(C, image) - 1);
  }

  /** End to end, with a receive buffer of R bytes on both hops that takes whole packets and payloads of exact length:
      an image arrives at the server, with clients coming and going in between. It is sent once to exactly the
      clients registered when its last packet arrives, and what each of them is sent reassembles to the image,
      whatever the client held before. */
  lemma Relay(C: Chunk, R: nat, image: seq<byte>, s: ServerState, es: seq<Event>, last: seq<byte>)
    requires 1 <= |image| <= 65535 * C && C + PREFIX_SIZE <= R && s.open
    requires Arrived(es) + [last] == TruncateAll(R, ImageDatagrams(C, image))
    ensures var after := ServeAll(C, s, es + [Arrive(last)]);
            && Relayed(C, s, es, image, after)
            && forall id, st: Assembly | id in Registered(s.clients, es) ::
                 RunBuffers(C, st, TruncateAll(R, NewBytes(s, after.value, id))) == Ran(IDLE, [image])
  {
    NumberedIsExact(C, image);
    var p := LastDatagram(C, image);
    Reassembles(C, R, image, s.st);
    assert last == Encode(p) by {
      hide Encode, EncodeAll;
      assert last == (Arrived(es) + [last])[|Arrived(es)|];
    }
    FinishesEncoded(p);
    hide RunBuffers, ServeAll, Arrived, Registered, Finishes, TruncateAll, ImageDatagrams, Encode, EncodeAll, Packets;
    RelayRun(C, s, es, last, image);
    forall st: Assembly ensures RunBuffers(C, st, ImageDatagrams(C, image)) == Ran(IDLE, [image]) {
      Reassembles(C, R, image, st);
    }
  }

  /** End to end as shipped: both receivers parse their whole buffer of K + 17 bytes. The run is defined exactly when
      the image fits; then every registered client ends with the image blanked behind the first K bytes of each chunk:
      the second hop loses nothing more. */
  lemma RelayWhole(C: Chunk, K: int, image: seq<byte>, s: ServerState, es: seq<Event>, last: seq<byte>, rbuf: seq<byte>)
    requires K >= 1 && |rbuf| == PREFIX_SIZE + K && s.open && Exact(image) && image != []
    requires Arrived(es) + [last] == Buffers(rbuf, EncodeAll(Split(C, IMAGE, image)))
    ensures var after := ServeAll(C, s, es + [Arrive(last)]);
            && (after.Some? <==> Fits(C, K, image))
            && (Fits(C, K, image) ==>
                  && Relayed(C, s, es, Blanked(C, K, image), after)
                  && forall id, st: Assembly, rb: seq<byte> | id in Registered(s.clients, es) && |rb| == |rbuf| ::
                       RunBuffers(C, st, Buffers(rb, NewBytes(s, after.value, id)))
                       == Ran(IDLE, [Blanked(C, K, image)]))
  {
    hide RunBuffers, ServeAll, Arrived, Fits, Blanked, Split, Buffers, EncodeAll, Relayed, NewBytes, Registered,
         ImageDatagrams;
    if Fits(C, K, image) {
      RelayFitting(C, K, image, s, es, last, rbuf);
    } else {
      RelayOverrun(C, K, image, s, es, last, rbuf);
    }
  }

  lemma RelayOverrun(C: Chunk, K: int, image: seq<byte>, s: ServerState, es: seq<Event>, last: seq<byte>, rbuf: seq<byte>)
    requires K >= 1 && |rbuf| == PREFIX_SIZE + K && Exact(image) && image != [] && !Fits(C, K, image)
    requires Arrived(es) + [last] == Buffers(rbuf, EncodeAll(Split(C, IMAGE, image)))
    ensures ServeAll(C, s, es + [Arrive(last)]) == None
  {
    hide RunBuffers, ServeAll, Fits, EncodeAll, Split, Buffers, Arrived, Blanked;
    WholeBuffer(C, K, image, s.st, rbuf);
    ArrivedAppend(es, [Arrive(last)]);
    ArrivedOne(last);
    ServeFails(C, s, es + [Arrive(last)]);
  }

  lemma RelayFitting(C: Chunk, K: int, image: seq<byte>, s: ServerState, es: seq<Event>, last: seq<byte>, rbuf: seq<byte>)
    requires K >= 1 && |rbuf| == PREFIX_SIZE + K && s.open && Exact(image) && Fits(C, K, image)
    requires Arrived(es) + [last] == Buffers(rbuf, EncodeAll(Split(C, IMAGE, image)))
    ensures var x, after := Blanked(C, K, image), ServeAll(C, s, es + [Arrive(last)]);
            && after.Some? && Relayed(C, s, es, x, after)
            && forall id | id in Registered(s.clients, es) :: NewBytes(s, after.value, id) == ImageDatagrams(C, x)
    ensures forall st: Assembly, rb: seq<byte> | |rb| == |rbuf| ::
              RunBuffers(C, st, Buffers(rb, ImageDatagrams(C, Blanked(C, K, image)))) == Ran(IDLE, [Blanked(C, K, image)])
  {
    WholeBuffer(C, K, image, s.st, rbuf);
    LastOfWhole(C, image, Arrived(es), last, rbuf);
    SecondHop(C, K, image);
    hide RunBuffers, ServeAll, Arrived, Fits, Blanked, Split, Buffers, EncodeAll, Relayed, NewBytes, Registered, Finishes,
         ImageDatagrams;
    RelayRun(C, s, es, last, Blanked(C, K, image));
    RelayedBytes(C, s, es, Blanked(C, K, image), ServeAll(C, s, es + [Arrive(last)]));
  }

  lemma ArrivedOne(buf: seq<byte>)
    ensures Arrived([Arrive(buf)]) == [buf]
  {
    assert [Arrive(buf)][1..] == [];
  }

  lemma RelayedBytes(C: Chunk, s: ServerState, es: seq<Event>, x: seq<byte>, after: Option<ServerState>)
    requires |x| <= 65535 * C && Relayed(C, s, es, x, after)
    ensures after.Some?
    ensures forall id | id in Registered(s.clients, es) :: NewBytes(s, after.value, id) == ImageDatagrams(C, x)
  {
    hide ImageDatagrams, Registered, Mail, Bytes;
  }

  lemma LastOfWhole(C: Chunk, image: seq<byte>, early: seq<seq<byte>>, last: seq<byte>, rbuf: seq<byte>)
    requires Exact(image) && image != [] && |rbuf| >= PREFIX_SIZE
    requires early + [last] == Buffers(rbuf, EncodeAll(Split(C, IMAGE, image)))
    ensures Finishes(last)
  {
    hide Packets, Encode, EncodeAll, Split, Finishes, Buffers, Fill, Parsed;
    var p := LastDatagram(C, image);
    var ds := EncodeAll(Split(C, IMAGE, image));
    var before := BuffersLast(rbuf, ds);
    assert last == (early + [last])[|early|];
    FillEncodes(before, p);
    ParsedHeader(before, p);
    FinishesEncoded(Parsed(before, p));
  }

  lemma ParsedHeader(rbuf: seq<byte>, p: Packet)
    requires |rbuf| >= PREFIX_SIZE
    ensures Parsed(rbuf, p).header == p.header && Parsed(rbuf, p).d_type == p.d_type
  {}

  /** The datagrams of a blanked image bring it across as it is. */
  lemma SecondHop(C: Chunk, K: int, image: seq<byte>)
    requires K >= 1 && Exact(image) && Fits(C, K, image)
    ensures var x := Blanked(C, K, image);
            forall st: Assembly, rb: seq<byte> | |rb| == PREFIX_SIZE + K ::
              RunBuffers(C, st, Buffers(rb, ImageDatagrams(C, x))) == Ran(IDLE, [x])
  {
    var x := Blanked(C, K, image);
    NumberedIsExact(C, x);
    FitsByLength(C, K, image, x);
    BlankedSame(C, K, image);
    hide RunBuffers, Buffers, EncodeAll, Split, Fits, Blanked;
    forall st: Assembly, rb: seq<byte> | |rb| == PREFIX_SIZE + K
      ensures RunBuffers(C, st, Buffers(rb, ImageDatagrams(C, x))) == Ran(IDLE, [x])
    {
      WholeBuffer(C, K, x, st, rb);
    }
  }

  // ---- The classes ----

  /** The image case of both receivers up to the flush: reset on the first packet, then one copy. */
  method AssembleChunk(C: Chunk, buffer: seq<byte>, total: u32, pkt: Packet) returns (b: seq<byte>, t: u32)
    requires Step(C, Assembly(buffer, total), pkt).Stepped?
    ensures Step(C, Assembly(buffer, total), pkt) ==
            if pkt.header.isLast == 1 then Stepped(IDLE, Some(b)) else Stepped(Assembly(b, t), None)
  {
    b, t := buffer, total;
    if pkt.header.isFirst == 1 {
      t := pkt.header.total_data_size;
      b := seq(t, _ => 0);
      assert b == Zeros(t);
    }
    var chunk_offset := ToU32((pkt.header.cur_packet_number - 1) * C);
    var copy_size := |pkt.buffer|;
    b := b[..chunk_offset] + pkt.buffer + b[chunk_offset + copy_size..];
  }

  /** AsioUdpManager. `sent` records async_send_to per client; the static assembly variables are fields here. */
  class AsioUdpManager {
    const C: Chunk
    var open: bool
    var cl_: map<u32, ClientInfo>
    var assembly_buffer: seq<byte>
    var assembly_total_size: u32
    var sent: map<u32, seq<Outgoing>>

    constructor (C: Chunk)
      ensures this.C == C && State() == ServerState(false, map[], IDLE, map[])
    {
      this.C := C;
      open := false;
      cl_ := map[];
      assembly_buffer := [];
      assembly_total_size := 0;
      sent := map[];
    }

    ghost function State(): ServerState
      reads this
    {
      ServerState(open, cl_, Assembly(assembly_buffer, assembly_total_size), sent)
    }

    method Open()
      modifies this`open
      ensures State() == old(State()).(open := true)
    {
      open := true;
    }

    method CreateClient(client_id: u32, i: ClientInfo)
      modifies this`cl_
      ensures Some(State()) == Serve(C, old(State()), Create(client_id, i))
      ensures cl_ == old(cl_)[client_id := i]
    {
      cl_ := cl_[client_id := i];
    }

    method RemoveClient(client_id: u32)
      modifies this`cl_
      ensures Some(State()) == Serve(C, old(State()), Remove(client_id))
      ensures cl_ == old(cl_) - {client_id}
    {
      if client_id in cl_ {
        cl_ := cl_ - {client_id};
      }
      assert client_id !in old(cl_) ==> old(cl_) - {client_id} == old(cl_);
    }

    /** broadCast: the loop over the registered clients, in whatever order the map yields them. */
    method BroadCast(data_type: u16, buf: seq<byte>)
      requires CanBroadcast(State(), buf)
      modifies this`sent
      ensures State() == Broadcast(C, old(State()), data_type, buf)
      ensures !open ==> sent == old(sent)
      ensures open ==>
                forall id | id in cl_ ::
                  Mailed(old(State()), State(), id, cl_[id], EncodeAll(Split(C, data_type, buf)))
      ensures forall id | id !in cl_ :: Mail(sent, id) == Mail(old(sent), id)
    {
      hide EncodeAll, Split, Outbox, Mailed, Fragments.Sendable;
      ghost var before := State();
      if open && cl_ != map[] {
        SendToAll(data_type, buf);
        forall id: u32
          ensures id in cl_ ==> Mailed(before, State(), id, cl_[id], EncodeAll(Split(C, data_type, buf)))
          ensures id !in cl_ ==> Mail(sent, id) == Mail(before.sent, id)
        {
          OutboxMails(before, State(), EncodeAll(Split(C, data_type, buf)), id);
        }
      }
    }

    method SendToAll(data_type: u16, buf: seq<byte>)
      requires Fragments.Sendable(buf)
      modifies this`sent
      ensures sent == Outbox(old(sent), cl_, EncodeAll(Split(C, data_type, buf)))
    {
      sent := SendToEach(C, cl_, sent, data_type, buf);
    }

    /** processPacket on one buffer. */
    method ProcessPacket(buf: seq<byte>)
      requires Serve(C, State(), Arrive(buf)).Some?
      modifies this
      ensures Some(State()) == Serve(C, old(State()), Arrive(buf))
      ensures |buf| >= 17 && buf[0] as int + 0x100 * (buf[1] as int) != 1337 ==> State() == old(State())
      ensures |buf| >= 17 && buf[15] as int + 0x100 * (buf[16] as int) > 1 ==> State() == old(State())
    {
      hide Step, Encode, Outbox;
      ReceiveChecks(C, State().st, buf);
      var pkt := Parse(buf);
      if pkt.header.server_hash != SERVER_HASH {
        return;
      }
      if pkt.d_type == IMAGE {
        assembly_buffer, assembly_total_size := AssembleChunk(C, assembly_buffer, assembly_total_size, pkt);
        if pkt.header.isLast == 1 {
          BroadCast(IMAGE, assembly_buffer);
          assembly_buffer := [];
          assembly_total_size := 0;
        }
      }
    }
  }

  /** The loop over the clients. */
  method SendToEach(C: Chunk, clients: map<u32, ClientInfo>, sent: map<u32, seq<Outgoing>>, data_type: u16,
                    buf: seq<byte>)
    returns (now: map<u32, seq<Outgoing>>)
    requires Fragments.Sendable(buf)
    ensures now == Outbox(sent, clients, EncodeAll(Split(C, data_type, buf)))
  {
    hide EncodeAll, Split, Packets, SentTo, Addressed, Outbox, Fragments.Sendable;
    ghost var ds := EncodeAll(Split(C, data_type, buf));
    now := sent;
    var todo := clients.Keys;
    ghost var done: set<u32> := {};
    SentToNone(sent, clients, ds);
    while todo != {}
      invariant todo !! done && todo + done == clients.Keys
      invariant now == SentTo(sent, clients, done, ds)
      decreases |todo|
    {
      var client :| client in todo;
      var target := clients[client];
      var datagrams := SendFragments(C, data_type, buf);
      SentToOneMore(sent, clients, done, client, ds);
      now := now[client := (if client in now then now[client] else []) + Addressed(target, datagrams)];
      todo := todo - {client};
      done := done + {client};
    }
    assert done == clients.Keys;
    SentToAll(sent, clients, ds);
  }

  /** The outboxes when the clients in `done` have been served. */
  function SentTo(sent: map<u32, seq<Outgoing>>, clients: map<u32, ClientInfo>, done: set<u32>, ds: seq<seq<byte>>)
    : map<u32, seq<Outgoing>>
    requires done <= clients.Keys
  {
    map id | id in sent.Keys + done ::
      (if id in sent then sent[id] else []) + (if id in done then Addressed(clients[id], ds) else [])
  }

  lemma SentToNone(sent: map<u32, seq<Outgoing>>, clients: map<u32, ClientInfo>, ds: seq<seq<byte>>)
    ensures SentTo(sent, clients, {}, ds) == sent
  {
    forall id | id in sent ensures sent[id] + [] == sent[id] {}
  }

  lemma SentToAll(sent: map<u32, seq<Outgoing>>, clients: map<u32, ClientInfo>, ds: seq<seq<byte>>)
    ensures SentTo(sent, clients, clients.Keys, ds) == Outbox(sent, clients, ds)
  {}

  lemma SentToOneMore(sent: map<u32, seq<Outgoing>>, clients: map<u32, ClientInfo>, done: set<u32>, id: u32,
                      ds: seq<seq<byte>>)
    requires done <= clients.Keys && id in clients && id !in done
    ensures var now := SentTo(sent, clients, done, ds);
            SentTo(sent, clients, done + {id}, ds) ==
            now[id := (if id in now then now[id] else []) + Addressed(clients[id], ds)]
  {
    hide Addressed;
    var b := if id in sent then sent[id] else [];
    assert b + [] == b;
  }

  // ---- The client ----

  /** BoostUdpConnection: `images` records the values of signal_update_image_. */
  class BoostUdpConnection {
    const C: Chunk
    var open: bool
    var local: Option<ClientInfo>   // what the socket is bound to
    var assembly_buffer: seq<byte>
    var assembly_total_size: u32
    var images: seq<seq<byte>>

    constructor (C: Chunk)
      ensures this.C == C && !open && local == None && Assembled() == IDLE && images == []
    {
      this.C := C;
      open := false;
      local := None;
      assembly_buffer := [];
      assembly_total_size := 0;
      images := [];
    }

    ghost function Assembled(): Assembly
      reads this
    {
      Assembly(assembly_buffer, assembly_total_size)
    }

    /** open; false stands for the exception that a socket which is open already makes the source throw. */
    method Open(addr: seq<byte>, port: u16) returns (ok: bool)
      modifies this`open, this`local
      ensures ok == !old(open) && open
      ensures local == if ok then Some(ClientInfo(addr, port)) else old(local)
    {
      if open {
        return false;
      }
      open := true;
      local := Some(ClientInfo(addr, port));
      ok := true;
    }

    /** sendData: the datagrams sent to the server. */
    method SendData(data_type: u16, buf: seq<byte>) returns (out: seq<seq<byte>>)
      requires open ==> Fragments.Sendable(buf)
      ensures out == if open then EncodeAll(Split(C, data_type, buf)) else []
    {
      if !open {
        return [];
      }
      out := SendFragments(C, data_type, buf);
    }

    /** prcsPacket on one buffer. */
    method PrcsPacket(buf: seq<byte>)
      requires Receive(C, Assembled(), buf).Stepped?
      modifies this
      ensures open == old(open) && local == old(local)
      ensures Assembled() == Receive(C, old(Assembled()), buf).st
      ensures images == old(images) + Images(Receive(C, old(Assembled()), buf).image)
      ensures |buf| >= 17 && buf[0] as int + 0x100 * (buf[1] as int) != 1337 ==>
                Assembled() == old(Assembled()) && images == old(images)
      ensures |buf| >= 17 && buf[15] as int + 0x100 * (buf[16] as int) > 1 ==>
                Assembled() == old(Assembled()) && images == old(images)
    {
      ReceiveChecks(C, Assembled(), buf);
      var pkt := Parse(buf);
      if pkt.header.server_hash != SERVER_HASH {
        return;
      }
      if pkt.d_type == IMAGE {
        assembly_buffer, assembly_total_size := AssembleChunk(C, assembly_buffer, assembly_total_size, pkt);
        if pkt.header.isLast == 1 {
          images := images + [assembly_buffer];
          assembly_buffer := [];
          assembly_total_size := 0;
        }
      }
    }
  }
}
