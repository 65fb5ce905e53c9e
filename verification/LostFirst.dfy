/** What reassembly does with a message whose first packet is lost: its chunks land in whatever buffer is there. */
module LostFirst {
  import opened Products
  import opened Wire
  import opened Packet
  import opened Fragments
  import opened Reassembly

  /** A buffer with the chunks in S of a message copied over it. */
  function Overlay(C: Chunk, buffer: seq<byte>, data: seq<byte>, S: set<nat>): (r: seq<byte>)
    ensures |r| == |buffer|
  {
    seq(|buffer|, j requires 0 <= j < |buffer| => if j < |data| && j / C in S then data[j] else buffer[j])
  }

  /** Chunk k ends inside the first n bytes. */
  predicate Inside(C: Chunk, data: seq<byte>, n: nat, k: nat) {
    k * C + Size(C, data, k) <= n
  }

  predicate AllInside(C: Chunk, data: seq<byte>, n: nat, ks: seq<nat>) {
    forall i | 0 <= i < |ks| :: Inside(C, data, n, ks[i])
  }

  lemma PasteOverlay(C: Chunk, buffer: seq<byte>, data: seq<byte>, k: nat, o: nat, size: nat)
    requires o == k * C && size <= C && o + size <= |data| && o + size <= |buffer|
    requires size < C ==> o + size == |data|
    ensures Paste(buffer, o, data[o..o + size]) == Overlay(C, buffer, data, {k})
  {
    var after := Overlay(C, buffer, data, {k});
    forall j | 0 <= j < |buffer| ensures Paste(buffer, o, data[o..o + size])[j] == after[j] {
      Quotient(j, C, k);
    }
  }

  /** A packet that is not the first one, at any buffer. */
  lemma StepOverlay(C: Chunk, data: seq<byte>, k: nat, st: Assembly)
    requires Exact(data) && 0 < k < Packets(C, data) && k < 65535
    ensures Step(C, st, Sent(C, C, data, k)) ==
            if !Inside(C, data, |st.buffer|, k) then OutOfBounds
            else if k + 1 == Packets(C, data) then Stepped(IDLE, Some(Overlay(C, st.buffer, data, {k})))
            else Stepped(Assembly(Overlay(C, st.buffer, data, {k}), st.total), None)
  {
    hide Packets, Size, Sent, Paste, ChunkOffset, Zeros, ToU16, Overlay;
    OffsetExact(C, k);
    SentShape(C, C, data, k);
    ChunkInside(C, data, k);
    if Inside(C, data, |st.buffer|, k) {
      PasteOverlay(C, st.buffer, data, k, k * C, Size(C, data, k));
    }
  }

  lemma OverlayTwice(C: Chunk, buffer: seq<byte>, data: seq<byte>, S: set<nat>, T: set<nat>)
    ensures Overlay(C, Overlay(C, buffer, data, S), data, T) == Overlay(C, buffer, data, S + T)
  {}

  lemma {:induction false} RunOverlay(C: Chunk, data: seq<byte>, ks: seq<nat>, st: Assembly)
    requires Exact(data) && Middles(C, data, ks)
    ensures Run(C, st, Pick(C, C, data, ks)) ==
            if AllInside(C, data, |st.buffer|, ks)
            then Ran(Assembly(Overlay(C, st.buffer, data, Indices(ks)), st.total), [])
            else Failed
    decreases |ks|
  {
    hide Packets, Step, Sent, Exact, Overlay, Inside;
    var ps := Pick(C, C, data, ks);
    if ks == [] {
      OverlayNothing(C, st.buffer, data);
      assert Indices(ks) == {};
    } else {
      var k := ks[0];
      StepOverlay(C, data, k, st);
      assert ps[1..] == Pick(C, C, data, ks[1..]);
      if Inside(C, data, |st.buffer|, k) {
        RunOverlay(C, data, ks[1..], Step(C, st, ps[0]).st);
        OverlayTwice(C, st.buffer, data, {k}, Indices(ks[1..]));
        assert {k} + Indices(ks[1..]) == Indices(ks) by { assert ks == [k] + ks[1..]; }
      }
    }
  }

  lemma OverlayNothing(C: Chunk, buffer: seq<byte>, data: seq<byte>)
    ensures Overlay(C, buffer, data, {}) == buffer
  {}

  /** The packets that arrive when the first one is lost: middle ones, then the last. */
  function Headless(C: Chunk, data: seq<byte>, ks: seq<nat>): seq<nat>
    requires Packets(C, data) >= 1
  {
    ks + [Packets(C, data) - 1]
  }

  lemma HeadlessInside(C: Chunk, data: seq<byte>, n: nat, ks: seq<nat>)
    requires Packets(C, data) >= 1
    ensures AllInside(C, data, n, Headless(C, data, ks))
            <==> AllInside(C, data, n, ks) && Inside(C, data, n, Packets(C, data) - 1)
  {
    hide Inside, Packets;
    var arrived := Headless(C, data, ks);
    assert arrived[|ks|] == Packets(C, data) - 1;
    assert forall i | 0 <= i < |ks| :: arrived[i] == ks[i];
  }

  /** Without its first packet, a message is copied over what the buffer holds. The run is defined exactly when every
      chunk that arrives ends inside that buffer, and then the mixture is handed on, as long as the buffer was. */
  lemma FirstLost(C: Chunk, data: seq<byte>, ks: seq<nat>, st: Assembly)
    requires Exact(data) && Middles(C, data, ks) && 2 <= Packets(C, data) <= 65535
    ensures var arrived := Headless(C, data, ks);
            Run(C, st, Pick(C, C, data, arrived)) ==
            if AllInside(C, data, |st.buffer|, arrived) then Ran(IDLE, [Overlay(C, st.buffer, data, Indices(arrived))])
            else Failed
  {
    hide Packets, Step, Sent, Exact, Overlay, Inside, Run;
    var last := Packets(C, data) - 1;
    RunOverlay(C, data, ks, st);
    var a, b := Pick(C, C, data, ks), Pick(C, C, data, [last]);
    assert Pick(C, C, data, Headless(C, data, ks)) == a + b;
    RunAppend(C, st, a, b);
    assert Indices(Headless(C, data, ks)) == Indices(ks) + {last};
    HeadlessInside(C, data, |st.buffer|, ks);
    if AllInside(C, data, |st.buffer|, ks) {
      var st1 := Run(C, st, a).st;
      StepOverlay(C, data, last, st1);
      assert b == [b[0]];
      OverlayTwice(C, st.buffer, data, Indices(ks), {last});
      if Inside(C, data, |st.buffer|, last) {
        RunOne(C, st1, b[0]);
        assert forall x: seq<byte> :: [] + [x] == [x];
      } else {
        RunFails(C, st1, b);
      }
    }
  }

  /** Between messages the buffer is empty, so that such a message always leaves it. */
  lemma FirstLostIdle(C: Chunk, data: seq<byte>, ks: seq<nat>)
    requires Exact(data) && Middles(C, data, ks) && 2 <= Packets(C, data) <= 65535
    ensures Run(C, IDLE, Pick(C, C, data, Headless(C, data, ks))) == Failed
  {
    hide Run, Packets, Size, Overlay;
    FirstLost(C, data, ks, IDLE);
    var arrived := Headless(C, data, ks);
    var last := arrived[|ks|];
    ChunkInside(C, data, last);
    assert !Inside(C, data, 0, last);
  }

  /** After an abandoned message of n bytes, the message comes out right exactly when it has n bytes too and agrees,
      outside the chunks that arrive, with what the abandoned one has left; otherwise the two are mixed. */
  lemma FirstLostExactly(C: Chunk, data: seq<byte>, ks: seq<nat>, st: Assembly)
    requires Exact(data) && Middles(C, data, ks) && 2 <= Packets(C, data) <= 65535
    ensures var arrived := Headless(C, data, ks);
            Run(C, st, Pick(C, C, data, arrived)) == Ran(IDLE, [data]) <==>
            |st.buffer| == |data|
            && forall j | 0 <= j < |data| && j / C !in Indices(arrived) :: st.buffer[j] == data[j]
  {
    var arrived := Headless(C, data, ks);
    FirstLost(C, data, ks, st);
    hide Run, Packets, Size, Exact, Indices, Middles;
    var S := Indices(arrived);
    if |st.buffer| == |data| {
      ArrivedInside(C, data, ks);
      OverlayIs(C, st.buffer, data, S);
    }
  }

  lemma ArrivedInside(C: Chunk, data: seq<byte>, ks: seq<nat>)
    requires Exact(data) && Middles(C, data, ks) && 2 <= Packets(C, data)
    ensures AllInside(C, data, |data|, Headless(C, data, ks))
  {
    hide Packets, Size;
    var arrived := Headless(C, data, ks);
    forall i | 0 <= i < |arrived| ensures Inside(C, data, |data|, arrived[i]) {
      ChunkInside(C, data, arrived[i]);
    }
  }

  lemma OverlayIs(C: Chunk, buffer: seq<byte>, data: seq<byte>, S: set<nat>)
    requires |buffer| == |data|
    ensures Overlay(C, buffer, data, S) == data
            <==> forall j | 0 <= j < |data| && j / C !in S :: buffer[j] == data[j]
  {
    var r := Overlay(C, buffer, data, S);
    forall j | 0 <= j < |data| ensures r[j] == if j / C in S then data[j] else buffer[j] {}
  }

  /** An abandoned message, then one without its first packet: the image has the length of the first and bytes of both. */
  lemma AbandonedThenHeadless(C: Chunk, a: Transmission, data: seq<byte>, ks: seq<nat>, st: Assembly)
    requires ValidTransmission(C, a) && !a.lastArrives
    requires Exact(data) && Middles(C, data, ks) && 2 <= Packets(C, data) <= 65535
    ensures var arrived := Headless(C, data, ks);
            Run(C, st, Arrivals(C, a) + Pick(C, C, data, arrived)) ==
            if AllInside(C, data, |a.data|, arrived)
            then Ran(IDLE, [Overlay(C, Expected(C, a), data, Indices(arrived))])
            else Failed
  {
    TransmissionExact(C, a);
    ArrivingBounds(C, a);
    IndicesJoin(a.middles, 0);
    hide Run, Packets, Exact, Overlay, Pick, Patch, Middles, Indices;
    assert [0] + a.middles + [] == [0] + a.middles;
    Unfinished(C, a);
    RunUnfinished(C, C, a.data, a.middles, st);
    var st1 := Run(C, st, Arrivals(C, a)).st;
    FirstLost(C, data, ks, st1);
    RunAppend(C, st, Arrivals(C, a), Pick(C, C, data, Headless(C, data, ks)));
  }

  lemma Unfinished(C: Chunk, a: Transmission)
    requires ValidTransmission(C, a) && !a.lastArrives
    ensures Packets(C, a.data) >= 2 && Arriving(C, a) == [0] + a.middles
    ensures Indices([0] + a.middles) == {0} + Indices(a.middles)
  {
    TransmissionExact(C, a);
    hide Packets, Exact;
  }

  // ---- Many messages, any packets lost ----

  /** One message on its way: whether its first packet arrives, the middle ones that do, whether its last one does. */
  datatype Partial = Partial(data: seq<byte>, first: bool, middles: seq<nat>, last: bool)

  predicate ValidPartial(C: Chunk, t: Partial) {
    && 1 <= |t.data| <= 65535 * C
    && Middles(C, t.data, t.middles)
    && (Packets(C, t.data) == 1 ==> t.middles == [] && t.first == t.last)
  }

  lemma PartialExact(C: Chunk, t: Partial)
    requires ValidPartial(C, t)
    ensures Exact(t.data) && 1 <= Packets(C, t.data) <= 65535
  {
    NumberedIsExact(C, t.data);
    CountBounds(C, Total(t.data));
  }

  /** The indices of the packets that arrive. */
  function Arrived(C: Chunk, t: Partial): (ks: seq<nat>)
    requires ValidPartial(C, t)
    ensures forall i | 0 <= i < |ks| :: ks[i] < Packets(C, t.data)
  {
    PartialExact(C, t);
    if Packets(C, t.data) == 1 then if t.first then [0] else []
    else (if t.first then [0] else []) + t.middles + if t.last then [Packets(C, t.data) - 1] else []
  }

  function AllArrived(C: Chunk, ts: seq<Partial>): seq<Packet>
    requires forall i | 0 <= i < |ts| :: ValidPartial(C, ts[i])
  {
    if ts == [] then []
    else
      PartialExact(C, ts[0]);
      Pick(C, C, ts[0].data, Arrived(C, ts[0])) + AllArrived(C, ts[1..])
  }

  /** The buffer after one message: its own when its first packet arrives, else the earlier one with its chunks over it. */
  function Landed(C: Chunk, buffer: seq<byte>, t: Partial): seq<byte>
    requires ValidPartial(C, t)
  {
    if t.first then Patch(C, C, t.data, Indices(Arrived(C, t))) else Overlay(C, buffer, t.data, Indices(Arrived(C, t)))
  }

  /** The message stays inside a buffer of n bytes, or brings its own. */
  predicate Lands(C: Chunk, n: nat, t: Partial)
    requires ValidPartial(C, t)
  {
    t.first || AllInside(C, t.data, n, Arrived(C, t))
  }

  /** The size of the buffer that one message leaves behind. */
  function SizeAfter(n: nat, t: Partial): nat {
    if t.last then 0 else if t.first then |t.data| else n
  }

  /** Every message without a first packet stays inside the last buffer that was begun and not yet handed on. */
  predicate AllLand(C: Chunk, n: nat, ts: seq<Partial>)
    requires forall i | 0 <= i < |ts| :: ValidPartial(C, ts[i])
    decreases |ts|
  {
    ts == [] || (Lands(C, n, ts[0]) && AllLand(C, SizeAfter(n, ts[0]), ts[1..]))
  }

  /** What is handed on: for every last packet the buffer as it then is. */
  function LandedImages(C: Chunk, buffer: seq<byte>, ts: seq<Partial>): seq<seq<byte>>
    requires forall i | 0 <= i < |ts| :: ValidPartial(C, ts[i])
    decreases |ts|
  {
    if ts == [] then []
    else
      var landed := Landed(C, buffer, ts[0]);
      if ts[0].last then [landed] + LandedImages(C, [], ts[1..]) else LandedImages(C, landed, ts[1..])
  }

  lemma LandedSize(C: Chunk, buffer: seq<byte>, t: Partial)
    requires ValidPartial(C, t)
    ensures |Landed(C, buffer, t)| == if t.first then |t.data| else |buffer|
  {
    hide Arrived;
  }

  /** What one message leaves of any state. */
  ghost predicate Outcome(C: Chunk, t: Partial, st: Assembly, r: RunResult)
    requires ValidPartial(C, t)
  {
    if Lands(C, |st.buffer|, t) then
      && r.Ran? && r.st.buffer == (if t.last then [] else Landed(C, st.buffer, t))
      && r.images == if t.last then [Landed(C, st.buffer, t)] else []
    else r == Failed
  }

  lemma RunPartial(C: Chunk, t: Partial, st: Assembly)
    requires ValidPartial(C, t)
    ensures Exact(t.data)
    ensures Outcome(C, t, st, Run(C, st, Pick(C, C, t.data, Arrived(C, t))))
  {
    PartialExact(C, t);
    hide Packets, Exact, Pick, Run, Middles, Outcome, Arrived;
    if Packets(C, t.data) == 1 {
      RunOnly(C, t, st);
    } else if t.first {
      RunWithFirst(C, t, st);
    } else {
      RunWithoutFirst(C, t, st);
    }
  }

  lemma RunOnly(C: Chunk, t: Partial, st: Assembly)
    requires ValidPartial(C, t) && Exact(t.data) && Packets(C, t.data) == 1
    ensures Outcome(C, t, st, Run(C, st, Pick(C, C, t.data, Arrived(C, t))))
  {
    hide Packets, Exact, Patch, Pick, Run, Middles, Indices, Overlay, AllInside;
    IndicesJoin([], 0);
    if t.first { RunSingle(C, C, t.data, st); } else { RunNone(C, t.data, st); }
  }

  lemma RunWithFirst(C: Chunk, t: Partial, st: Assembly)
    requires ValidPartial(C, t) && Exact(t.data) && 2 <= Packets(C, t.data) <= 65535 && t.first
    ensures Outcome(C, t, st, Run(C, st, Pick(C, C, t.data, Arrived(C, t))))
  {
    hide Packets, Exact, Patch, Pick, Run, Middles, Indices, Overlay, AllInside, Arrived;
    WithFirst(C, t);
    if t.last { RunComplete(C, C, t.data, t.middles, st); } else { RunUnfinished(C, C, t.data, t.middles, st); }
  }

  lemma WithFirst(C: Chunk, t: Partial)
    requires ValidPartial(C, t) && 2 <= Packets(C, t.data) && t.first
    ensures Arrived(C, t) == if t.last then [0] + t.middles + [Packets(C, t.data) - 1] else [0] + t.middles
    ensures Indices(Arrived(C, t)) ==
            if t.last then {0} + Indices(t.middles) + {Packets(C, t.data) - 1} else {0} + Indices(t.middles)
  {
    hide Packets;
    IndicesJoin(t.middles, Packets(C, t.data) - 1);
    assert [0] + t.middles + [] == [0] + t.middles;
  }

  lemma RunWithoutFirst(C: Chunk, t: Partial, st: Assembly)
    requires ValidPartial(C, t) && Exact(t.data) && 2 <= Packets(C, t.data) <= 65535 && !t.first
    ensures Outcome(C, t, st, Run(C, st, Pick(C, C, t.data, Arrived(C, t))))
  {
    hide Packets, Exact, Patch, Pick, Run, Middles, Indices, Overlay, AllInside, Arrived, Headless;
    WithoutFirst(C, t);
    if t.last { FirstLost(C, t.data, t.middles, st); } else { RunOverlay(C, t.data, t.middles, st); }
  }

  lemma WithoutFirst(C: Chunk, t: Partial)
    requires ValidPartial(C, t) && 2 <= Packets(C, t.data) && !t.first
    ensures Arrived(C, t) == if t.last then Headless(C, t.data, t.middles) else t.middles
  {
    hide Packets;
    assert [] + t.middles == t.middles && t.middles + [] == t.middles;
  }

  lemma RunNone(C: Chunk, data: seq<byte>, st: Assembly)
    requires Exact(data)
    ensures Run(C, st, Pick(C, C, data, [])) == Ran(st, []) && AllInside(C, data, |st.buffer|, [])
    ensures Overlay(C, st.buffer, data, Indices([])) == st.buffer
  {
    hide Exact, Packets;
    OverlayNothing(C, st.buffer, data);
    assert Indices([]) == {};
  }

  /** Over any list of messages with any packets lost: the run is defined exactly when every message without a first
      packet stays inside the buffer that an earlier one has left, and the images are the buffers at the last packets. */
  lemma {:induction false} AnyLost(C: Chunk, ts: seq<Partial>, st: Assembly)
    requires forall i | 0 <= i < |ts| :: ValidPartial(C, ts[i])
    ensures var r := Run(C, st, AllArrived(C, ts));
            (r.Ran? <==> AllLand(C, |st.buffer|, ts)) && (r.Ran? ==> r.images == LandedImages(C, st.buffer, ts))
    decreases |ts|
  {
    hide ValidPartial, Arrived, Lands, Landed, Exact;
    if ts != [] {
      var t, rest := ts[0], ts[1..];
      RunPartial(C, t, st);
      LandedSize(C, st.buffer, t);
      var a := Pick(C, C, t.data, Arrived(C, t));
      RunAppend(C, st, a, AllArrived(C, rest));
      if Lands(C, |st.buffer|, t) {
        AnyLost(C, rest, Run(C, st, a).st);
      }
    }
  }

  /** 1 2 3 abandoned after its first byte, then 4 5 6 without its first: 1 5 6 is handed on. */
  lemma Mixture(st: Assembly)
    ensures var a, b := Transmission([1, 2, 3], [], false), [4, 5, 6];
            && ValidTransmission(1, a) && Exact(b) && Packets(1, b) == 3
            && Run(1, st, Arrivals(1, a) + Pick(1, 1, b, [1, 2])) == Ran(IDLE, [[1, 5, 6]])
  {
    ThreeBytes([1, 2, 3]);
    ThreeBytes([4, 5, 6]);
    hide Run, Arrivals, Arriving, Packets, Exact;
    var a, b: seq<byte> := Transmission([1, 2, 3], [], false), [4, 5, 6];
    assert Headless(1, b, [1]) == [1, 2];
    AbandonedThenHeadless(1, a, b, [1], st);
    ExpectedBytes(1, a, 0);
    OverlayThree(Expected(1, a), b);
    ArrivedInside(1, b, [1]);
  }

  lemma ThreeBytes(d: seq<byte>)
    requires |d| == 3
    ensures Exact(d) && Packets(1, d) == 3
    ensures Arriving(1, Transmission(d, [], false)) == [0]
  {}

  lemma OverlayThree(a: seq<byte>, b: seq<byte>)
    requires |a| == |b| == 3
    ensures Overlay(1, a, b, Indices([1, 2])) == [a[0], b[1], b[2]]
  {
    assert Indices([1, 2]) == {1, 2};
  }
}
