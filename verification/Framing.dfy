/** Length-prefixed frames on a byte stream, independent of how the stream is cut. */
module Framing {
  import opened Wire

  /** What doSend and asyncWrite put on the wire for one serialized packet. */
  function Frame(body: seq<byte>): (f: seq<byte>)
    ensures |f| == 4 + |body|
  {
    Le32(ToU32(|body|)) + body
  }

  function Frames(bodies: seq<seq<byte>>): seq<byte> {
    if bodies == [] then [] else Frame(bodies[0]) + Frames(bodies[1..])
  }

  /** Bodies delivered so far and the bytes not yet consumed by a whole frame. */
  datatype Progress = Progress(bodies: seq<seq<byte>>, rest: seq<byte>)

  /** The first frame of a stream is complete. */
  predicate Complete(s: seq<byte>) {
    |s| >= 4 && |s| >= 4 + FromLe32(s[..4])
  }

  function FirstBody(s: seq<byte>): seq<byte>
    requires Complete(s)
  {
    s[4..4 + FromLe32(s[..4])]
  }

  function AfterFirst(s: seq<byte>): (r: seq<byte>)
    requires Complete(s)
    ensures |r| < |s|
  {
    s[4 + FromLe32(s[..4])..]
  }

  /** Size, body, size, body, ... as long as both are complete. */
  function Deframe(s: seq<byte>): Progress
    decreases |s|
  {
    if !Complete(s) then Progress([], s)
    else
      var p := Deframe(AfterFirst(s));
      Progress([FirstBody(s)] + p.bodies, p.rest)
  }

  function Feed(p: Progress, segment: seq<byte>): Progress {
    var q := Deframe(p.rest + segment);
    Progress(p.bodies + q.bodies, q.rest)
  }

  function FeedAll(p: Progress, segments: seq<seq<byte>>): Progress
    decreases |segments|
  {
    if segments == [] then p else FeedAll(Feed(p, segments[0]), segments[1..])
  }

  function Concat(segments: seq<seq<byte>>): seq<byte> {
    if segments == [] then [] else segments[0] + Concat(segments[1..])
  }

  // ---- Segmentation does not matter ----

  lemma CompleteExtends(s: seq<byte>, t: seq<byte>)
    requires Complete(s)
    ensures Complete(s + t) && FirstBody(s + t) == FirstBody(s) && AfterFirst(s + t) == AfterFirst(s) + t
  {
    hide FromLe32;
    assert (s + t)[..4] == s[..4];
  }

  lemma FeedAfter(body: seq<byte>, p: Progress, t: seq<byte>)
    ensures Feed(Progress([body] + p.bodies, p.rest), t) == Progress([body] + Feed(p, t).bodies, Feed(p, t).rest)
  {
    hide Deframe;
    assert ([body] + p.bodies) + Deframe(p.rest + t).bodies == [body] + (p.bodies + Deframe(p.rest + t).bodies);
  }

  lemma {:induction false} DeframeExtends(s: seq<byte>, t: seq<byte>)
    ensures Deframe(s + t) == Feed(Deframe(s), t)
    decreases |s|
  {
    hide Complete, FirstBody, AfterFirst, Feed;
    if Complete(s) {
      CompleteExtends(s, t);
      DeframeExtends(AfterFirst(s), t);
      FeedAfter(FirstBody(s), Deframe(AfterFirst(s)), t);
    } else {
      FeedEmpty(s, t);
    }
  }

  lemma FeedEmpty(s: seq<byte>, t: seq<byte>)
    ensures Feed(Progress([], s), t) == Deframe(s + t)
  {
    hide Deframe;
    assert [] + Deframe(s + t).bodies == Deframe(s + t).bodies;
  }

  lemma {:induction false} FeedAllIsDeframe(s: seq<byte>, segments: seq<seq<byte>>)
    ensures FeedAll(Deframe(s), segments) == Deframe(s + Concat(segments))
    decreases |segments|
  {
    hide Deframe, Feed;
    if segments == [] {
      assert s + [] == s;
    } else {
      DeframeExtends(s, segments[0]);
      FeedAllIsDeframe(s + segments[0], segments[1..]);
      assert s + Concat(segments) == (s + segments[0]) + Concat(segments[1..]);
    }
  }

  // ---- Frames are delivered in order and whole ----

  lemma FrameSize(body: seq<byte>, t: seq<byte>)
    ensures (Frame(body) + t)[..4] == Le32(ToU32(|body|))
    ensures FromLe32((Frame(body) + t)[..4]) == ToU32(|body|)
  {
    Le32RoundTrip(ToU32(|body|), []);
    hide Le32, FromLe32;
    assert (Frame(body) + t)[..4] == Le32(ToU32(|body|));
  }

  /** A frame is the size of its body modulo 2^32, low byte first, and the body. */
  lemma FrameLayout(body: seq<byte>)
    ensures var f := Frame(body);
            && f[0] as int + 0x100 * (f[1] as int) + 0x1_0000 * (f[2] as int) + 0x100_0000 * (f[3] as int)
               == |body| % 0x1_0000_0000
            && f[4..] == body
  {
    Le32Places(ToU32(|body|));
    hide Le32;
  }

  lemma FrameComplete(body: seq<byte>, t: seq<byte>)
    requires |body| < MAX32
    ensures Complete(Frame(body) + t) && FirstBody(Frame(body) + t) == body && AfterFirst(Frame(body) + t) == t
  {
    hide Le32, FromLe32;
    FrameSize(body, t);
    assert (Frame(body) + t)[4..4 + |body|] == body;
    assert (Frame(body) + t)[4 + |body|..] == t;
  }

  /** One frame is delivered as sent exactly when its length fits in the 32-bit prefix. */
  lemma FrameRoundTrip(body: seq<byte>)
    ensures Deframe(Frame(body)) == Progress([body], []) <==> |body| < MAX32
  {
    var f := Frame(body);
    assert f + [] == f;
    hide Frame, Le32, FromLe32;
    FrameSize(body, []);
    if |body| < MAX32 {
      FrameComplete(body, []);
      assert Deframe([]) == Progress([], []);
    } else if Complete(f) {
      assert |Deframe(f).bodies[0]| == ToU32(|body|) < |body|;
    }
  }

  /** A proper prefix of a frame is not complete. */
  lemma PartialFrame(body: seq<byte>, t: seq<byte>, s: seq<byte>)
    requires |body| < MAX32 && s <= Frame(body) + t && |s| < |Frame(body)|
    ensures !Complete(s)
  {
    hide Le32, FromLe32;
    if |s| >= 4 {
      FrameSize(body, t);
      assert s[..4] == (Frame(body) + t)[..4];
    }
  }

  /** Where a received prefix of the stream of `bodies` stands: k bodies are out, the rest of the
      prefix is a beginning, never the whole, of the next frame. */
  ghost predicate StandsAt(bodies: seq<seq<byte>>, received: seq<byte>, k: nat) {
    var p := Deframe(received);
    && k <= |bodies|
    && p.bodies == bodies[..k]
    && received == Frames(bodies[..k]) + p.rest
    && p.rest <= Frames(bodies[k..])
    && (k == |bodies| ==> p.rest == [])
    && (k < |bodies| ==> |p.rest| < |Frame(bodies[k])|)
  }

  lemma StandsAtStart(bodies: seq<seq<byte>>, received: seq<byte>)
    requires forall b | b in bodies :: |b| < MAX32
    requires received <= Frames(bodies)
    requires bodies == [] || |received| < |Frame(bodies[0])|
    ensures StandsAt(bodies, received, 0)
  {
    assert bodies[0..] == bodies && bodies[..0] == [];
    if bodies == [] {
      assert received == [];
    } else {
      PartialFrame(bodies[0], Frames(bodies[1..]), received);
    }
    assert Frames([]) + received == received;
  }

  lemma StandsAtLater(bodies: seq<seq<byte>>, tail: seq<byte>, k: nat)
    requires bodies != [] && |bodies[0]| < MAX32
    requires StandsAt(bodies[1..], tail, k)
    ensures StandsAt(bodies, Frame(bodies[0]) + tail, k + 1)
  {
    hide Frame, Complete, FirstBody, AfterFirst;
    var body := bodies[0];
    FrameComplete(body, tail);
    var p, q := Deframe(tail), Deframe(Frame(body) + tail);
    assert q == Progress([body] + p.bodies, p.rest);
    assert bodies[..k + 1] == [body] + bodies[1..][..k];
    assert bodies[k + 1..] == bodies[1..][k..];
    assert bodies[..k + 1][1..] == bodies[1..][..k];
    assert Frames(bodies[..k + 1]) == Frame(body) + Frames(bodies[1..][..k]);
  }

  /** Every prefix of a stream of frames stands at some frame. */
  lemma {:induction false} PrefixStands(bodies: seq<seq<byte>>, received: seq<byte>) returns (k: nat)
    requires forall b | b in bodies :: |b| < MAX32
    requires received <= Frames(bodies)
    ensures StandsAt(bodies, received, k)
    decreases |bodies|
  {
    if bodies == [] || |received| < |Frame(bodies[0])| {
      StandsAtStart(bodies, received);
      k := 0;
    } else {
      var f := Frame(bodies[0]);
      var tail := received[|f|..];
      assert received == f + tail;
      assert tail <= Frames(bodies[1..]);
      hide StandsAt;
      var k' := PrefixStands(bodies[1..], tail);
      StandsAtLater(bodies, tail, k');
      k := k' + 1;
    }
  }

  /** For every list of bodies and every cut of a prefix of their stream into arrivals, the delivered bodies
      are the first ones sent, and all of them once the stream has arrived. */
  lemma Delivery(bodies: seq<seq<byte>>, segments: seq<seq<byte>>) returns (k: nat)
    requires forall b | b in bodies :: |b| < MAX32
    requires Concat(segments) <= Frames(bodies)
    ensures StandsAt(bodies, Concat(segments), k)
    ensures FeedAll(Progress([], []), segments) == Deframe(Concat(segments))
    ensures Concat(segments) == Frames(bodies) <==> k == |bodies|
  {
    var received := Concat(segments);
    assert Deframe([]) == Progress([], []);
    FeedAllIsDeframe([], segments);
    assert [] + received == received;
    k := PrefixStands(bodies, received);
    assert bodies[..|bodies|] == bodies;
    if k < |bodies| && received == Frames(bodies) {
      assert Frames(bodies) == Frames(bodies[..k]) + Deframe(received).rest;
      FramesSplit(bodies, k);
      RestShorter(bodies, k, Deframe(received).rest);
    }
  }

  lemma {:induction false} FramesSplit(bodies: seq<seq<byte>>, k: nat)
    requires k <= |bodies|
    ensures Frames(bodies) == Frames(bodies[..k]) + Frames(bodies[k..])
    decreases k
  {
    if k == 0 {
      assert bodies[0..] == bodies;
    } else {
      FramesSplit(bodies[1..], k - 1);
      assert bodies[..k][1..] == bodies[1..][..k - 1];
      assert bodies[1..][k - 1..] == bodies[k..];
    }
  }

  lemma RestShorter(bodies: seq<seq<byte>>, k: nat, rest: seq<byte>)
    requires k < |bodies| && |rest| < |Frame(bodies[k])|
    ensures |rest| < |Frames(bodies[k..])|
  {
    assert bodies[k..][0] == bodies[k];
  }
}
