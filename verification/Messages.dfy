/** The message bodies of GroupData.h.

A deserializer gets a bare pointer; a read past the memory behind it is the outcome None. */
module Messages {
  import opened Wire

  type Double = b: seq<byte> | |b| == 8 witness [0, 0, 0, 0, 0, 0, 0, 0]

  datatype TestMessage = TestMessage(message: seq<byte>)
  datatype FirstData = FirstData(client_addr: seq<byte>, client_port: u16)
  datatype TestStruct = TestStruct(a: seq<byte>, b: i32, c: Double, d: seq<i32>)

  function Read(buf: seq<byte>, offset: nat, n: nat): (r: Option<seq<byte>>)
    ensures r.Some? ==> |r.value| == n
  {
    if offset + n <= |buf| then Some(buf[offset..offset + n]) else None
  }

  lemma ReadMiddle(x: seq<byte>, y: seq<byte>, z: seq<byte>)
    ensures Read(x + y + z, |x|, |y|) == Some(y)
    ensures Read(x + (y + z), |x|, |y|) == Some(y)
  {
    assert (x + y + z)[|x|..|x| + |y|] == y;
    assert x + (y + z) == x + y + z;
  }

  // ---- Length-prefixed strings ----

  function EncodeString(s: seq<byte>): seq<byte> {
    Be32(ToU32(|s|)) + s
  }

  function DecodeString(buf: seq<byte>): Option<seq<byte>> {
    match Read(buf, 0, 4)
    case None => None
    case Some(l) => Read(buf, 4, FromBe32(l))
  }

  lemma StringPrefix(s: seq<byte>, tail: seq<byte>)
    ensures Read(EncodeString(s) + tail, 0, 4) == Some(Be32(ToU32(|s|)))
  {
    var l := Be32(ToU32(|s|));
    assert EncodeString(s) + tail == [] + l + (s + tail);
    ReadMiddle([], l, s + tail);
  }

  /** The length survives exactly when it fits in the 32-bit prefix. */
  lemma StringRoundTrip(s: seq<byte>, tail: seq<byte>)
    ensures DecodeString(EncodeString(s) + tail) == Some(s) <==> |s| < MAX32
  {
    hide Be32, FromBe32;
    var n := ToU32(|s|);
    StringPrefix(s, tail);
    Be32RoundTrip(n, []);
    if |s| < MAX32 {
      ReadMiddle(Be32(n), s, tail);
    }
  }

  // ---- TestMessage ----

  function EncodeTestMessage(m: TestMessage): seq<byte> {
    EncodeString(m.message)
  }

  function DecodeTestMessage(buf: seq<byte>): Option<TestMessage> {
    match DecodeString(buf)
    case None => None
    case Some(s) => Some(TestMessage(s))
  }

  /** A message is read back, whatever follows it, exactly when its length fits in 32 bits. */
  lemma TestMessageRoundTrip(m: TestMessage, tail: seq<byte>)
    ensures DecodeTestMessage(EncodeTestMessage(m) + tail) == Some(m) <==> |m.message| < MAX32
  {
    StringRoundTrip(m.message, tail);
  }

  // ---- FirstData ----

  function EncodeFirstData(f: FirstData): seq<byte> {
    EncodeString(f.client_addr) + Le16(f.client_port)
  }

  /** The port is read at a 32-bit offset, which wraps for addresses of 2^32 - 4 bytes or more. */
  function DecodeFirstData(buf: seq<byte>): Option<FirstData> {
    match DecodeString(buf)
    case None => None
    case Some(s) =>
      match Read(buf, ToU32(4 + |s|), 2)
      case None => None
      case Some(p) => Some(FirstData(s, FromLe16(p)))
  }

  /** The port bytes a wrapped offset finds at the start of the encoding. */
  function WrappedPort(f: FirstData): u16
    requires MAX32 - 4 <= |f.client_addr| < MAX32
  {
    var o := |f.client_addr| + 4 - MAX32;
    FromLe16(EncodeFirstData(f)[o..o + 2])
  }

  /** An address and port are read back exactly when the offset of the port does not wrap,
      or wraps onto two bytes that happen to spell the port. */
  lemma FirstDataRoundTrip(f: FirstData, tail: seq<byte>)
    ensures DecodeFirstData(EncodeFirstData(f) + tail) == Some(f) <==>
            |f.client_addr| < MAX32 - 4 || (|f.client_addr| < MAX32 && WrappedPort(f) == f.client_port)
  {
    hide EncodeString, DecodeString, Le16, FromLe16, Read;
    var s, p := EncodeString(f.client_addr), Le16(f.client_port);
    var buf := EncodeFirstData(f) + tail;
    assert buf == s + (p + tail);
    StringRoundTrip(f.client_addr, p + tail);
    if |f.client_addr| < MAX32 {
      EncodeStringSize(f.client_addr);
      if |f.client_addr| < MAX32 - 4 {
        ReadMiddle(s, p, tail);
        Le16RoundTrip(f.client_port, []);
      } else {
        var o := |f.client_addr| + 4 - MAX32;
        ReadInside(EncodeFirstData(f), tail, o, 2);
      }
    } else {
      NoneOrOther(f, buf);
    }
  }

  lemma EncodeStringSize(s: seq<byte>)
    ensures |EncodeString(s)| == 4 + |s|
  {}

  lemma ReadInside(x: seq<byte>, tail: seq<byte>, o: nat, n: nat)
    requires o + n <= |x|
    ensures Read(x + tail, o, n) == Some(x[o..o + n])
  {
    assert (x + tail)[o..o + n] == x[o..o + n];
  }

  lemma NoneOrOther(f: FirstData, buf: seq<byte>)
    requires DecodeString(buf) != Some(f.client_addr)
    ensures DecodeFirstData(buf) != Some(f)
  {}

  // ---- TestStruct ----

  function EncodeInts(d: seq<i32>): (b: seq<byte>)
    ensures |b| == 4 * |d|
  {
    if d == [] then [] else Be32(Unsigned(d[0])) + EncodeInts(d[1..])
  }

  function EncodeTestStruct(t: TestStruct): seq<byte> {
    EncodeString(t.a) + (Be32(Unsigned(t.b)) + (t.c + (Be32(ToU32(|t.d|)) + EncodeInts(t.d))))
  }

  function DecodeInts(buf: seq<byte>, offset: u32, n: nat): Option<seq<i32>>
    decreases n
  {
    if n == 0 then Some([])
    else
      match Read(buf, offset, 4)
      case None => None
      case Some(w) =>
        match DecodeInts(buf, ToU32(offset + 4), n - 1)
        case None => None
        case Some(rest) => Some([Signed(FromBe32(w))] + rest)
  }

  /** All offsets are 32-bit and wrap. */
  function DecodeTestStruct(buf: seq<byte>): Option<TestStruct> {
    match DecodeString(buf)
    case None => None
    case Some(a) =>
      var ob := ToU32(4 + |a|);
      var oc := ToU32(ob + 4);
      var on := ToU32(oc + 8);
      match (Read(buf, ob, 4), Read(buf, oc, 8), Read(buf, on, 4))
      case (Some(b), Some(c), Some(n)) =>
        (match DecodeInts(buf, ToU32(on + 4), FromBe32(n))
         case None => None
         case Some(d) => Some(TestStruct(a, Signed(FromBe32(b)), c, d)))
      case _ => None
  }

  lemma {:induction false} DecodeIntsSize(buf: seq<byte>, offset: u32, n: nat)
    ensures DecodeInts(buf, offset, n).Some? ==> |DecodeInts(buf, offset, n).value| == n
    decreases n
  {
    if n > 0 { DecodeIntsSize(buf, ToU32(offset + 4), n - 1); }
  }

  /** A 32-bit offset finds the w bytes at u: it does not wrap, or wraps onto equal bytes. */
  predicate Found(e: seq<byte>, u: nat, w: nat) {
    u + w <= |e| && e[u % MAX32..u % MAX32 + w] == e[u..u + w]
  }

  predicate IntFound(t: TestStruct, i: nat) {
    Found(EncodeTestStruct(t), 20 + |t.a| + 4 * i, 4)
  }

  /** Every field behind the string is found. */
  predicate FieldsFound(t: TestStruct) {
    var e, o := EncodeTestStruct(t), 4 + |t.a|;
    && Found(e, o, 4) && Found(e, o + 4, 8) && Found(e, o + 12, 4)
    && forall i | 0 <= i < |t.d| :: IntFound(t, i)
  }

  lemma WordIs(w: seq<byte>, x: i32)
    requires |w| == 4
    ensures Signed(FromBe32(w)) == x <==> w == Be32(Unsigned(x))
  {
    hide Be32, FromBe32, Signed, Unsigned;
    Be32RoundTrip(Unsigned(x), w);
    SignRoundTrip(x, FromBe32(w));
  }

  lemma ReadFound(e: seq<byte>, tail: seq<byte>, u: nat, w: nat, f: seq<byte>)
    requires u + w <= |e| && e[u..u + w] == f
    ensures Read(e + tail, u % MAX32, w) == Some(f) <==> Found(e, u, w)
  {
    ReadInside(e, tail, u % MAX32, w);
  }

  predicate IntRead(buf: seq<byte>, u: nat, x: i32) {
    Read(buf, u % MAX32, 4) == Some(Be32(Unsigned(x)))
  }

  /** The vector is read back exactly when every element is. */
  lemma {:induction false} IntsRead(buf: seq<byte>, u: nat, d: seq<i32>)
    ensures DecodeInts(buf, u % MAX32, |d|) == Some(d) <==> forall i | 0 <= i < |d| :: IntRead(buf, u + 4 * i, d[i])
    decreases |d|
  {
    hide Be32, FromBe32, Read, Signed, Unsigned, IntRead, DecodeInts;
    if d == [] {
      NoInts(buf, u % MAX32);
    } else {
      IntsRead(buf, u + 4, d[1..]);
      FirstRead(buf, u, d);
      AllAfterFirst(buf, u, d);
    }
  }

  lemma NoInts(buf: seq<byte>, offset: u32)
    ensures DecodeInts(buf, offset, 0) == Some([])
  {}

  lemma AllAfterFirst(buf: seq<byte>, u: nat, d: seq<i32>)
    requires d != []
    ensures (forall i | 0 <= i < |d| :: IntRead(buf, u + 4 * i, d[i]))
            <==> IntRead(buf, u, d[0]) && forall i | 0 <= i < |d[1..]| :: IntRead(buf, u + 4 + 4 * i, d[1..][i])
  {
    hide IntRead;
    if forall i | 0 <= i < |d| :: IntRead(buf, u + 4 * i, d[i]) {
      assert IntRead(buf, u + 4 * 0, d[0]);
      forall i | 0 <= i < |d[1..]| ensures IntRead(buf, u + 4 + 4 * i, d[1..][i]) {
        assert IntRead(buf, u + 4 * (i + 1), d[i + 1]);
      }
    }
    if IntRead(buf, u, d[0]) && forall i | 0 <= i < |d[1..]| :: IntRead(buf, u + 4 + 4 * i, d[1..][i]) {
      forall i | 0 <= i < |d| ensures IntRead(buf, u + 4 * i, d[i]) {
        if i > 0 { assert IntRead(buf, u + 4 + 4 * (i - 1), d[1..][i - 1]); }
      }
    }
  }

  lemma FirstRead(buf: seq<byte>, u: nat, d: seq<i32>)
    requires d != []
    ensures DecodeInts(buf, u % MAX32, |d|) == Some(d)
            <==> IntRead(buf, u, d[0]) && DecodeInts(buf, (u + 4) % MAX32, |d| - 1) == Some(d[1..])
  {
    hide Be32, FromBe32, Read, Signed, Unsigned;
    assert ToU32(u % MAX32 + 4) == (u + 4) % MAX32;
    var w, rest := Read(buf, u % MAX32, 4), DecodeInts(buf, (u + 4) % MAX32, |d| - 1);
    if w.Some? && rest.Some? {
      var x := Signed(FromBe32(w.value));
      WordIs(w.value, d[0]);
      assert ([x] + rest.value)[1..] == rest.value && ([x] + rest.value)[0] == x;
      assert d == [d[0]] + d[1..];
    }
  }

  lemma {:induction false} IntInside(d: seq<i32>, i: nat)
    requires i < |d|
    ensures EncodeInts(d)[4 * i..4 * i + 4] == Be32(Unsigned(d[i]))
    decreases |d|
  {
    if i > 0 {
      IntInside(d[1..], i - 1);
      assert EncodeInts(d)[4..] == EncodeInts(d[1..]);
      assert EncodeInts(d)[4 * i..4 * i + 4] == EncodeInts(d)[4..][4 * i - 4..4 * i];
    }
  }

  /** Where the fields lie in the encoding. */
  lemma TestStructFields(t: TestStruct)
    ensures var e, o := EncodeTestStruct(t), 4 + |t.a|;
            && |e| == o + 16 + 4 * |t.d|
            && e[o..o + 4] == Be32(Unsigned(t.b))
            && e[o + 4..o + 12] == t.c
            && e[o + 12..o + 16] == Be32(ToU32(|t.d|))
            && e[o + 16..] == EncodeInts(t.d)
  {
    hide Be32, Unsigned, EncodeString, EncodeInts;
    EncodeStringSize(t.a);
  }

  lemma IntField(t: TestStruct, tail: seq<byte>, i: nat)
    requires i < |t.d|
    ensures IntRead(EncodeTestStruct(t) + tail, 20 + |t.a| + 4 * i, t.d[i])
            <==> IntFound(t, i)
  {
    hide Be32, Unsigned, EncodeTestStruct, EncodeInts, Read, Found;
    var e, o := EncodeTestStruct(t), 20 + |t.a|;
    TestStructFields(t);
    IntInside(t.d, i);
    assert e[o + 4 * i..o + 4 * i + 4] == e[o..][4 * i..4 * i + 4];
    ReadFound(e, tail, o + 4 * i, 4, Be32(Unsigned(t.d[i])));
  }

  /** What the deserializer makes of an encoding, read by read. */
  lemma TestStructReads(t: TestStruct, buf: seq<byte>)
    requires DecodeString(buf) == Some(t.a) && |t.a| < MAX32 && |t.d| < MAX32
    ensures var o := 4 + |t.a|;
            DecodeTestStruct(buf) == Some(t) <==>
              && Read(buf, o % MAX32, 4) == Some(Be32(Unsigned(t.b)))
              && Read(buf, (o + 4) % MAX32, 8) == Some(t.c)
              && Read(buf, (o + 12) % MAX32, 4) == Some(Be32(|t.d|))
              && DecodeInts(buf, (o + 16) % MAX32, |t.d|) == Some(t.d)
  {
    hide Be32, FromBe32, Read, Signed, Unsigned, DecodeInts, DecodeString;
    var o := 4 + |t.a|;
    OffsetsWrap(o);
    var b, n := Read(buf, o % MAX32, 4), Read(buf, (o + 12) % MAX32, 4);
    if b.Some? { WordIs(b.value, t.b); }
    if n.Some? {
      Be32RoundTrip(|t.d|, n.value);
      DecodeIntsSize(buf, (o + 16) % MAX32, FromBe32(n.value));
    }
  }

  lemma OffsetsWrap(o: nat)
    ensures ToU32(ToU32(o) + 4) == (o + 4) % MAX32
    ensures ToU32(ToU32(ToU32(o) + 4) + 8) == (o + 12) % MAX32
    ensures ToU32(ToU32(ToU32(ToU32(o) + 4) + 8) + 4) == (o + 16) % MAX32
  {
    OffsetWraps(o, 4);
    OffsetWraps(o + 4, 8);
    OffsetWraps(o + 12, 4);
  }

  lemma OffsetWraps(o: nat, w: nat)
    ensures ToU32(o % MAX32 + w) == (o + w) % MAX32
  {}

  /** A structure is read back, whatever follows it, exactly when its lengths fit in 32 bits and no field is
      lost to a wrapping offset. */
  lemma TestStructRoundTrip(t: TestStruct, tail: seq<byte>)
    ensures DecodeTestStruct(EncodeTestStruct(t) + tail) == Some(t)
            <==> |t.a| < MAX32 && |t.d| < MAX32 && FieldsFound(t)
  {
    hide EncodeTestStruct, DecodeTestStruct, DecodeString, EncodeString, Be32, Read, Unsigned, DecodeInts, Found,
         EncodeInts, IntRead, IntFound;
    var e, o := EncodeTestStruct(t), 4 + |t.a|;
    if |t.a| >= MAX32 || |t.d| >= MAX32 {
      TestStructTooLong(t, tail);
    } else {
      StringRead(t, tail);
      TestStructReads(t, e + tail);
      TestStructFields(t);
      ReadFound(e, tail, o, 4, Be32(Unsigned(t.b)));
      ReadFound(e, tail, o + 4, 8, t.c);
      ReadFound(e, tail, o + 12, 4, Be32(|t.d|));
      IntsRead(e + tail, o + 16, t.d);
      forall i | 0 <= i < |t.d| ensures IntRead(e + tail, o + 16 + 4 * i, t.d[i]) <==> IntFound(t, i) {
        IntField(t, tail, i);
      }
    }
  }

  lemma StringRead(t: TestStruct, tail: seq<byte>)
    ensures DecodeString(EncodeTestStruct(t) + tail) == Some(t.a) <==> |t.a| < MAX32
  {
    hide Be32, Unsigned, EncodeString, DecodeString, EncodeInts;
    var rest := Be32(Unsigned(t.b)) + (t.c + (Be32(ToU32(|t.d|)) + EncodeInts(t.d)));
    assert EncodeTestStruct(t) + tail == EncodeString(t.a) + (rest + tail);
    StringRoundTrip(t.a, rest + tail);
  }

  /** In particular when the encoding has at most 2^32 bytes. */
  lemma TestStructFits(t: TestStruct)
    requires 20 + |t.a| + 4 * |t.d| <= MAX32
    ensures |t.a| < MAX32 && |t.d| < MAX32 && FieldsFound(t)
  {
    hide EncodeTestStruct, Found;
    TestStructFields(t);
    forall u: nat, w: nat | u < MAX32 && u + w <= |EncodeTestStruct(t)| ensures Found(EncodeTestStruct(t), u, w) {
      FoundShort(EncodeTestStruct(t), u, w);
    }
  }

  lemma FoundShort(e: seq<byte>, u: nat, w: nat)
    requires u < MAX32 && u + w <= |e|
    ensures Found(e, u, w)
  {}

  lemma DecodedSizes(buf: seq<byte>)
    requires DecodeTestStruct(buf).Some?
    ensures |DecodeTestStruct(buf).value.d| < MAX32
    ensures DecodeString(buf) == Some(DecodeTestStruct(buf).value.a)
  {
    hide Be32, FromBe32, Read, Signed, DecodeString, DecodeInts;
    var on: int := ToU32(ToU32(ToU32(4 + |DecodeString(buf).value|) + 4) + 8);
    DecodeIntsSize(buf, ToU32(on + 4), FromBe32(Read(buf, on, 4).value));
  }

  /** A string or a vector too long for its prefix is never read back. */
  lemma TestStructTooLong(t: TestStruct, tail: seq<byte>)
    requires |t.a| >= MAX32 || |t.d| >= MAX32
    ensures DecodeTestStruct(EncodeTestStruct(t) + tail) != Some(t)
  {
    hide *;
    StringRead(t, tail);
    if DecodeTestStruct(EncodeTestStruct(t) + tail) == Some(t) {
      DecodedSizes(EncodeTestStruct(t) + tail);
    }
  }

  /** No encoding is a proper prefix of another: equal streams start with equal structures. */
  lemma TestStructPrefixFree(t: TestStruct, u: TestStruct, x: seq<byte>, y: seq<byte>)
    requires |t.a| < MAX32 && |t.d| < MAX32 && FieldsFound(t)
    requires |u.a| < MAX32 && |u.d| < MAX32 && FieldsFound(u)
    requires EncodeTestStruct(t) + x == EncodeTestStruct(u) + y
    ensures t == u && x == y
  {
    hide EncodeTestStruct, DecodeTestStruct, FieldsFound;
    TestStructRoundTrip(t, x);
    TestStructRoundTrip(u, y);
    assert x == (EncodeTestStruct(t) + x)[|EncodeTestStruct(t)|..];
  }

  lemma FirstDataPrefixFree(f: FirstData, g: FirstData, x: seq<byte>, y: seq<byte>)
    requires |f.client_addr| < MAX32 - 4 && |g.client_addr| < MAX32 - 4
    requires EncodeFirstData(f) + x == EncodeFirstData(g) + y
    ensures f == g && x == y
  {
    hide EncodeFirstData, DecodeFirstData;
    FirstDataRoundTrip(f, x);
    FirstDataRoundTrip(g, y);
    assert x == (EncodeFirstData(f) + x)[|EncodeFirstData(f)|..];
  }

  lemma TestMessagePrefixFree(m: TestMessage, n: TestMessage, x: seq<byte>, y: seq<byte>)
    requires |m.message| < MAX32 && |n.message| < MAX32
    requires EncodeTestMessage(m) + x == EncodeTestMessage(n) + y
    ensures m == n && x == y
  {
    hide EncodeTestMessage, DecodeTestMessage;
    TestMessageRoundTrip(m, x);
    TestMessageRoundTrip(n, y);
    assert x == (EncodeTestMessage(m) + x)[|EncodeTestMessage(m)|..];
  }

  // ---- The encodings, byte by byte ----

  /** Four bytes at o are x, high byte first. */
  predicate BigEndianAt(e: seq<byte>, o: nat, x: int) {
    o + 4 <= |e|
    && x == 0x100_0000 * (e[o] as int) + 0x1_0000 * (e[o + 1] as int) + 0x100 * (e[o + 2] as int) + e[o + 3] as int
  }

  lemma Be32At(e: seq<byte>, o: nat, x: u32)
    requires o + 4 <= |e| && e[o..o + 4] == Be32(x)
    ensures BigEndianAt(e, o, x)
  {
    Be32Places(x);
    hide Be32;
    var b := e[o..o + 4];
    assert b[0] == e[o] && b[1] == e[o + 1] && b[2] == e[o + 2] && b[3] == e[o + 3];
  }

  lemma TestMessageLayout(m: TestMessage)
    ensures var e := EncodeTestMessage(m);
            BigEndianAt(e, 0, |m.message| % 0x1_0000_0000) && e[4..] == m.message
  {
    hide Be32;
    Be32At(EncodeTestMessage(m), 0, ToU32(|m.message|));
  }

  /** The port alone is low byte first. */
  /** What is read from any bytes. */
  lemma TestMessageRead(buf: seq<byte>, m: TestMessage)
    ensures DecodeTestMessage(buf) == Some(m) <==>
            && BigEndianAt(buf, 0, |m.message|)
            && 4 + |m.message| <= |buf| && buf[4..4 + |m.message|] == m.message
  {
    if |buf| >= 4 {
      ReadPlaces(buf[0..4]);
      hide FromBe32;
    }
  }

  /** The port is read at a 32-bit offset. */
  lemma FirstDataRead(buf: seq<byte>, f: FirstData)
    ensures DecodeFirstData(buf) == Some(f) <==>
            && BigEndianAt(buf, 0, |f.client_addr|)
            && 4 + |f.client_addr| <= |buf| && buf[4..4 + |f.client_addr|] == f.client_addr
            && var o := (4 + |f.client_addr|) % 0x1_0000_0000;
               o + 2 <= |buf| && buf[o] as int + 0x100 * (buf[o + 1] as int) == f.client_port
  {
    if |buf| >= 4 {
      ReadPlaces(buf[0..4]);
      hide FromBe32;
    }
  }

  lemma FirstDataLayout(f: FirstData)
    ensures var e, n := EncodeFirstData(f), |f.client_addr|;
            && |e| == 6 + n
            && BigEndianAt(e, 0, n % 0x1_0000_0000) && e[4..4 + n] == f.client_addr
            && e[4 + n] as int + 0x100 * (e[5 + n] as int) == f.client_port
  {
    Le16Places(f.client_port);
    hide Be32, Le16;
    Be32At(EncodeFirstData(f), 0, ToU32(|f.client_addr|));
  }

  lemma TestStructLayout(t: TestStruct)
    ensures var e, n := EncodeTestStruct(t), |t.a|;
            && |e| == 20 + n + 4 * |t.d|
            && BigEndianAt(e, 0, n % 0x1_0000_0000) && e[4..4 + n] == t.a
            && BigEndianAt(e, 4 + n, t.b as int % 0x1_0000_0000)
            && e[8 + n..16 + n] == t.c
            && BigEndianAt(e, 16 + n, |t.d| % 0x1_0000_0000)
            && forall i | 0 <= i < |t.d| :: BigEndianAt(e, 20 + n + 4 * i, t.d[i] as int % 0x1_0000_0000)
  {
    var e, n := EncodeTestStruct(t), |t.a|;
    TestStructFields(t);
    StringStart(t);
    SignPlaces(t.b, 0);
    hide EncodeTestStruct, Be32, Unsigned, EncodeInts, BigEndianAt;
    Be32At(e, 0, ToU32(n));
    Be32At(e, 4 + n, Unsigned(t.b));
    Be32At(e, 16 + n, ToU32(|t.d|));
    forall i | 0 <= i < |t.d| ensures BigEndianAt(e, 20 + n + 4 * i, t.d[i] as int % 0x1_0000_0000) {
      IntAt(t, i);
    }
  }

  lemma IntAt(t: TestStruct, i: nat)
    requires i < |t.d|
    ensures BigEndianAt(EncodeTestStruct(t), 20 + |t.a| + 4 * i, t.d[i] as int % 0x1_0000_0000)
  {
    TestStructFields(t);
    IntInside(t.d, i);
    SignPlaces(t.d[i], 0);
    hide EncodeTestStruct, Be32, Unsigned, EncodeInts, BigEndianAt;
    var e, o := EncodeTestStruct(t), 20 + |t.a|;
    assert e[o + 4 * i..o + 4 * i + 4] == e[o..][4 * i..4 * i + 4];
    Be32At(e, o + 4 * i, Unsigned(t.d[i]));
  }

  lemma StringStart(t: TestStruct)
    ensures EncodeTestStruct(t)[0..4] == Be32(ToU32(|t.a|)) && EncodeTestStruct(t)[4..4 + |t.a|] == t.a
  {
    hide Be32, Unsigned, EncodeInts;
  }

  // ---- The serializers and deserializers ----

  /** TestStruct::serilize, with its loop over the vector. */
  method SerializeTestStruct(t: TestStruct) returns (buffer: seq<byte>)
    ensures buffer == EncodeTestStruct(t)
  {
    hide Be32, Unsigned;
    buffer := Be32(ToU32(|t.a|));
    buffer := buffer + t.a;
    buffer := buffer + Be32(Unsigned(t.b));
    buffer := buffer + t.c;
    buffer := buffer + Be32(ToU32(|t.d|));
    ghost var head := buffer;
    assert head + EncodeInts(t.d) == EncodeTestStruct(t);
    for i := 0 to |t.d|
      invariant head + EncodeInts(t.d) == buffer + EncodeInts(t.d[i..])
    {
      assert t.d[i..][1..] == t.d[i + 1..];
      buffer := buffer + Be32(Unsigned(t.d[i]));
    }
  }

  /** TestStruct::deserialize over memory that holds what it reads. */
  method DeserializeTestStruct(data: seq<byte>) returns (result: TestStruct)
    requires DecodeTestStruct(data).Some?
    ensures DecodeTestStruct(data) == Some(result)
  {
    hide FromBe32, Signed, DecodeInts;
    var offset: u32 := 0;
    var str_len := FromBe32(data[offset..offset + 4]);
    offset := ToU32(offset + 4);
    var a := data[offset..offset + str_len];
    offset := ToU32(offset + str_len);
    var b := Signed(FromBe32(data[offset..offset + 4]));
    offset := ToU32(offset + 4);
    var c := data[offset..offset + 8];
    offset := ToU32(offset + 8);
    var vec_size := FromBe32(data[offset..offset + 4]);
    offset := ToU32(offset + 4);
    var d := DeserializeInts(data, offset, vec_size);
    result := TestStruct(a, b, c, d);
  }

  /** The vector loop of TestStruct::deserialize. */
  method DeserializeInts(data: seq<byte>, start: u32, vec_size: nat) returns (d: seq<i32>)
    requires DecodeInts(data, start, vec_size).Some?
    ensures DecodeInts(data, start, vec_size) == Some(d)
  {
    hide FromBe32, Signed;
    d := [];
    var offset := start;
    ghost var all := DecodeInts(data, start, vec_size).value;
    for i := 0 to vec_size
      invariant DecodeInts(data, offset, vec_size - i).Some?
      invariant all == d + DecodeInts(data, offset, vec_size - i).value
    {
      ghost var rest := DecodeInts(data, offset, vec_size - i).value;
      ghost var next := Signed(FromBe32(data[offset..offset + 4]));
      assert rest == [next] + DecodeInts(data, ToU32(offset as int + 4), vec_size - i - 1).value;
      d := d + [Signed(FromBe32(data[offset..offset + 4]))];
      offset := ToU32(offset as int + 4);
      assert all == d + DecodeInts(data, offset, vec_size - i - 1).value;
    }
    assert d + [] == d;
  }

  method SerializeTestMessage(m: TestMessage) returns (buf: seq<byte>)
    ensures buf == EncodeTestMessage(m)
  {
    buf := Be32(ToU32(|m.message|));
    buf := buf + m.message;
  }

  method DeserializeTestMessage(buf: seq<byte>) returns (res: TestMessage)
    requires DecodeTestMessage(buf).Some?
    ensures DecodeTestMessage(buf) == Some(res)
  {
    var offset: u32 := 0;
    var strlen := FromBe32(buf[offset..offset + 4]);
    offset := ToU32(offset + 4);
    res := TestMessage(buf[offset..offset + strlen]);
  }

  method SerializeFirstData(f: FirstData) returns (buffer: seq<byte>)
    ensures buffer == EncodeFirstData(f)
  {
    buffer := Be32(ToU32(|f.client_addr|));
    buffer := buffer + f.client_addr;
    buffer := buffer + Le16(f.client_port);
  }

  method DeserializeFirstData(buffer: seq<byte>) returns (res: FirstData)
    requires DecodeFirstData(buffer).Some?
    ensures DecodeFirstData(buffer) == Some(res)
  {
    hide FromBe32, FromLe16;
    var offset: u32 := 0;
    var cl_addr_len := FromBe32(buffer[offset..offset + 4]);
    offset := ToU32(offset + 4);
    var addr := buffer[offset..offset + cl_addr_len];
    offset := ToU32(offset + cl_addr_len);
    res := FirstData(addr, FromLe16(buffer[offset..offset + 2]));
  }
}
