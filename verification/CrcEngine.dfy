/** The two modes of Crc::CalcCrc and the Python twin, against the register. */
module CrcEngine {
  import opened Gf2
  import opened Iteration
  import opened CrcRegister
  import opened CrcWord
  import opened CrcTable

  datatype ModeCrc = Func | Table

  datatype CrcResult = Value(crc: bv32) | TableTooSmall(size: nat)

  /** A result that holds a register in its low sixteen bits and nothing above. */
  ghost predicate Holds(res: CrcResult, r: Poly) {
    res.Value? && res.crc <= 0xFFFF && Load(Narrow(res.crc)) == r
  }

  function Narrow(c: bv32): bv16 {
    (c & 0xFFFF) as bv16
  }

  // ---- Table mode ----

  /** One table step: the index is the high half of the register xor the byte. */
  function TableIndex(crc: bv16, b: bv8): bv8 {
    (crc >> 8) as bv8 ^ b
  }

  function TableStep(tbl: seq<bv16>, crc: bv16, b: bv8): bv16
    requires |tbl| >= 256
  {
    XorWord(crc << 8, tbl[TableIndex(crc, b) as int])
  }

  function TableCrc(tbl: seq<bv16>, crc: bv16, bytes: seq<bv8>): bv16
    requires |tbl| >= 256
    decreases |bytes|
  {
    if bytes == [] then crc else TableCrc(tbl, TableStep(tbl, crc, bytes[0]), bytes[1..])
  }

  function Entries(lines: seq<bv64>): (tbl: seq<bv16>)
    ensures |tbl| == |lines|
  {
    seq(|lines|, i requires 0 <= i < |lines| => Low16(lines[i]))
  }

  predicate RightEntry(tbl: seq<bv16>, k: bv8)
    requires |tbl| >= 256
  {
    tbl[k as int] == EightShifts(HighWord(k))
  }

  /** The first 256 entries are the registers eight steps after each byte. */
  ghost predicate RightTable(tbl: seq<bv16>)
    requires |tbl| >= 256
  {
    forall k: bv8 :: RightEntry(tbl, k)
  }

  lemma SplitWord(crc: bv16, b: bv8)
    ensures XorWord(crc, HighWord(b)) == XorWord(HighWord(TableIndex(crc, b)), crc & 0x00FF)
  {
    SplitRaw(crc, (crc >> 8) as bv8, b);
  }

  lemma SplitRaw(crc: bv16, h: bv8, b: bv8)
    requires h == (crc >> 8) as bv8
    ensures crc ^ ((b as bv16) << 8) == (((h ^ b) as bv16) << 8) ^ (crc & 0x00FF)
  {
    assert crc == ((h as bv16) << 8) ^ (crc & 0x00FF);
    assert ((h ^ b) as bv16) << 8 == ((h as bv16) << 8) ^ ((b as bv16) << 8);
  }

  /** Eight shifts of a low byte only move it up: nothing falls out. */
  lemma LowByteMoves(w: bv16)
    ensures EightShifts(w & 0x00FF) == w << 8
  {
    var v := w & 0x00FF;
    assert ShiftWord(v) == v << 1;
    assert ShiftWord(v << 1) == v << 2;
    assert ShiftWord(v << 2) == v << 3;
    assert ShiftWord(v << 3) == v << 4;
    assert ShiftWord(v << 4) == v << 5;
    assert ShiftWord(v << 5) == v << 6;
    assert ShiftWord(v << 6) == v << 7;
    assert ShiftWord(v << 7) == v << 8;
    assert v << 8 == w << 8;
  }

  lemma LoadEightShifts(w: bv16)
    ensures Load(EightShifts(w)) == ShiftN(8, Load(w))
  {
    hide ShiftWord, Load;
    LoadShiftN(8, w);
    UnrollEight(ShiftWord, w);
  }

  lemma UnrollEight<T>(f: T -> T, x: T)
    ensures Iterate(8, f, x) == f(f(f(f(f(f(f(f(x))))))))
  {
    assert Iterate(4, f, f(f(f(f(x))))) == f(f(f(f(f(f(f(f(x))))))));
  }

  /** A right table makes one lookup do the work of eight shifts. */
  lemma TableStepIsByteStep(tbl: seq<bv16>, crc: bv16, b: bv8)
    requires |tbl| >= 256 && RightEntry(tbl, TableIndex(crc, b))
    ensures Load(TableStep(tbl, crc, b)) == ByteStep(Load(crc), b)
  {
    var k := TableIndex(crc, b);
    LowByteMoves(crc);
    SplitWord(crc, b);
    hide TableIndex, EightShifts, HighWord, XorWord, Load;
    LoadXor(crc << 8, tbl[k as int]);
    LoadXor(HighWord(k), crc & 0x00FF);
    LoadXor(crc, HighWord(b));
    LoadHigh(b);
    LoadEightShifts(crc & 0x00FF);
    LoadEightShifts(HighWord(k));
    ShiftNLinear(8, Load(HighWord(k)), Load(crc & 0x00FF));
    AddCommutes(Load(crc << 8), Load(tbl[k as int]));
  }

  lemma {:induction false} RightTableIsCrc(tbl: seq<bv16>, crc: bv16, bytes: seq<bv8>)
    requires |tbl| >= 256 && RightTable(tbl)
    ensures Load(TableCrc(tbl, crc, bytes)) == Crc(Load(crc), bytes)
    decreases |bytes|
  {
    hide TableStep, ByteStep, Load, RightEntry;
    if bytes != [] {
      TableStepIsByteStep(tbl, crc, bytes[0]);
      RightTableIsCrc(tbl, TableStep(tbl, crc, bytes[0]), bytes[1..]);
    }
  }

  ghost predicate ModesAgree(tbl: seq<bv16>, bytes: seq<bv8>)
    requires |tbl| >= 256
  {
    Load(TableCrc(tbl, 0, bytes)) == Crc({}, bytes)
  }

  /** Table mode computes the checksum of every byte string exactly when the table is right. */
  lemma TableModeRefinesFuncMode(tbl: seq<bv16>)
    requires |tbl| >= 256
    ensures (forall bytes :: ModesAgree(tbl, bytes)) <==> RightTable(tbl)
  {
    if RightTable(tbl) {
      forall bytes ensures ModesAgree(tbl, bytes) {
        LoadIsRegister(0);
        RightTableIsCrc(tbl, 0, bytes);
      }
    } else {
      var k: bv8 :| !RightEntry(tbl, k);
      if ModesAgree(tbl, [k]) { OneByte(tbl, k); }
      assert !ModesAgree(tbl, [k]);
    }
  }

  lemma OneByte(tbl: seq<bv16>, k: bv8)
    requires |tbl| >= 256 && ModesAgree(tbl, [k])
    ensures RightEntry(tbl, k)
  {
    var w := TableCrc(tbl, 0, [k]);
    assert w == tbl[k as int] by { ZeroStep(tbl, k); }
    assert Load(w) == Load(EightShifts(HighWord(k))) by {
      hide Load, EightShifts, HighWord, TableCrc;
      assert Crc({}, [k]) == ByteStep({}, k);
      LoadHigh(k);
      LoadEightShifts(HighWord(k));
      assert Add({}, Window(ByteBits(k))) == Window(ByteBits(k));
    }
    LoadInjective(w, EightShifts(HighWord(k)));
  }

  lemma ZeroStep(tbl: seq<bv16>, k: bv8)
    requires |tbl| >= 256
    ensures TableCrc(tbl, 0, [k]) == tbl[k as int]
  {
    assert TableIndex(0, k) == k;
    assert TableStep(tbl, 0, k) == tbl[k as int] by { assert (0 as bv16) << 8 == 0; }
    assert [k][1..] == [];
  }

  /** The shipped table is right, so on every byte string the two modes agree. */
  lemma CrcDatIsRight()
    ensures |CRC_DAT| == 256 && RightTable(Entries(CRC_DAT))
  {
    forall k: bv8 ensures RightEntry(Entries(CRC_DAT), k) {
      hide Low16, EightShifts, HighWord, CrcDatRow;
      CrcDatEntry(k);
    }
  }

  // ---- The loops ----

  /** An int holding a 16-bit word. */
  predicate Wide(c: bv32, w: bv16) {
    c == w as bv32
  }

  lemma WideNarrow(c: bv32, w: bv16)
    requires Wide(c, w)
    ensures c <= 0xFFFF && Narrow(c) == w
  {}

  lemma WideShiftFedBack(c: bv32, w: bv16)
    requires Wide(c, w) && c & 0x8000 != 0
    ensures Wide(((c << 1) ^ 0x1021) & 0xFFFF, ShiftWord(w))
  {
    assert w & 0x8000 != 0;
    assert ShiftWord(w) == (w << 1) ^ 0x1021;
    WideShiftRaw(c, w);
  }

  lemma WideShiftPlain(c: bv32, w: bv16)
    requires Wide(c, w) && c & 0x8000 == 0
    ensures Wide((c << 1) & 0xFFFF, ShiftWord(w))
  {
    assert w & 0x8000 == 0;
    assert ShiftWord(w) == w << 1;
    WideShiftRaw(c, w);
  }

  lemma WideShiftRaw(c: bv32, w: bv16)
    requires c == w as bv32
    ensures (c << 1) & 0xFFFF == (w << 1) as bv32
    ensures ((c << 1) ^ 0x1021) & 0xFFFF == ((w << 1) ^ 0x1021) as bv32
  {}

  /** The shift and the mask in int arithmetic are the shift on words. */
  lemma WideShift(c: bv32, w: bv16)
    requires Wide(c, w)
    ensures Wide((if c & 0x8000 != 0 then (c << 1) ^ 0x1021 else c << 1) & 0xFFFF, ShiftWord(w))
  {
    if c & 0x8000 != 0 {
      WideShiftFedBack(c, w);
    } else {
      WideShiftPlain(c, w);
    }
  }

  lemma WideXor(c: bv32, w: bv16, b: bv8)
    requires Wide(c, w)
    ensures Wide(c ^ ((b as bv32) << 8), XorWord(w, HighWord(b)))
  {}

  /** The inner loop of func mode. */
  method EightPasses(c: bv32, ghost w: bv16) returns (crc: bv32)
    requires Wide(c, w)
    ensures Wide(crc, Iterate(8, ShiftWord, w))
  {
    crc := c;
    ghost var v := w;
    hide ShiftWord, Wide;
    for j := 0 to 8
      invariant Wide(crc, v)
      invariant v == Iterate(j, ShiftWord, w)
    {
      WideShift(crc, v);
      crc := (if crc & 0x8000 != 0 then (crc << 1) ^ 0x1021 else crc << 1) & 0xFFFF;
      IterateAdds(j, 1, ShiftWord, w);
      v := ShiftWord(v);
    }
  }

  /** The outer loop of func mode. */
  method BitwiseCrc(bytes: seq<bv8>, init: bv16) returns (crc: bv32)
    ensures crc <= 0xFFFF && Load(Narrow(crc)) == Crc(Load(init), bytes)
  {
    crc := init as bv32;
    ghost var w := init;
    assert Wide(crc, w);
    hide Load, ShiftWord, ByteStep, XorWord, HighWord, Narrow, Wide;
    for i := 0 to |bytes|
      invariant Wide(crc, w)
      invariant Crc(Load(init), bytes) == Crc(Load(w), bytes[i..])
    {
      WideXor(crc, w, bytes[i]);
      LoadByteStep(w, bytes[i]);
      w := XorWord(w, HighWord(bytes[i]));
      crc := EightPasses(crc ^ ((bytes[i] as bv32) << 8), w);
      w := Iterate(8, ShiftWord, w);
    }
    WideNarrow(crc, w);
  }

  /** The loop of table mode over a table of at least 256 entries. */
  method LookupCrc(bytes: seq<bv8>, tbl: seq<bv16>) returns (crc: bv16)
    requires |tbl| >= 256
    ensures crc == TableCrc(tbl, 0, bytes)
  {
    crc := 0;
    for i := 0 to |bytes|
      invariant TableCrc(tbl, 0, bytes) == TableCrc(tbl, crc, bytes[i..])
    {
      var index := (crc >> 8) as bv8 ^ bytes[i];
      crc := (crc << 8) ^ tbl[index as int];
    }
  }

  /** Crc::CalcCrc, with the parsed lines of the table file as an argument. */
  method CalcCrc(bytes: seq<bv8>, mode: ModeCrc, lines: seq<bv64>) returns (res: CrcResult)
    ensures mode.Func? ==> Holds(res, Crc({}, bytes))
    ensures mode.Table? && |lines| < 256 ==> res == TableTooSmall(|lines|)
    ensures mode.Table? && |lines| >= 256 ==> Holds(res, Load(TableCrc(Entries(lines), 0, bytes)))
    ensures mode.Table? && lines == CRC_DAT ==> Holds(res, Crc({}, bytes))
  {
    LoadIsRegister(0);
    match mode
    case Func =>
      var crc := BitwiseCrc(bytes, 0);
      res := Value(crc);
    case Table =>
      var tbl: seq<bv16> := [];
      for i := 0 to |lines|
        invariant |tbl| == i && forall j | 0 <= j < i :: tbl[j] == Low16(lines[j])
      {
        tbl := tbl + [(lines[i] & 0xFFFF) as bv16];
      }
      assert tbl == Entries(lines);
      if |tbl| < 256 {
        return TableTooSmall(|tbl|);
      }
      var crc := LookupCrc(bytes, tbl);
      res := Value(crc as bv32);
      WideNarrow(crc as bv32, crc);
      if lines == CRC_DAT {
        CrcDatIsRight();
        RightTableIsCrc(tbl, 0, bytes);
      }
  }

  // ---- crc.py ----

  /** An unbounded two's-complement int: the bits above bit 15 and the low sixteen. */
  datatype PyInt = PyInt(high: int, low: bv16)

  /** c ^ x for a 16-bit x */
  function PyXor(c: PyInt, x: bv16): PyInt {
    PyInt(c.high, XorWord(c.low, x))
  }

  /** c << 1 */
  function PyShift(c: PyInt): PyInt {
    PyInt(2 * c.high + (if c.low & 0x8000 != 0 then 1 else 0), c.low << 1)
  }

  /** c & 0xFFFF */
  function PyMask(c: PyInt): PyInt {
    PyInt(0, c.low)
  }

  lemma PyPass(c: PyInt)
    ensures PyMask(if c.low & 0x8000 != 0 then PyXor(PyShift(c), 0x1021) else PyShift(c)) == PyInt(0, ShiftWord(c.low))
  {
    hide ShiftWord, XorWord;
    ShiftWordCases(c.low);
  }

  lemma ShiftWordCases(w: bv16)
    ensures ShiftWord(w) == if w & 0x8000 != 0 then XorWord(w << 1, 0x1021) else w << 1
  {}

  /** crc_ccitt of crc.py. Bits of `init` above bit 15 are lost in the first pass; only an empty message keeps them. */
  method CrcCcitt(data: seq<bv8>, init: PyInt) returns (crc: PyInt)
    ensures data == [] ==> crc == init
    ensures data != [] ==> crc.high == 0
    ensures Load(crc.low) == Crc(Load(init.low), data)
  {
    hide Load, ShiftWord, ByteStep, XorWord, HighWord;
    crc := init;
    for i := 0 to |data|
      invariant if i == 0 then crc == init else crc.high == 0
      invariant Crc(Load(init.low), data) == Crc(Load(crc.low), data[i..])
    {
      LoadByteStep(crc.low, data[i]);
      crc := PyXor(crc, HighWord(data[i]));
      ghost var w := crc.low;
      for j := 0 to 8
        invariant crc.low == Iterate(j, ShiftWord, w) && (j > 0 ==> crc.high == 0)
      {
        PyPass(crc);
        IterateAdds(j, 1, ShiftWord, w);
        crc := PyMask(if crc.low & 0x8000 != 0 then PyXor(PyShift(crc), 0x1021) else PyShift(crc));
      }
    }
  }
}
