/** The table file and the proof that its entries are the eight-step registers. */
module CrcTable {
  import opened CrcWord

  /** The conversion of a parsed line to uint16_t: the low sixteen bits. */
  function Low16(line: bv64): bv16 {
    (line & 0xFFFF) as bv16
  }

  /** Eight passes of the bit loop, unrolled. */
  function EightShifts(w: bv16): bv16 {
    ShiftWord(ShiftWord(ShiftWord(ShiftWord(ShiftWord(ShiftWord(ShiftWord(ShiftWord(w))))))))
  }

  /** The lines of crc.dat, sixteen to a row. */
  function CrcDatRow(h: nat): (row: seq<bv64>)
    requires h < 16
    ensures |row| == 16
  {
    if h == 0 then
      [0x00000000, 0x00011021, 0x00022042, 0x00033063, 0x00044084, 0x000550a5, 0x000660c6, 0x000770e7,
       0x00088108, 0x00099129, 0x000aa14a, 0x000bb16b, 0x000cc18c, 0x000dd1ad, 0x000ee1ce, 0x000ff1ef]
    else if h == 1 then
      [0x00111231, 0x00100210, 0x00133273, 0x00122252, 0x001552b5, 0x00144294, 0x001772f7, 0x001662d6,
       0x00199339, 0x00188318, 0x001bb37b, 0x001aa35a, 0x001dd3bd, 0x001cc39c, 0x001ff3ff, 0x001ee3de]
    else if h == 2 then
      [0x00222462, 0x00233443, 0x00200420, 0x00211401, 0x002664e6, 0x002774c7, 0x002444a4, 0x00255485,
       0x002aa56a, 0x002bb54b, 0x00288528, 0x00299509, 0x002ee5ee, 0x002ff5cf, 0x002cc5ac, 0x002dd58d]
    else if h == 3 then
      [0x00333653, 0x00322672, 0x00311611, 0x00300630, 0x003776d7, 0x003666f6, 0x00355695, 0x003446b4,
       0x003bb75b, 0x003aa77a, 0x00399719, 0x00388738, 0x003ff7df, 0x003ee7fe, 0x003dd79d, 0x003cc7bc]
    else if h == 4 then
      [0x004448c4, 0x004558e5, 0x00466886, 0x004778a7, 0x00400840, 0x00411861, 0x00422802, 0x00433823,
       0x004cc9cc, 0x004dd9ed, 0x004ee98e, 0x004ff9af, 0x00488948, 0x00499969, 0x004aa90a, 0x004bb92b]
    else if h == 5 then
      [0x00555af5, 0x00544ad4, 0x00577ab7, 0x00566a96, 0x00511a71, 0x00500a50, 0x00533a33, 0x00522a12,
       0x005ddbfd, 0x005ccbdc, 0x005ffbbf, 0x005eeb9e, 0x00599b79, 0x00588b58, 0x005bbb3b, 0x005aab1a]
    else if h == 6 then
      [0x00666ca6, 0x00677c87, 0x00644ce4, 0x00655cc5, 0x00622c22, 0x00633c03, 0x00600c60, 0x00611c41,
       0x006eedae, 0x006ffd8f, 0x006ccdec, 0x006dddcd, 0x006aad2a, 0x006bbd0b, 0x00688d68, 0x00699d49]
    else if h == 7 then
      [0x00777e97, 0x00766eb6, 0x00755ed5, 0x00744ef4, 0x00733e13, 0x00722e32, 0x00711e51, 0x00700e70,
       0x007fff9f, 0x007eefbe, 0x007ddfdd, 0x007ccffc, 0x007bbf1b, 0x007aaf3a, 0x00799f59, 0x00788f78]
    else if h == 8 then
      [0x00889188, 0x008981a9, 0x008ab1ca, 0x008ba1eb, 0x008cd10c, 0x008dc12d, 0x008ef14e, 0x008fe16f,
       0x00801080, 0x008100a1, 0x008230c2, 0x008320e3, 0x00845004, 0x00854025, 0x00867046, 0x00876067]
    else if h == 9 then
      [0x009983b9, 0x00989398, 0x009ba3fb, 0x009ab3da, 0x009dc33d, 0x009cd31c, 0x009fe37f, 0x009ef35e,
       0x009102b1, 0x00901290, 0x009322f3, 0x009232d2, 0x00954235, 0x00945214, 0x00976277, 0x00967256]
    else if h == 10 then
      [0x00aab5ea, 0x00aba5cb, 0x00a895a8, 0x00a98589, 0x00aef56e, 0x00afe54f, 0x00acd52c, 0x00adc50d,
       0x00a234e2, 0x00a324c3, 0x00a014a0, 0x00a10481, 0x00a67466, 0x00a76447, 0x00a45424, 0x00a54405]
    else if h == 11 then
      [0x00bba7db, 0x00bab7fa, 0x00b98799, 0x00b897b8, 0x00bfe75f, 0x00bef77e, 0x00bdc71d, 0x00bcd73c,
       0x00b326d3, 0x00b236f2, 0x00b10691, 0x00b016b0, 0x00b76657, 0x00b67676, 0x00b54615, 0x00b45634]
    else if h == 12 then
      [0x00ccd94c, 0x00cdc96d, 0x00cef90e, 0x00cfe92f, 0x00c899c8, 0x00c989e9, 0x00cab98a, 0x00cba9ab,
       0x00c45844, 0x00c54865, 0x00c67806, 0x00c76827, 0x00c018c0, 0x00c108e1, 0x00c23882, 0x00c328a3]
    else if h == 13 then
      [0x00ddcb7d, 0x00dcdb5c, 0x00dfeb3f, 0x00defb1e, 0x00d98bf9, 0x00d89bd8, 0x00dbabbb, 0x00dabb9a,
       0x00d54a75, 0x00d45a54, 0x00d76a37, 0x00d67a16, 0x00d10af1, 0x00d01ad0, 0x00d32ab3, 0x00d23a92]
    else if h == 14 then
      [0x00eefd2e, 0x00efed0f, 0x00ecdd6c, 0x00edcd4d, 0x00eabdaa, 0x00ebad8b, 0x00e89de8, 0x00e98dc9,
       0x00e67c26, 0x00e76c07, 0x00e45c64, 0x00e54c45, 0x00e23ca2, 0x00e32c83, 0x00e01ce0, 0x00e10cc1]
    else
      [0x00ffef1f, 0x00feff3e, 0x00fdcf5d, 0x00fcdf7c, 0x00fbaf9b, 0x00fabfba, 0x00f98fd9, 0x00f89ff8,
       0x00f76e17, 0x00f67e36, 0x00f54e55, 0x00f45e74, 0x00f32e93, 0x00f23eb2, 0x00f10ed1, 0x00f01ef0]
  }

  const CRC_DAT: seq<bv64> :=
    seq(256, i requires 0 <= i < 256 => CrcDatRow(i / 16)[i % 16])

  /** Eight steps of a byte, in closed form. */
  function Folded(k: bv8): bv16 {
    var w := (k ^ (k >> 4)) as bv16;
    w ^ (w << 5) ^ (w << 12)
  }

  lemma EightStepsFold(k: bv8)
    ensures EightShifts(HighWord(k)) == Folded(k)
  {}

  // Line by line, the file agrees with the closed form.

  lemma Row0(k: bv8)
    requires k as int / 16 == 0
    ensures Low16(CrcDatRow(0)[k as int % 16]) == Folded(k)
  {}

  lemma Row1(k: bv8)
    requires k as int / 16 == 1
    ensures Low16(CrcDatRow(1)[k as int % 16]) == Folded(k)
  {}

  lemma Row2(k: bv8)
    requires k as int / 16 == 2
    ensures Low16(CrcDatRow(2)[k as int % 16]) == Folded(k)
  {}

  lemma Row3(k: bv8)
    requires k as int / 16 == 3
    ensures Low16(CrcDatRow(3)[k as int % 16]) == Folded(k)
  {}

  lemma Row4(k: bv8)
    requires k as int / 16 == 4
    ensures Low16(CrcDatRow(4)[k as int % 16]) == Folded(k)
  {}

  lemma Row5(k: bv8)
    requires k as int / 16 == 5
    ensures Low16(CrcDatRow(5)[k as int % 16]) == Folded(k)
  {}

  lemma Row6(k: bv8)
    requires k as int / 16 == 6
    ensures Low16(CrcDatRow(6)[k as int % 16]) == Folded(k)
  {}

  lemma Row7(k: bv8)
    requires k as int / 16 == 7
    ensures Low16(CrcDatRow(7)[k as int % 16]) == Folded(k)
  {}

  lemma Row8(k: bv8)
    requires k as int / 16 == 8
    ensures Low16(CrcDatRow(8)[k as int % 16]) == Folded(k)
  {}

  lemma Row9(k: bv8)
    requires k as int / 16 == 9
    ensures Low16(CrcDatRow(9)[k as int % 16]) == Folded(k)
  {}

  lemma RowA(k: bv8)
    requires k as int / 16 == 10
    ensures Low16(CrcDatRow(10)[k as int % 16]) == Folded(k)
  {}

  lemma RowB(k: bv8)
    requires k as int / 16 == 11
    ensures Low16(CrcDatRow(11)[k as int % 16]) == Folded(k)
  {}

  lemma RowC(k: bv8)
    requires k as int / 16 == 12
    ensures Low16(CrcDatRow(12)[k as int % 16]) == Folded(k)
  {}

  lemma RowD(k: bv8)
    requires k as int / 16 == 13
    ensures Low16(CrcDatRow(13)[k as int % 16]) == Folded(k)
  {}

  lemma RowE(k: bv8)
    requires k as int / 16 == 14
    ensures Low16(CrcDatRow(14)[k as int % 16]) == Folded(k)
  {}

  lemma RowF(k: bv8)
    requires k as int / 16 == 15
    ensures Low16(CrcDatRow(15)[k as int % 16]) == Folded(k)
  {}

  /** The low sixteen bits of line k + 1 are the register eight steps after k << 8. */
  lemma CrcDatEntry(k: bv8)
    ensures Low16(CRC_DAT[k as int]) == EightShifts(HighWord(k))
  {
    hide Low16, EightShifts, HighWord, CrcDatRow, Folded;
    EightStepsFold(k);
    match k as int / 16
    case 0 => Row0(k);
    case 1 => Row1(k);
    case 2 => Row2(k);
    case 3 => Row3(k);
    case 4 => Row4(k);
    case 5 => Row5(k);
    case 6 => Row6(k);
    case 7 => Row7(k);
    case 8 => Row8(k);
    case 9 => Row9(k);
    case 10 => RowA(k);
    case 11 => RowB(k);
    case 12 => RowC(k);
    case 13 => RowD(k);
    case 14 => RowE(k);
    case _ => RowF(k);
  }
}
