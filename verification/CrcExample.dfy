/** The example that the server and the script give: the checksum of A590006C00000000000004000000 is 38F6. */
module CrcExample {
  import opened CrcRegister
  import opened CrcWord
  import opened CrcTable
  import opened CrcEngine
  import opened CrcDetection

  const EXAMPLE: seq<bv8> := [0xA5, 0x90, 0x00, 0x6C, 0x00, 0x00, 0x00, 0x00, 0x00, 0x00, 0x04, 0x00, 0x00, 0x00]

  /** One byte, with the table entry in closed form. */
  function Next(w: bv16, b: bv8): bv16 {
    (w << 8) ^ Folded((w >> 8) as bv8 ^ b)
  }

  lemma NextIsByteStep(w: bv16, b: bv8)
    ensures Load(Next(w, b)) == ByteStep(Load(w), b)
  {
    var k := TableIndex(w, b);
    CrcDatIsRight();
    CrcDatEntry(k);
    EightStepsFold(k);
    hide Load, ByteStep, EightShifts, HighWord, Folded, Low16;
    TableStepIsByteStep(Entries(CRC_DAT), w, b);
  }

  lemma Step0000A5()
    ensures Next(0x0000, 0xA5) == 0xE54F
  {}

  lemma StepE54F90()
    ensures Next(0xE54F, 0x90) == 0x6132
  {}

  lemma Step613200()
    ensures Next(0x6132, 0x00) == 0x4E87
  {}

  lemma Step4E876C()
    ensures Next(0x4E87, 0x6C) == 0x8320
  {}

  lemma Step832000()
    ensures Next(0x8320, 0x00) == 0x81EB
  {}

  lemma Step81EB00()
    ensures Next(0x81EB, 0x00) == 0x6AA9
  {}

  lemma Step6AA900()
    ensures Next(0x6AA9, 0x00) == 0x64EC
  {}

  lemma Step64EC00()
    ensures Next(0x64EC, 0x00) == 0xC022
  {}

  lemma StepC02200()
    ensures Next(0xC022, 0x00) == 0xFB4C
  {}

  lemma StepFB4C00()
    ensures Next(0xFB4C, 0x00) == 0x1274
  {}

  lemma Step127404()
    ensures Next(0x1274, 0x04) == 0x06F7
  {}

  lemma Step06F700()
    ensures Next(0x06F7, 0x00) == 0x97C6
  {}

  lemma Step97C600()
    ensures Next(0x97C6, 0x00) == 0x355E
  {}

  lemma Step355E00()
    ensures Next(0x355E, 0x00) == 0x38F6
  {}

  lemma FirstBytes()
    ensures Crc(Load(0x0000), EXAMPLE[0..]) == Crc(Load(0x64EC), EXAMPLE[7..])
  {
    hide Load, ByteStep, Next, Crc;
    Step0000A5();
    StepE54F90();
    Step613200();
    Step4E876C();
    Step832000();
    Step81EB00();
    Step6AA900();
    Feed(0, 0xA5, 0x0000, 0xE54F);
    Feed(1, 0x90, 0xE54F, 0x6132);
    Feed(2, 0x00, 0x6132, 0x4E87);
    Feed(3, 0x6C, 0x4E87, 0x8320);
    Feed(4, 0x00, 0x8320, 0x81EB);
    Feed(5, 0x00, 0x81EB, 0x6AA9);
    Feed(6, 0x00, 0x6AA9, 0x64EC);
  }

  lemma LastBytes()
    ensures Crc(Load(0x64EC), EXAMPLE[7..]) == Crc(Load(0x38F6), EXAMPLE[14..])
  {
    hide Load, ByteStep, Next, Crc;
    Step64EC00();
    StepC02200();
    StepFB4C00();
    Step127404();
    Step06F700();
    Step97C600();
    Step355E00();
    Feed(7, 0x00, 0x64EC, 0xC022);
    Feed(8, 0x00, 0xC022, 0xFB4C);
    Feed(9, 0x00, 0xFB4C, 0x1274);
    Feed(10, 0x04, 0x1274, 0x06F7);
    Feed(11, 0x00, 0x06F7, 0x97C6);
    Feed(12, 0x00, 0x97C6, 0x355E);
    Feed(13, 0x00, 0x355E, 0x38F6);
  }

  /** The checksum of the example, from the register 0. */
  lemma ExampleSum()
    ensures Crc(Load(0), EXAMPLE) == Load(0x38F6)
  {
    hide Load, Crc;
    FirstBytes();
    LastBytes();
    Whole();
    Nothing();
  }

  lemma Whole()
    ensures EXAMPLE[0..] == EXAMPLE
  {}

  lemma Nothing()
    ensures Crc(Load(0x38F6), EXAMPLE[14..]) == Load(0x38F6)
  {
    hide Load;
    assert EXAMPLE[14..] == [];
  }

  /** func mode and crc.py give 38F6, and with 38 F6 appended they give 0. */
  lemma Example()
    ensures Crc({}, EXAMPLE) == Load(0x38F6)
    ensures Crc({}, EXAMPLE + [0x38, 0xF6]) == {}
  {
    LoadIsRegister(0);
    hide Load, Crc;
    ExampleSum();
    assert HighHalf(0x38F6) == 0x38 && CrcDetection.LowHalf(0x38F6) == 0xF6;
    SelfCheck({}, EXAMPLE, 0x38F6);
  }

  lemma Feed(i: nat, b: bv8, w: bv16, next: bv16)
    requires i < 14 && EXAMPLE[i] == b && Next(w, b) == next
    ensures Crc(Load(w), EXAMPLE[i..]) == Crc(Load(next), EXAMPLE[i + 1..])
  {
    hide Load, ByteStep, Next;
    NextIsByteStep(w, b);
    assert EXAMPLE[i..][1..] == EXAMPLE[i + 1..];
  }
}
