/**
 The CRC of aj_crc16.c: the table loop is the bit-by-bit division of Appendix C of RFC 1662, and
 no error burst of up to sixteen bits goes unnoticed.
 */
module Crc16 {

  /** Entry `l` of a row of sixteen. */
  function Row(l: bv8, v0: bv16, v1: bv16, v2: bv16, v3: bv16, v4: bv16, v5: bv16, v6: bv16, v7: bv16,
    v8: bv16, v9: bv16, v10: bv16, v11: bv16, v12: bv16, v13: bv16, v14: bv16, v15: bv16): bv16 {
    if l < 8 then (if l < 4 then (if l < 2 then (if l < 1 then v0 else v1) else (if l < 3 then v2 else v3))
      else (if l < 6 then (if l < 5 then v4 else v5) else (if l < 7 then v6 else v7)))
    else (if l < 12 then (if l < 10 then (if l < 9 then v8 else v9) else (if l < 11 then v10 else v11))
      else (if l < 14 then (if l < 13 then v12 else v13) else (if l < 15 then v14 else v15)))
  }

  /** The table of the code. */
  function Table(x: bv8): bv16 {
    var l := x & 0xf;
    if x < 0x80 then
      if x < 0x40 then
        if x < 0x20 then
          if x < 0x10 then
            Row(l, 0x0000, 0x1189, 0x2312, 0x329B, 0x4624, 0x57AD, 0x6536, 0x74BF,
                0x8C48, 0x9DC1, 0xAF5A, 0xBED3, 0xCA6C, 0xDBE5, 0xE97E, 0xF8F7)
          else
            Row(l, 0x1081, 0x0108, 0x3393, 0x221A, 0x56A5, 0x472C, 0x75B7, 0x643E,
                0x9CC9, 0x8D40, 0xBFDB, 0xAE52, 0xDAED, 0xCB64, 0xF9FF, 0xE876)
        else
          if x < 0x30 then
            Row(l, 0x2102, 0x308B, 0x0210, 0x1399, 0x6726, 0x76AF, 0x4434, 0x55BD,
                0xAD4A, 0xBCC3, 0x8E58, 0x9FD1, 0xEB6E, 0xFAE7, 0xC87C, 0xD9F5)
          else
            Row(l, 0x3183, 0x200A, 0x1291, 0x0318, 0x77A7, 0x662E, 0x54B5, 0x453C,
                0xBDCB, 0xAC42, 0x9ED9, 0x8F50, 0xFBEF, 0xEA66, 0xD8FD, 0xC974)
      else
        if x < 0x60 then
          if x < 0x50 then
            Row(l, 0x4204, 0x538D, 0x6116, 0x709F, 0x0420, 0x15A9, 0x2732, 0x36BB,
                0xCE4C, 0xDFC5, 0xED5E, 0xFCD7, 0x8868, 0x99E1, 0xAB7A, 0xBAF3)
          else
            Row(l, 0x5285, 0x430C, 0x7197, 0x601E, 0x14A1, 0x0528, 0x37B3, 0x263A,
                0xDECD, 0xCF44, 0xFDDF, 0xEC56, 0x98E9, 0x8960, 0xBBFB, 0xAA72)
        else
          if x < 0x70 then
            Row(l, 0x6306, 0x728F, 0x4014, 0x519D, 0x2522, 0x34AB, 0x0630, 0x17B9,
                0xEF4E, 0xFEC7, 0xCC5C, 0xDDD5, 0xA96A, 0xB8E3, 0x8A78, 0x9BF1)
          else
            Row(l, 0x7387, 0x620E, 0x5095, 0x411C, 0x35A3, 0x242A, 0x16B1, 0x0738,
                0xFFCF, 0xEE46, 0xDCDD, 0xCD54, 0xB9EB, 0xA862, 0x9AF9, 0x8B70)
    else
      if x < 0xc0 then
        if x < 0xa0 then
          if x < 0x90 then
            Row(l, 0x8408, 0x9581, 0xA71A, 0xB693, 0xC22C, 0xD3A5, 0xE13E, 0xF0B7,
                0x0840, 0x19C9, 0x2B52, 0x3ADB, 0x4E64, 0x5FED, 0x6D76, 0x7CFF)
          else
            Row(l, 0x9489, 0x8500, 0xB79B, 0xA612, 0xD2AD, 0xC324, 0xF1BF, 0xE036,
                0x18C1, 0x0948, 0x3BD3, 0x2A5A, 0x5EE5, 0x4F6C, 0x7DF7, 0x6C7E)
        else
          if x < 0xb0 then
            Row(l, 0xA50A, 0xB483, 0x8618, 0x9791, 0xE32E, 0xF2A7, 0xC03C, 0xD1B5,
                0x2942, 0x38CB, 0x0A50, 0x1BD9, 0x6F66, 0x7EEF, 0x4C74, 0x5DFD)
          else
            Row(l, 0xB58B, 0xA402, 0x9699, 0x8710, 0xF3AF, 0xE226, 0xD0BD, 0xC134,
                0x39C3, 0x284A, 0x1AD1, 0x0B58, 0x7FE7, 0x6E6E, 0x5CF5, 0x4D7C)
      else
        if x < 0xe0 then
          if x < 0xd0 then
            Row(l, 0xC60C, 0xD785, 0xE51E, 0xF497, 0x8028, 0x91A1, 0xA33A, 0xB2B3,
                0x4A44, 0x5BCD, 0x6956, 0x78DF, 0x0C60, 0x1DE9, 0x2F72, 0x3EFB)
          else
            Row(l, 0xD68D, 0xC704, 0xF59F, 0xE416, 0x90A9, 0x8120, 0xB3BB, 0xA232,
                0x5AC5, 0x4B4C, 0x79D7, 0x685E, 0x1CE1, 0x0D68, 0x3FF3, 0x2E7A)
        else
          if x < 0xf0 then
            Row(l, 0xE70E, 0xF687, 0xC41C, 0xD595, 0xA12A, 0xB0A3, 0x8238, 0x93B1,
                0x6B46, 0x7ACF, 0x4854, 0x59DD, 0x2D62, 0x3CEB, 0x0E70, 0x1FF9)
          else
            Row(l, 0xF78F, 0xE606, 0xD49D, 0xC514, 0xB1AB, 0xA022, 0x92B9, 0x8330,
                0x7BC7, 0x6A4E, 0x58D5, 0x495C, 0x3DE3, 0x2C6A, 0x1EF1, 0x0F78)
  }

  // ---- Bit by bit ----

  /** Division by x^16 + x^12 + x^5 + 1, reflected: one shift. */
  function Shift(v: bv16): bv16 {
    if v & 1 != 0 then (v >> 1) ^ 0x8408 else v >> 1
  }

  function Xor(a: bv16, b: bv16): bv16 {
    a ^ b
  }

  function LowBit(bit: bool): bv16 {
    if bit then 1 else 0
  }

  /** One bit of the message goes in. */
  function BitStep(crc: bv16, bit: bool): bv16 {
    Shift(Xor(crc, LowBit(bit)))
  }

  function BitFold(crc: bv16, bits: seq<bool>): bv16
    decreases |bits|
  {
    if bits == [] then crc else BitFold(BitStep(crc, bits[0]), bits[1..])
  }

  /** The bits of an octet, least significant first. */
  function BitsOf(b: bv8): (bits: seq<bool>)
    ensures |bits| == 8
  {
    [b & 1 != 0, b & 2 != 0, b & 4 != 0, b & 8 != 0, b & 16 != 0, b & 32 != 0, b & 64 != 0, b & 128 != 0]
  }

  function Bits(buffer: seq<bv8>): (bits: seq<bool>)
    ensures |bits| == 8 * |buffer|
  {
    if buffer == [] then [] else BitsOf(buffer[0]) + Bits(buffer[1..])
  }

  lemma {:induction false} FoldAppend(crc: bv16, a: seq<bool>, b: seq<bool>)
    ensures BitFold(crc, a + b) == BitFold(BitFold(crc, a), b)
    decreases |a|
  {
    hide BitStep;
    if a == [] {
      assert a + b == b;
    } else {
      assert (a + b)[1..] == a[1..] + b;
      FoldAppend(BitStep(crc, a[0]), a[1..], b);
    }
  }

  // ---- Byte by byte ----

  function Shift8(v: bv16): bv16 {
    Shift(Shift(Shift(Shift(Shift(Shift(Shift(Shift(v))))))))
  }

  /** The table's index: the low octet of the register, and the octet that goes in. */
  function Index(crc: bv16, b: bv8): bv16 {
    (crc ^ (b as bv16)) & 0xff
  }

  lemma IndexSmall(crc: bv16, b: bv8)
    ensures Index(crc, b) < 0x100
  {
  }

  /** One turn of the table loop. */
  function TableStep(crc: bv16, b: bv8): bv16 {
    Xor(Table(Index(crc, b) as bv8), crc >> 8)
  }

  lemma TableEighth0(x: bv16)
    requires x < 0x20
    ensures Table(x as bv8) == Shift8(x)
  {
  }

  lemma TableEighth1(x: bv16)
    requires 0x20 <= x < 0x40
    ensures Table(x as bv8) == Shift8(x)
  {
  }

  lemma TableEighth2(x: bv16)
    requires 0x40 <= x < 0x60
    ensures Table(x as bv8) == Shift8(x)
  {
  }

  lemma TableEighth3(x: bv16)
    requires 0x60 <= x < 0x80
    ensures Table(x as bv8) == Shift8(x)
  {
  }

  lemma TableEighth4(x: bv16)
    requires 0x80 <= x < 0xa0
    ensures Table(x as bv8) == Shift8(x)
  {
  }

  lemma TableEighth5(x: bv16)
    requires 0xa0 <= x < 0xc0
    ensures Table(x as bv8) == Shift8(x)
  {
  }

  lemma TableEighth6(x: bv16)
    requires 0xc0 <= x < 0xe0
    ensures Table(x as bv8) == Shift8(x)
  {
  }

  lemma TableEighth7(x: bv16)
    requires 0xe0 <= x < 0x100
    ensures Table(x as bv8) == Shift8(x)
  {
  }

  lemma TableIs(x: bv16)
    requires x < 0x100
    ensures Table(x as bv8) == Shift8(x)
  {
    hide Table, Shift8;
    if x < 0x20 {
      TableEighth0(x);
    } else if x < 0x40 {
      TableEighth1(x);
    } else if x < 0x60 {
      TableEighth2(x);
    } else if x < 0x80 {
      TableEighth3(x);
    } else if x < 0xa0 {
      TableEighth4(x);
    } else if x < 0xc0 {
      TableEighth5(x);
    } else if x < 0xe0 {
      TableEighth6(x);
    } else {
      TableEighth7(x);
    }
  }

  function Half(v: bv16): bv16 {
    v >> 1
  }

  /** What a shift does without its condition: the low bit times the polynomial. */
  function Feedback(v: bv16): bv16 {
    if v & 1 != 0 then 0x8408 else 0
  }

  lemma ShiftParts(v: bv16)
    ensures Shift(v) == Xor(Half(v), Feedback(v))
  {
  }

  lemma HalfLinear(a: bv16, b: bv16)
    ensures Half(Xor(a, b)) == Xor(Half(a), Half(b))
  {
  }

  lemma FeedbackLinear(a: bv16, b: bv16)
    ensures Feedback(Xor(a, b)) == Xor(Feedback(a), Feedback(b))
  {
  }

  lemma XorAssoc(a: bv16, b: bv16, c: bv16)
    ensures Xor(Xor(a, b), c) == Xor(a, Xor(b, c))
  {
  }

  lemma XorComm(a: bv16, b: bv16)
    ensures Xor(a, b) == Xor(b, a)
  {
  }

  lemma XorSwap(a: bv16, b: bv16, c: bv16, d: bv16)
    ensures Xor(Xor(a, b), Xor(c, d)) == Xor(Xor(a, c), Xor(b, d))
  {
    hide Xor;
    XorAssoc(a, b, Xor(c, d));
    XorAssoc(b, c, d);
    XorComm(b, c);
    XorAssoc(c, b, d);
    XorAssoc(a, c, Xor(b, d));
  }

  lemma ShiftLinear(a: bv16, b: bv16)
    ensures Shift(Xor(a, b)) == Xor(Shift(a), Shift(b))
  {
    hide Shift, Xor, Feedback, Half;
    ShiftParts(a);
    ShiftParts(b);
    ShiftParts(Xor(a, b));
    HalfLinear(a, b);
    FeedbackLinear(a, b);
    XorSwap(Half(a), Half(b), Feedback(a), Feedback(b));
  }

  lemma Shift8Linear(a: bv16, b: bv16)
    ensures Shift8(Xor(a, b)) == Xor(Shift8(a), Shift8(b))
  {
    hide Shift, Xor;
    var a1, b1 := Shift(a), Shift(b);
    var a2, b2 := Shift(a1), Shift(b1);
    var a3, b3 := Shift(a2), Shift(b2);
    var a4, b4 := Shift(a3), Shift(b3);
    var a5, b5 := Shift(a4), Shift(b4);
    var a6, b6 := Shift(a5), Shift(b5);
    var a7, b7 := Shift(a6), Shift(b6);
    ShiftLinear(a, b);
    ShiftLinear(a1, b1);
    ShiftLinear(a2, b2);
    ShiftLinear(a3, b3);
    ShiftLinear(a4, b4);
    ShiftLinear(a5, b5);
    ShiftLinear(a6, b6);
    ShiftLinear(a7, b7);
  }

  /** The upper octet only moves down in eight shifts. */
  lemma Shift8High(v: bv16)
    ensures Shift8(v & 0xff00) == v >> 8
  {
  }

  lemma Halves(crc: bv16, b: bv8)
    ensures Xor(crc, b as bv16) == Xor(Index(crc, b), crc & 0xff00)
  {
  }

  /** A turn of the table loop is eight shifts. */
  lemma TableStepIs(crc: bv16, b: bv8)
    ensures TableStep(crc, b) == Shift8(Xor(crc, b as bv16))
  {
    hide Table, Shift8, Xor, Index;
    Halves(crc, b);
    Shift8Linear(Index(crc, b), crc & 0xff00);
    IndexSmall(crc, b);
    TableIs(Index(crc, b));
    Shift8High(crc);
  }

  // ---- The two agree ----

  /** AJ_CRC16_Compute's value: the table loop over a buffer. */
  function TableCrc(crc: bv16, buffer: seq<bv8>): bv16
    decreases |buffer|
  {
    if buffer == [] then crc else TableCrc(TableStep(crc, buffer[0]), buffer[1..])
  }

  lemma TableCrcSnoc(crc: bv16, buffer: seq<bv8>, b: bv8)
    ensures TableCrc(crc, buffer + [b]) == TableStep(TableCrc(crc, buffer), b)
    decreases |buffer|
  {
    hide TableStep;
    if buffer == [] {
      assert buffer + [b] == [b];
      assert [b][1..] == [];
    } else {
      assert (buffer + [b])[1..] == buffer[1..] + [b];
      TableCrcSnoc(TableStep(crc, buffer[0]), buffer[1..], b);
    }
  }

  /** AJ_CRC16_Compute. */
  method Compute(buffer: seq<bv8>, runningCrc: bv16) returns (crc: bv16)
    requires |buffer| < 0x1_0000
    ensures crc == BitFold(runningCrc, Bits(buffer))
  {
    hide TableStep, TableCrc, BitFold, Bits;
    crc := runningCrc;
    var i := 0;
    NoOctets(runningCrc, buffer);
    while i < |buffer|
      invariant i <= |buffer| && crc == TableCrc(runningCrc, buffer[..i])
    {
      assert buffer[..i + 1] == buffer[..i] + [buffer[i]];
      TableCrcSnoc(runningCrc, buffer[..i], buffer[i]);
      crc := TableStep(crc, buffer[i]);
      i := i + 1;
    }
    assert buffer[..i] == buffer;
    TableIsBits(runningCrc, buffer);
  }

  lemma NoOctets(crc: bv16, buffer: seq<bv8>)
    ensures TableCrc(crc, buffer[..0]) == crc
  {
  }

  /** The table loop is the bit-by-bit division, for every buffer and start value. */
  lemma {:induction false} TableIsBits(crc: bv16, buffer: seq<bv8>)
    ensures TableCrc(crc, buffer) == BitFold(crc, Bits(buffer))
    decreases |buffer|
  {
    hide TableStep, BitsOf, BitFold;
    if buffer == [] {
      NoBits(crc);
    } else {
      OctetIsBits(crc, buffer[0]);
      FoldAppend(crc, BitsOf(buffer[0]), Bits(buffer[1..]));
      TableIsBits(TableStep(crc, buffer[0]), buffer[1..]);
    }
  }

  lemma NoBits(crc: bv16)
    ensures BitFold(crc, []) == crc
  {
  }

  /** The low octet `w` of a message enters bit by bit as it would at once. */
  lemma OctetIsBits(crc: bv16, b: bv8)
    ensures TableStep(crc, b) == BitFold(crc, BitsOf(b))
  {
    hide TableStep, BitStep;
    TableStepIs(crc, b);
    Fold8(crc, b & 1 != 0, b & 2 != 0, b & 4 != 0, b & 8 != 0, b & 16 != 0, b & 32 != 0, b & 64 != 0, b & 128 != 0);
    EnterAtOnce(crc, b);
  }

  lemma Fold8(crc: bv16, b0: bool, b1: bool, b2: bool, b3: bool, b4: bool, b5: bool, b6: bool, b7: bool)
    ensures BitFold(crc, [b0, b1, b2, b3, b4, b5, b6, b7])
         == BitStep(BitStep(BitStep(BitStep(BitStep(BitStep(BitStep(BitStep(crc, b0), b1), b2), b3), b4), b5), b6), b7)
  {
    hide BitStep, BitFold;
    Fold4(crc, b0, b1, b2, b3);
    Fold4(BitFold(crc, [b0, b1, b2, b3]), b4, b5, b6, b7);
    assert [b0, b1, b2, b3, b4, b5, b6, b7] == [b0, b1, b2, b3] + [b4, b5, b6, b7];
    FoldAppend(crc, [b0, b1, b2, b3], [b4, b5, b6, b7]);
  }

  lemma FoldOnce(crc: bv16, bits: seq<bool>)
    requires bits != []
    ensures BitFold(crc, bits) == BitFold(BitStep(crc, bits[0]), bits[1..])
  {
  }

  lemma Fold4(crc: bv16, b0: bool, b1: bool, b2: bool, b3: bool)
    ensures BitFold(crc, [b0, b1, b2, b3]) == BitStep(BitStep(BitStep(BitStep(crc, b0), b1), b2), b3)
  {
    hide BitStep, BitFold;
    assert [b0, b1, b2, b3][1..] == [b1, b2, b3];
    assert [b1, b2, b3][1..] == [b2, b3];
    assert [b2, b3][1..] == [b3];
    assert [b3][1..] == [];
    FoldOnce(crc, [b0, b1, b2, b3]);
    FoldOnce(BitStep(crc, b0), [b1, b2, b3]);
    FoldOnce(BitStep(BitStep(crc, b0), b1), [b2, b3]);
    FoldOnce(BitStep(BitStep(BitStep(crc, b0), b1), b2), [b3]);
    NoBits(BitStep(BitStep(BitStep(BitStep(crc, b0), b1), b2), b3));
  }

  /** One bit enters, and the rest of the octet moves one place down. */
  lemma EnterOne(v: bv16, w: bv16)
    ensures Shift(Xor(v, w)) == Xor(BitStep(v, w & 1 != 0), Half(w))
  {
    hide Shift, Xor, LowBit, Half;
    LowAndRest(w);
    XorAssoc(v, LowBit(w & 1 != 0), w & 0xfffe);
    ShiftLinear(Xor(v, LowBit(w & 1 != 0)), w & 0xfffe);
    ShiftEven(w);
  }

  lemma LowAndRest(w: bv16)
    ensures w == Xor(LowBit(w & 1 != 0), w & 0xfffe)
  {
  }

  lemma ShiftEven(w: bv16)
    ensures Shift(w & 0xfffe) == Half(w)
  {
  }

  lemma OctetBits(b: bv8)
    ensures var w := b as bv16;
      && (w & 1 != 0 <==> b & 1 != 0) && (Half(w) & 1 != 0 <==> b & 2 != 0)
      && (Half(Half(w)) & 1 != 0 <==> b & 4 != 0) && (Half(Half(Half(w))) & 1 != 0 <==> b & 8 != 0)
  {
  }

  lemma EnterAtOnce(crc: bv16, b: bv8)
    ensures Shift8(Xor(crc, b as bv16))
         == BitStep(BitStep(BitStep(BitStep(BitStep(BitStep(BitStep(BitStep(crc, b & 1 != 0), b & 2 != 0), b & 4 != 0),
           b & 8 != 0),
              b & 16 != 0), b & 32 != 0), b & 64 != 0), b & 128 != 0)
  {
    hide Shift, Xor, BitStep, Half;
    EnterFour(crc, b as bv16);
    EnterFour(BitStep(BitStep(BitStep(BitStep(crc, b & 1 != 0), b & 2 != 0), b & 4 != 0), b & 8 != 0),
      (b >> 4) as bv16);
    OctetBits(b);
    OctetBits(b >> 4);
    Nibbles(b);
  }

  lemma EnterFour(v: bv16, w: bv16)
    ensures Shift(Shift(Shift(Shift(Xor(v, w)))))
         == Xor(BitStep(BitStep(BitStep(BitStep(v, w & 1 != 0), Half(w) & 1 != 0), Half(Half(w)) & 1 != 0),
           Half(Half(Half(w))) & 1 != 0),
              Half(Half(Half(Half(w)))))
  {
    hide Shift, Xor, BitStep, Half;
    var v1 := BitStep(v, w & 1 != 0);
    var v2 := BitStep(v1, Half(w) & 1 != 0);
    var v3 := BitStep(v2, Half(Half(w)) & 1 != 0);
    EnterOne(v, w);
    EnterOne(v1, Half(w));
    EnterOne(v2, Half(Half(w)));
    EnterOne(v3, Half(Half(Half(w))));
  }

  lemma Nibbles(b: bv8)
    ensures Half(Half(Half(Half(b as bv16)))) == (b >> 4) as bv16 && Half(Half(Half(Half((b >> 4) as bv16)))) == 0
    ensures (b >> 4) & 1 != 0 <==> b & 16 != 0
    ensures (b >> 4) & 2 != 0 <==> b & 32 != 0
    ensures (b >> 4) & 4 != 0 <==> b & 64 != 0
    ensures (b >> 4) & 8 != 0 <==> b & 128 != 0
    ensures forall v :: Xor(v, 0) == v
  {
  }

  // ---- Error bursts ----

  /** Bits that differ, place by place. */
  function Differ(a: seq<bool>, b: seq<bool>): (d: seq<bool>)
    requires |a| == |b|
    ensures |d| == |a|
  {
    seq(|a|, i requires 0 <= i < |a| => a[i] != b[i])
  }

  lemma StepDiffer(s: bv16, t: bv16, a: bool, b: bool)
    ensures Xor(BitStep(s, a), BitStep(t, b)) == BitStep(Xor(s, t), a != b)
  {
    hide Shift, Xor, LowBit;
    ShiftLinear(Xor(s, LowBit(a)), Xor(t, LowBit(b)));
    XorSwap(s, LowBit(a), t, LowBit(b));
    BitsDiffer(a, b);
  }

  lemma BitsDiffer(a: bool, b: bool)
    ensures Xor(LowBit(a), LowBit(b)) == LowBit(a != b)
  {
  }

  /** How two remainders differ depends only on how the messages do. */
  lemma {:induction false} FoldDiffer(s: bv16, t: bv16, a: seq<bool>, b: seq<bool>)
    requires |a| == |b|
    ensures Xor(BitFold(s, a), BitFold(t, b)) == BitFold(Xor(s, t), Differ(a, b))
    decreases |a|
  {
    hide BitStep, Xor;
    if a != [] {
      StepDiffer(s, t, a[0], b[0]);
      FoldDiffer(BitStep(s, a[0]), BitStep(t, b[0]), a[1..], b[1..]);
      assert Differ(a, b)[1..] == Differ(a[1..], b[1..]);
    }
  }

  /** `v` has no bit above its first `k`. */
  predicate Below(v: bv16, k: nat)
    decreases k
  {
    if k == 0 then v == 0 else Below(Half(v), k - 1)
  }

  lemma {:induction false} BelowMore(v: bv16, k: nat, n: nat)
    requires Below(v, k) && k <= n
    ensures Below(v, n)
    decreases n
  {
    hide Half;
    if k == 0 {
      if n > 0 {
        HalfZero();
        BelowMore(0, 0, n - 1);
      }
    } else {
      BelowMore(Half(v), k - 1, n - 1);
    }
  }

  lemma HalfZero()
    ensures Half(0) == 0
  {
  }

  lemma TopClear(v: bv16)
    requires Below(v, 15)
    ensures v & 0x8000 == 0
  {
    hide Below;
    Below5(v, 15);
    Below5(v >> 5, 10);
    Below5(v >> 5 >> 5, 5);
    BelowNone(v >> 5 >> 5 >> 5);
  }

  lemma BelowNone(v: bv16)
    ensures Below(v, 0) <==> v == 0
  {
  }

  lemma Below5(v: bv16, k: nat)
    requires Below(v, k) && k >= 5
    ensures Below(v >> 5, k - 5)
  {
    hide Half, Below;
    BelowHalf(v, k);
    BelowHalf(Half(v), k - 1);
    BelowHalf(Half(Half(v)), k - 2);
    BelowHalf(Half(Half(Half(v))), k - 3);
    BelowHalf(Half(Half(Half(Half(v)))), k - 4);
    FiveHalves(v);
  }

  lemma BelowHalf(v: bv16, k: nat)
    requires k > 0
    ensures Below(v, k) <==> Below(Half(v), k - 1)
  {
  }

  lemma FiveHalves(v: bv16)
    ensures Half(Half(Half(Half(Half(v))))) == v >> 5
  {
  }

  /** The polynomial's top bit shows in which way a shift went: from below, only from further below. */
  lemma ShiftFromBelow(v: bv16, k: nat)
    requires k <= 15 && Below(Shift(v), k)
    ensures v & 1 == 0 && Below(v, k + 1)
  {
    hide Half;
    BelowMore(Shift(v), k, 15);
    TopClear(Shift(v));
    LowBitShows(v);
  }

  lemma LowBitShows(v: bv16)
    requires Shift(v) & 0x8000 == 0
    ensures v & 1 == 0 && Shift(v) == Half(v)
  {
  }

  /** A difference that up to sixteen more bits cancel is small. */
  lemma {:induction false} Cancelled(v: bv16, d: seq<bool>)
    requires |d| <= 16 && BitFold(v, d) == 0
    ensures Below(v, |d|)
    decreases |d|
  {
    hide Shift, Below, Xor, LowBit;
    if d == [] {
      BelowNone(0);
    } else {
      Cancelled(BitStep(v, d[0]), d[1..]);
      ShiftFromBelow(Xor(v, LowBit(d[0])), |d| - 1);
      LowBitFree(v, d[0], |d|);
    }
  }

  lemma LowBitFree(v: bv16, bit: bool, k: nat)
    requires k > 0 && Below(Xor(v, LowBit(bit)), k)
    ensures Below(v, k)
  {
    hide Xor, Half, LowBit;
    HalfLinear(v, LowBit(bit));
    LowBitHalf(bit, Half(v));
  }

  lemma LowBitHalf(bit: bool, v: bv16)
    ensures Xor(v, Half(LowBit(bit))) == v
  {
  }

  /** Up to sixteen bits that are not all clear do not cancel. */
  lemma {:induction false} BurstShows(d: seq<bool>)
    requires |d| <= 16 && BitFold(0, d) == 0
    ensures forall i :: 0 <= i < |d| ==> !d[i]
    decreases |d|
  {
    hide BitFold, Shift, Below, Xor, LowBit;
    if d != [] {
      FoldOnce(0, d);
      Cancelled(BitStep(0, d[0]), d[1..]);
      ShiftFromBelow(Xor(0, LowBit(d[0])), |d| - 1);
      assert !d[0] by { OneIsOdd(d[0]); }
      ShiftZero();
      BurstShows(d[1..]);
    }
  }

  lemma OneIsOdd(bit: bool)
    requires Xor(0, LowBit(bit)) & 1 == 0
    ensures !bit
  {
  }

  lemma ShiftZero()
    ensures BitStep(0, false) == 0
  {
  }

  /** Clear bits do not make a difference vanish. */
  lemma {:induction false} ClearBits(v: bv16, d: seq<bool>)
    requires v != 0 && forall i :: 0 <= i < |d| ==> !d[i]
    ensures BitFold(v, d) != 0
    decreases |d|
  {
    hide Shift;
    if d != [] {
      ShiftNonzero(v);
      ClearBits(BitStep(v, d[0]), d[1..]);
    }
  }

  lemma ShiftNonzero(v: bv16)
    requires v != 0
    ensures BitStep(v, false) != 0
  {
  }

  /** Clear bits in front make no difference. */
  lemma {:induction false} ClearFront(d: seq<bool>)
    requires forall i :: 0 <= i < |d| ==> !d[i]
    ensures BitFold(0, d) == 0
    decreases |d|
  {
    hide BitStep;
    if d != [] {
      ShiftZero();
      ClearFront(d[1..]);
    }
  }

  /** Two different messages that differ only within sixteen bits in a row have different remainders. */
  lemma BitBurst(crc: bv16, a: seq<bool>, b: seq<bool>, at: nat)
    requires |a| == |b| && a != b
    requires forall i :: 0 <= i < |a| && !(at <= i < at + 16) ==> a[i] == b[i]
    ensures BitFold(crc, a) != BitFold(crc, b)
  {
    hide BitFold, Xor;
    var n := |a|;
    var from, to := if at < n then at else n, if at + 16 < n then at + 16 else n;
    var d := Differ(a, b);
    FoldDiffer(crc, crc, a, b);
    assert d == d[..from] + d[from..to] + d[to..];
    FoldAppend(0, d[..from] + d[from..to], d[to..]);
    FoldAppend(0, d[..from], d[from..to]);
    ClearFront(d[..from]);
    XorSelf(crc);
    XorSelf(BitFold(crc, a));
    if BitFold(0, d[from..to]) == 0 {
      BurstShows(d[from..to]);
      forall i | 0 <= i < n ensures a[i] == b[i] {
        if from <= i < to {
          assert d[i] == d[from..to][i - from] == false;
        }
      }
      assert false;
    }
    ClearBits(BitFold(0, d[from..to]), d[to..]);
  }

  lemma XorSelf(v: bv16)
    ensures Xor(v, v) == 0
  {
  }

  // ---- Octets again ----

  lemma {:induction false} BitsAt(buffer: seq<bv8>, i: nat)
    requires i < 8 * |buffer|
    ensures Bits(buffer)[i] == BitsOf(buffer[i / 8])[i % 8]
    decreases |buffer|
  {
    hide BitsOf;
    if i >= 8 {
      BitsAt(buffer[1..], i - 8);
    }
  }

  lemma OctetFromBits(a: bv8, b: bv8)
    requires BitsOf(a) == BitsOf(b)
    ensures a == b
  {
    var x, y := BitsOf(a), BitsOf(b);
    assert x[0] == y[0] && x[1] == y[1] && x[2] == y[2] && x[3] == y[3] && x[4] == y[4]
      && x[5] == y[5] && x[6] == y[6] && x[7] == y[7];
  }

  /** Buffers that differ, but only within two adjacent octets, have different running CRCs. */
  lemma TwoOctets(crc: bv16, a: seq<bv8>, b: seq<bv8>, at: nat)
    requires |a| == |b| && a != b
    requires forall i :: 0 <= i < |a| && i != at && i != at + 1 ==> a[i] == b[i]
    ensures TableCrc(crc, a) != TableCrc(crc, b)
  {
    hide BitsOf, Bits, BitFold, TableCrc;
    TableIsBits(crc, a);
    TableIsBits(crc, b);
    forall i | 0 <= i < 8 * |a| && !(8 * at <= i < 8 * at + 16) ensures Bits(a)[i] == Bits(b)[i] {
      BitsAt(a, i);
      BitsAt(b, i);
    }
    var k :| 0 <= k < |a| && a[k] != b[k];
    if Bits(a) == Bits(b) {
      forall j | 0 <= j < 8 ensures BitsOf(a[k])[j] == BitsOf(b[k])[j] {
        BitsAt(a, 8 * k + j);
        BitsAt(b, 8 * k + j);
      }
      assert BitsOf(a[k]) == BitsOf(b[k]);
      OctetFromBits(a[k], b[k]);
      assert false;
    }
    BitBurst(crc, Bits(a), Bits(b), 8 * at);
  }

  /** Sixteen is the limit: the seventeen bits of the polynomial itself leave no trace. */
  lemma SeventeenBitsVanish()
    ensures var d :=
      [true, false, false, false, true, false, false, false, false, false, false, true, false,
      false, false, false, true];
      BitFold(0, d) == 0
  {
    hide BitFold;
    var d := [true, false, false, false, true, false, false, false, false, false, false, true,
      false, false, false, false, true];
    var d1 := d[1..];
    assert d1 == [false, false, false, true, false, false, false, false]
      + [false, false, true, false, false, false, false, true];
    FoldOnce(0, d);
    FoldAppend(BitStep(0, true), [false, false, false, true, false, false, false, false],
      [false, false, true, false, false, false, false, true]);
    Fold8(BitStep(0, true), false, false, false, true, false, false, false, false);
    Fold8(0x84, false, false, true, false, false, false, false, true);
    FirstNine();
    LastEight();
  }

  lemma FirstNine()
    ensures BitStep(BitStep(BitStep(BitStep(BitStep(BitStep(BitStep(BitStep(BitStep(0, true), false), false), false),
      true), false), false), false), false) == 0x84
  {
  }

  lemma LastEight()
    ensures BitStep(BitStep(BitStep(BitStep(BitStep(BitStep(BitStep(BitStep(0x84, false), false), true), false), false),
      false), false), true) == 0
  {
  }

  // ---- The check octets ----

  /** rev[]: the four bits of `n` in reverse. */
  function Rev(n: bv16): bv8
    requires n < 16
  {
    if n < 8 then
      if n < 4 then (if n < 2 then (if n < 1 then 0x0 else 0x8) else (if n < 3 then 0x4 else 0xc))
      else (if n < 6 then (if n < 5 then 0x2 else 0xa) else (if n < 7 then 0x6 else 0xe))
    else
      if n < 12 then (if n < 10 then (if n < 9 then 0x1 else 0x9) else (if n < 11 then 0x5 else 0xd))
      else (if n < 14 then (if n < 13 then 0x3 else 0xb) else (if n < 15 then 0x7 else 0xf))
  }

  /** The octet with the bits of `b` from the other end. */
  function Mirror(b: bv8): bv8 {
    ((b & 1) << 7) | ((b & 2) << 5) | ((b & 4) << 3) | ((b & 8) << 1)
    | ((b >> 1) & 8) | ((b >> 3) & 4) | ((b >> 5) & 2) | (b >> 7)
  }

  lemma MirrorTwice(b: bv8)
    ensures Mirror(Mirror(b)) == b
  {
  }

  lemma RevIsMirror(crc: bv16)
    ensures (Rev(crc & 0xf) << 4) | Rev((crc >> 4) & 0xf) == Mirror((crc & 0xff) as bv8)
    ensures (Rev((crc >> 8) & 0xf) << 4) | Rev(crc >> 12) == Mirror((crc >> 8) as bv8)
  {
  }

  /** AJ_CRC16_Complete: low octet first, each with its bits reversed, so that the CRC can be read back. */
  method Complete(crc: bv16) returns (b0: bv8, b1: bv8)
    ensures b0 == Mirror((crc & 0xff) as bv8) && b1 == Mirror((crc >> 8) as bv8)
    ensures crc == (Mirror(b0) as bv16) | ((Mirror(b1) as bv16) << 8)
  {
    b0 := (Rev(crc & 0xf) << 4) | Rev((crc >> 4) & 0xf);
    b1 := (Rev((crc >> 8) & 0xf) << 4) | Rev(crc >> 12);
    hide Rev, Mirror;
    RevIsMirror(crc);
    MirrorTwice((crc & 0xff) as bv8);
    MirrorTwice((crc >> 8) as bv8);
  }
}
