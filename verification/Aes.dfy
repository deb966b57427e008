/** AES-128 as FIPS 197 defines it, and the word-wise code for it. */
module Aes {
  import opened AesTables

  /** Four octets: a column of the state, or a word of the key schedule. */
  datatype Word = Word(b0: bv8, b1: bv8, b2: bv8, b3: bv8)

  /** The state as its four columns (section 3.5 of FIPS 197). */
  datatype State = State(c0: Word, c1: Word, c2: Word, c3: Word)

  /** Addition in GF(2^8). */
  function Add(a: bv8, b: bv8): bv8 {
    a ^ b
  }

  function Sum4(a: bv8, b: bv8, c: bv8, d: bv8): bv8 {
    Add(Add(Add(a, b), c), d)
  }

  function XorWord(a: Word, b: Word): Word {
    Word(Add(a.b0, b.b0), Add(a.b1, b.b1), Add(a.b2, b.b2), Add(a.b3, b.b3))
  }

  // ---- The cipher of section 5.1 of FIPS 197 ----

  function SubWord(w: Word): Word {
    Word(SBox(w.b0), SBox(w.b1), SBox(w.b2), SBox(w.b3))
  }

  function SubBytes(s: State): State {
    State(SubWord(s.c0), SubWord(s.c1), SubWord(s.c2), SubWord(s.c3))
  }

  /** Row r moves r columns to the left. */
  function ShiftRows(s: State): State {
    State(
      Word(s.c0.b0, s.c1.b1, s.c2.b2, s.c3.b3),
      Word(s.c1.b0, s.c2.b1, s.c3.b2, s.c0.b3),
      Word(s.c2.b0, s.c3.b1, s.c0.b2, s.c1.b3),
      Word(s.c3.b0, s.c0.b1, s.c1.b2, s.c2.b3))
  }

  function MixColumn(w: Word): Word {
    Word(
      Sum4(GMul(2, w.b0), GMul(3, w.b1), w.b2, w.b3),
      Sum4(w.b0, GMul(2, w.b1), GMul(3, w.b2), w.b3),
      Sum4(w.b0, w.b1, GMul(2, w.b2), GMul(3, w.b3)),
      Sum4(GMul(3, w.b0), w.b1, w.b2, GMul(2, w.b3)))
  }

  function MixColumns(s: State): State {
    State(MixColumn(s.c0), MixColumn(s.c1), MixColumn(s.c2), MixColumn(s.c3))
  }

  function AddRoundKey(s: State, k: State): State {
    State(XorWord(s.c0, k.c0), XorWord(s.c1, k.c1), XorWord(s.c2, k.c2), XorWord(s.c3, k.c3))
  }

  // ---- The key expansion of section 5.2 of FIPS 197 ----

  function RotWord(w: Word): Word {
    Word(w.b1, w.b2, w.b3, w.b0)
  }

  /** x^n in GF(2^8). */
  function Power(n: nat): bv8 {
    if n == 0 then 1 else XTime(Power(n - 1))
  }

  /** Word `i` of the expanded key; Rcon[i / 4] is x^(i / 4 - 1). */
  function KeyWord(key: State, i: nat): Word {
    if i == 0 then key.c0
    else if i == 1 then key.c1
    else if i == 2 then key.c2
    else if i == 3 then key.c3
    else if i % 4 == 0 then
      XorWord(KeyWord(key, i - 4), XorWord(SubWord(RotWord(KeyWord(key, i - 1))), Word(Power(i / 4 - 1), 0, 0, 0)))
    else XorWord(KeyWord(key, i - 4), KeyWord(key, i - 1))
  }

  function RoundKey(key: State, r: nat): State {
    State(KeyWord(key, 4 * r), KeyWord(key, 4 * r + 1), KeyWord(key, 4 * r + 2), KeyWord(key, 4 * r + 3))
  }

  /** The state after round `r` < 10. */
  function AfterRound(key: State, input: State, r: nat): State {
    if r == 0 then AddRoundKey(input, RoundKey(key, 0))
    else AddRoundKey(MixColumns(ShiftRows(SubBytes(AfterRound(key, input, r - 1)))), RoundKey(key, r))
  }

  function Cipher(key: State, input: State): State {
    AddRoundKey(ShiftRows(SubBytes(AfterRound(key, input, 9))), RoundKey(key, 10))
  }

  // ---- Words as the code has them ----

  function Packed(w: Word): bv32 {
    Pack(w.b0, w.b1, w.b2, w.b3)
  }

  function Row0(x: bv32): bv8 { (x & 0xff) as bv8 }
  function Row1(x: bv32): bv8 { ((x >> 8) & 0xff) as bv8 }
  function Row2(x: bv32): bv8 { ((x >> 16) & 0xff) as bv8 }
  function Row3(x: bv32): bv8 { (x >> 24) as bv8 }

  function Unpacked(x: bv32): Word {
    Word(Row0(x), Row1(x), Row2(x), Row3(x))
  }

  function Rotl8(x: bv32): bv32 { (x << 8) | (x >> 24) }
  function Rotl16(x: bv32): bv32 { (x << 16) | (x >> 16) }
  function Rotl24(x: bv32): bv32 { (x << 24) | (x >> 8) }

  lemma PackedRows(w: Word)
    ensures Unpacked(Packed(w)) == w
  {
  }

  lemma UnpackedWord(x: bv32)
    ensures Packed(Unpacked(x)) == x
  {
  }

  function Xor(a: bv32, b: bv32): bv32 {
    a ^ b
  }

  lemma PackedXor(a: Word, b: Word)
    ensures Xor(Packed(a), Packed(b)) == Packed(XorWord(a, b))
  {
  }

  lemma PackedRot(w: Word)
    ensures Rotl24(Packed(w)) == Packed(RotWord(w))
  {
  }

  function Xor4(a: bv32, b: bv32, c: bv32, d: bv32): bv32 {
    Xor(Xor(Xor(a, b), c), d)
  }

  /** Four octets put together by exclusive or. */
  function Join(a: bv8, b: bv8, c: bv8, d: bv8): bv32 {
    (a as bv32) ^ ((b as bv32) << 8) ^ ((c as bv32) << 16) ^ ((d as bv32) << 24)
  }

  /** round_column: one column of a round, before the key. */
  function RoundColumn(x0: bv32, x1: bv32, x2: bv32, x3: bv32): bv32 {
    Xor4(FTable(Row0(x0)), Rotl8(FTable(Row1(x1))), Rotl16(FTable(Row2(x2))), Rotl24(FTable(Row3(x3))))
  }

  /** lastround_column: one column of the last round, before the key. */
  function LastRoundColumn(x0: bv32, x1: bv32, x2: bv32, x3: bv32): bv32 {
    Join(SBox(Row0(x0)), SBox(Row1(x1)), SBox(Row2(x2)), SBox(Row3(x3)))
  }

  /** SubBytes of the key schedule. */
  function SubPacked(x: bv32): bv32 {
    Pack(SBox(Row0(x)), SBox(Row1(x)), SBox(Row2(x)), SBox(Row3(x)))
  }

  lemma SubPackedIs(w: Word)
    ensures SubPacked(Packed(w)) == Packed(SubWord(w))
  {
    hide SBox, Pack, Row0, Row1, Row2, Row3;
    PackedRows(w);
  }

  lemma JoinIsPack(a: bv8, b: bv8, c: bv8, d: bv8)
    ensures Join(a, b, c, d) == Pack(a, b, c, d)
  {
  }

  lemma LastRoundColumnIs(w0: Word, w1: Word, w2: Word, w3: Word)
    ensures LastRoundColumn(Packed(w0), Packed(w1), Packed(w2), Packed(w3))
      == Packed(SubWord(Word(w0.b0, w1.b1, w2.b2, w3.b3)))
  {
    hide SBox, Row0, Row1, Row2, Row3, Join, Pack;
    PackedRows(w0);
    PackedRows(w1);
    PackedRows(w2);
    PackedRows(w3);
    JoinIsPack(SBox(w0.b0), SBox(w1.b1), SBox(w2.b2), SBox(w3.b3));
  }

  lemma RotatedPack8(a: bv8, b: bv8, c: bv8, d: bv8)
    ensures Rotl8(Pack(a, b, c, d)) == Pack(d, a, b, c)
  {
  }

  lemma RotatedPack16(a: bv8, b: bv8, c: bv8, d: bv8)
    ensures Rotl16(Pack(a, b, c, d)) == Pack(c, d, a, b)
  {
  }

  lemma RotatedPack24(a: bv8, b: bv8, c: bv8, d: bv8)
    ensures Rotl24(Pack(a, b, c, d)) == Pack(b, c, d, a)
  {
  }

  lemma PackedXor4(a: Word, b: Word, c: Word, d: Word)
    ensures Xor4(Packed(a), Packed(b), Packed(c), Packed(d)) == Packed(XorWord(XorWord(XorWord(a, b), c), d))
  {
    hide Packed, XorWord, Xor;
    PackedXor(a, b);
    PackedXor(XorWord(a, b), c);
    PackedXor(XorWord(XorWord(a, b), c), d);
  }

  /** The first column of the MixColumns matrix times an octet. */
  function Column(s: bv8): Word {
    Word(GMul(2, s), s, s, GMul(3, s))
  }

  /** The table form of a round's column is SubBytes, then MixColumn. */
  lemma RoundColumnIs(w0: Word, w1: Word, w2: Word, w3: Word)
    ensures RoundColumn(Packed(w0), Packed(w1), Packed(w2), Packed(w3))
      == Packed(MixColumn(SubWord(Word(w0.b0, w1.b1, w2.b2, w3.b3))))
  {
    hide SBox, FTable, Row0, Row1, Row2, Row3, GMul, Pack, Rotl8, Rotl16, Rotl24, Xor4, MixColumn;
    PackedRows(w0);
    PackedRows(w1);
    PackedRows(w2);
    PackedRows(w3);
    var a, b, c, d := SBox(w0.b0), SBox(w1.b1), SBox(w2.b2), SBox(w3.b3);
    TableColumns(w0.b0);
    TableColumns(w1.b1);
    TableColumns(w2.b2);
    TableColumns(w3.b3);
    MixedIs(a, b, c, d);
  }

  lemma TableColumns(x: bv8)
    ensures FTable(x) == Packed(Column(SBox(x)))
    ensures var c := Column(SBox(x)); Rotl8(FTable(x)) == Packed(Word(c.b3, c.b0, c.b1, c.b2))
    ensures var c := Column(SBox(x)); Rotl16(FTable(x)) == Packed(Word(c.b2, c.b3, c.b0, c.b1))
    ensures var c := Column(SBox(x)); Rotl24(FTable(x)) == Packed(Word(c.b1, c.b2, c.b3, c.b0))
  {
    hide SBox, FTable, GMul, Pack, Rotl8, Rotl16, Rotl24;
    FTableMeaning(x);
    var c := Column(SBox(x));
    RotatedPack8(c.b0, c.b1, c.b2, c.b3);
    RotatedPack16(c.b0, c.b1, c.b2, c.b3);
    RotatedPack24(c.b0, c.b1, c.b2, c.b3);
  }

  lemma MixedWord(a: bv8, b: bv8, c: bv8, d: bv8)
    ensures XorWord(XorWord(XorWord(Word(GMul(2, a), a, a, GMul(3, a)), Word(GMul(3, b), GMul(2, b), b, b)),
              Word(c, GMul(3, c), GMul(2, c), c)), Word(d, d, GMul(3, d), GMul(2, d)))
         == MixColumn(Word(a, b, c, d))
  {
    hide GMul, Add;
  }

  lemma MixedIs(a: bv8, b: bv8, c: bv8, d: bv8)
    ensures Xor4(Packed(Word(GMul(2, a), a, a, GMul(3, a))), Packed(Word(GMul(3, b), GMul(2, b), b, b)),
              Packed(Word(c, GMul(3, c), GMul(2, c), c)), Packed(Word(d, d, GMul(3, d), GMul(2, d))))
         == Packed(MixColumn(Word(a, b, c, d)))
  {
    hide GMul, Packed, Xor4, XorWord, MixColumn;
    PackedXor4(Word(GMul(2, a), a, a, GMul(3, a)), Word(GMul(3, b), GMul(2, b), b, b),
      Word(c, GMul(3, c), GMul(2, c), c), Word(d, d, GMul(3, d), GMul(2, d)));
    MixedWord(a, b, c, d);
  }
}
