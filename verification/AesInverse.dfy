/** AES-128 under a key never takes two blocks to one: what each step of FIPS 197 does can be undone. */
module AesInverse {
  import opened AesTables
  import opened Aes
  import opened AesEngine

  /** The inverse S-box (section 5.3.2 of FIPS 197). */
  function InvSBox(x: bv8): bv8 {
    var l := x & 0xf;
    if x < 0x80 then
      if x < 0x40 then
        if x < 0x20 then
          if x < 0x10 then
            Row8(l, 0x52, 0x09, 0x6a, 0xd5, 0x30, 0x36, 0xa5, 0x38, 0xbf, 0x40, 0xa3, 0x9e, 0x81, 0xf3, 0xd7, 0xfb)
          else
            Row8(l, 0x7c, 0xe3, 0x39, 0x82, 0x9b, 0x2f, 0xff, 0x87, 0x34, 0x8e, 0x43, 0x44, 0xc4, 0xde, 0xe9, 0xcb)
        else
          if x < 0x30 then
            Row8(l, 0x54, 0x7b, 0x94, 0x32, 0xa6, 0xc2, 0x23, 0x3d, 0xee, 0x4c, 0x95, 0x0b, 0x42, 0xfa, 0xc3, 0x4e)
          else
            Row8(l, 0x08, 0x2e, 0xa1, 0x66, 0x28, 0xd9, 0x24, 0xb2, 0x76, 0x5b, 0xa2, 0x49, 0x6d, 0x8b, 0xd1, 0x25)
      else
        if x < 0x60 then
          if x < 0x50 then
            Row8(l, 0x72, 0xf8, 0xf6, 0x64, 0x86, 0x68, 0x98, 0x16, 0xd4, 0xa4, 0x5c, 0xcc, 0x5d, 0x65, 0xb6, 0x92)
          else
            Row8(l, 0x6c, 0x70, 0x48, 0x50, 0xfd, 0xed, 0xb9, 0xda, 0x5e, 0x15, 0x46, 0x57, 0xa7, 0x8d, 0x9d, 0x84)
        else
          if x < 0x70 then
            Row8(l, 0x90, 0xd8, 0xab, 0x00, 0x8c, 0xbc, 0xd3, 0x0a, 0xf7, 0xe4, 0x58, 0x05, 0xb8, 0xb3, 0x45, 0x06)
          else
            Row8(l, 0xd0, 0x2c, 0x1e, 0x8f, 0xca, 0x3f, 0x0f, 0x02, 0xc1, 0xaf, 0xbd, 0x03, 0x01, 0x13, 0x8a, 0x6b)
    else
      if x < 0xc0 then
        if x < 0xa0 then
          if x < 0x90 then
            Row8(l, 0x3a, 0x91, 0x11, 0x41, 0x4f, 0x67, 0xdc, 0xea, 0x97, 0xf2, 0xcf, 0xce, 0xf0, 0xb4, 0xe6, 0x73)
          else
            Row8(l, 0x96, 0xac, 0x74, 0x22, 0xe7, 0xad, 0x35, 0x85, 0xe2, 0xf9, 0x37, 0xe8, 0x1c, 0x75, 0xdf, 0x6e)
        else
          if x < 0xb0 then
            Row8(l, 0x47, 0xf1, 0x1a, 0x71, 0x1d, 0x29, 0xc5, 0x89, 0x6f, 0xb7, 0x62, 0x0e, 0xaa, 0x18, 0xbe, 0x1b)
          else
            Row8(l, 0xfc, 0x56, 0x3e, 0x4b, 0xc6, 0xd2, 0x79, 0x20, 0x9a, 0xdb, 0xc0, 0xfe, 0x78, 0xcd, 0x5a, 0xf4)
      else
        if x < 0xe0 then
          if x < 0xd0 then
            Row8(l, 0x1f, 0xdd, 0xa8, 0x33, 0x88, 0x07, 0xc7, 0x31, 0xb1, 0x12, 0x10, 0x59, 0x27, 0x80, 0xec, 0x5f)
          else
            Row8(l, 0x60, 0x51, 0x7f, 0xa9, 0x19, 0xb5, 0x4a, 0x0d, 0x2d, 0xe5, 0x7a, 0x9f, 0x93, 0xc9, 0x9c, 0xef)
        else
          if x < 0xf0 then
            Row8(l, 0xa0, 0xe0, 0x3b, 0x4d, 0xae, 0x2a, 0xf5, 0xb0, 0xc8, 0xeb, 0xbb, 0x3c, 0x83, 0x53, 0x99, 0x61)
          else
            Row8(l, 0x17, 0x2b, 0x04, 0x7e, 0xba, 0x77, 0xd6, 0x26, 0xe1, 0x69, 0x14, 0x63, 0x55, 0x21, 0x0c, 0x7d)
  }

  lemma SBoxBackEighth0(x: bv8)
    requires x < 0x20
    ensures InvSBox(SBox(x)) == x
  {
  }

  lemma SBoxBackEighth1(x: bv8)
    requires 0x20 <= x < 0x40
    ensures InvSBox(SBox(x)) == x
  {
  }

  lemma SBoxBackEighth2(x: bv8)
    requires 0x40 <= x < 0x60
    ensures InvSBox(SBox(x)) == x
  {
  }

  lemma SBoxBackEighth3(x: bv8)
    requires 0x60 <= x < 0x80
    ensures InvSBox(SBox(x)) == x
  {
  }

  lemma SBoxBackEighth4(x: bv8)
    requires 0x80 <= x < 0xa0
    ensures InvSBox(SBox(x)) == x
  {
  }

  lemma SBoxBackEighth5(x: bv8)
    requires 0xa0 <= x < 0xc0
    ensures InvSBox(SBox(x)) == x
  {
  }

  lemma SBoxBackEighth6(x: bv8)
    requires 0xc0 <= x < 0xe0
    ensures InvSBox(SBox(x)) == x
  {
  }

  lemma SBoxBackEighth7(x: bv8)
    requires 0xe0 <= x
    ensures InvSBox(SBox(x)) == x
  {
  }

  /** The inverse S-box undoes the S-box. */
  lemma SBoxBack(x: bv8)
    ensures InvSBox(SBox(x)) == x
  {
    hide SBox, InvSBox;
    if x < 0x20 {
      SBoxBackEighth0(x);
    } else if x < 0x40 {
      SBoxBackEighth1(x);
    } else if x < 0x60 {
      SBoxBackEighth2(x);
    } else if x < 0x80 {
      SBoxBackEighth3(x);
    } else if x < 0xa0 {
      SBoxBackEighth4(x);
    } else if x < 0xc0 {
      SBoxBackEighth5(x);
    } else if x < 0xe0 {
      SBoxBackEighth6(x);
    } else {
      SBoxBackEighth7(x);
    }
  }

  // ---- MixColumns ----

  lemma AddSwap(a: bv8, b: bv8)
    ensures Add(a, b) == Add(b, a)
  {
  }

  lemma AddAssoc(a: bv8, b: bv8, c: bv8)
    ensures Add(Add(a, b), c) == Add(a, Add(b, c))
  {
  }

  lemma AddSelf(a: bv8, b: bv8)
    ensures Add(Add(a, b), b) == a
  {
  }

  /** The sums of two pairs, and of the pairs across. */
  lemma Across(a: bv8, b: bv8, c: bv8, d: bv8)
    ensures Add(Add(a, b), Add(c, d)) == Add(Add(a, c), Add(b, d))
  {
    hide Add;
    AddAssoc(Add(a, b), c, d);
    AddAssoc(a, b, c);
    AddSwap(b, c);
    AddAssoc(a, c, b);
    AddAssoc(Add(a, c), b, d);
  }

  /** XTime is a shift, and a constant for the bit shifted out. */
  function Carry(a: bv8): bv8 {
    if a & 0x80 != 0 then 0x1b else 0
  }

  function Twice(a: bv8): bv8 {
    a << 1
  }

  lemma XTimeIs(a: bv8)
    ensures XTime(a) == Add(Twice(a), Carry(a))
  {
  }

  lemma CarryAdd(a: bv8, b: bv8)
    ensures Carry(Add(a, b)) == Add(Carry(a), Carry(b))
  {
  }

  lemma TwiceAdd(a: bv8, b: bv8)
    ensures Twice(Add(a, b)) == Add(Twice(a), Twice(b))
  {
  }

  lemma XTimeAdd(a: bv8, b: bv8)
    ensures XTime(Add(a, b)) == Add(XTime(a), XTime(b))
  {
    hide XTime, Add, Carry, Twice;
    XTimeIs(a);
    XTimeIs(b);
    XTimeIs(Add(a, b));
    CarryAdd(a, b);
    TwiceAdd(a, b);
    Across(Twice(a), Twice(b), Carry(a), Carry(b));
  }

  lemma GMulTwo(a: bv8)
    ensures GMul(2, a) == XTime(a)
  {
  }

  lemma GMulThree(a: bv8)
    ensures GMul(3, a) == Add(XTime(a), a)
  {
  }

  /** A mixed octet by the sum `s` of its column. */
  function Mixed(a: bv8, b: bv8, s: bv8): bv8 {
    Add(Add(a, s), XTime(Add(a, b)))
  }

  lemma MixColumnIs(w: Word)
    ensures var s := Sum4(w.b0, w.b1, w.b2, w.b3);
      MixColumn(w) == Word(Mixed(w.b0, w.b1, s), Mixed(w.b1, w.b2, s), Mixed(w.b2, w.b3, s), Mixed(w.b3, w.b0, s))
  {
    hide GMul, XTime, Add, Sum4;
    MixedRow(w.b0, w.b1, w.b2, w.b3);
    MixedRow(w.b1, w.b2, w.b3, w.b0);
    MixedRow(w.b2, w.b3, w.b0, w.b1);
    MixedRow(w.b3, w.b0, w.b1, w.b2);
    Rotated(w.b0, w.b1, w.b2, w.b3);
    Rotated(w.b1, w.b2, w.b3, w.b0);
    Rotated(w.b2, w.b3, w.b0, w.b1);
  }

  lemma Rotated(a: bv8, b: bv8, c: bv8, d: bv8)
    ensures Sum4(a, b, c, d) == Sum4(b, c, d, a)
  {
    hide Add;
    AddAssoc(Add(a, b), c, d);
    AddAssoc(a, b, Add(c, d));
    AddSwap(a, Add(b, Add(c, d)));
    AddAssoc(b, c, d);
  }

  /** Two octets among four, with `t` and `u` more. */
  lemma RowSum(a: bv8, b: bv8, c: bv8, d: bv8, t: bv8, u: bv8)
    ensures Sum4(t, Add(u, b), c, d) == Add(Add(a, Sum4(a, b, c, d)), Add(t, u))
  {
    hide Add;
    var e := Add(c, d);
    AddAssoc(Add(t, Add(u, b)), c, d);
    AddAssoc(t, u, b);
    AddAssoc(Add(a, b), c, d);
    AddAssoc(a, b, e);
    AddSwap(a, Add(b, e));
    AddSwap(a, Add(Add(b, e), a));
    AddSelf(Add(b, e), a);
    AddAssoc(Add(t, u), b, e);
    AddSwap(Add(t, u), Add(b, e));
  }

  /** One row of the matrix, at each place in it. */
  lemma MixedRow(a: bv8, b: bv8, c: bv8, d: bv8)
    ensures var m := Mixed(a, b, Sum4(a, b, c, d));
      m == Sum4(GMul(2, a), GMul(3, b), c, d) == Sum4(d, GMul(2, a), GMul(3, b), c)
        == Sum4(c, d, GMul(2, a), GMul(3, b)) == Sum4(GMul(3, b), c, d, GMul(2, a))
  {
    hide GMul, XTime, Add, Sum4;
    GMulTwo(a);
    GMulThree(b);
    XTimeAdd(a, b);
    RowSum(a, b, c, d, XTime(a), XTime(b));
    var t, u := GMul(2, a), GMul(3, b);
    Rotated(t, u, c, d);
    Rotated(u, c, d, t);
    Rotated(c, d, t, u);
  }

  lemma SumKept(a: bv8, b: bv8, c: bv8, d: bv8, s: bv8, t: bv8, u: bv8, v: bv8)
    ensures Sum4(Add(Add(a, s), t), Add(Add(b, s), u), Add(Add(c, s), v), Add(Add(d, s), Add(Add(t, u), v)))
      == Sum4(a, b, c, d)
  {
    hide Add;
    PairSum(a, b, s, t, u);
    PairSum(c, d, s, v, Add(Add(t, u), v));
    AddSwap(v, Add(Add(t, u), v));
    AddSelf(Add(t, u), v);
    AddAssoc(Add(Add(Add(a, s), t), Add(Add(b, s), u)), Add(Add(c, s), v), Add(Add(d, s), Add(Add(t, u), v)));
    Across(Add(a, b), Add(t, u), Add(c, d), Add(t, u));
    AddAssoc(Add(a, b), c, d);
    AddSame(Add(Add(a, b), Add(c, d)), Add(t, u));
  }

  lemma AddSame(a: bv8, b: bv8)
    ensures Add(a, Add(b, b)) == a
  {
  }

  lemma LastPair(a: bv8, b: bv8, c: bv8, d: bv8)
    ensures Add(d, a) == Add(Add(Add(a, b), Add(b, c)), Add(c, d))
  {
    hide Add;
    MiddleGone(a, b, c);
    MiddleGone(a, c, d);
    AddSwap(a, d);
  }

  /** Mixing keeps the sum of a column. */
  lemma MixedSum(a: bv8, b: bv8, c: bv8, d: bv8, s: bv8)
    ensures Sum4(Mixed(a, b, s), Mixed(b, c, s), Mixed(c, d, s), Mixed(d, a, s)) == Sum4(a, b, c, d)
  {
    hide XTime, Add, Sum4;
    LastPair(a, b, c, d);
    XTimeAdd(Add(a, b), Add(b, c));
    XTimeAdd(Add(Add(a, b), Add(b, c)), Add(c, d));
    SumKept(a, b, c, d, s, XTime(Add(a, b)), XTime(Add(b, c)), XTime(Add(c, d)));
  }

  lemma PairSum(a: bv8, b: bv8, s: bv8, t: bv8, u: bv8)
    ensures Add(Add(Add(a, s), t), Add(Add(b, s), u)) == Add(Add(a, b), Add(t, u))
  {
    hide Add;
    Across(Add(a, s), t, Add(b, s), u);
    Across(a, s, b, s);
    AddSame(Add(a, b), s);
  }

  lemma SumsGone(a: bv8, s: bv8, t: bv8, u: bv8)
    ensures Add(Add(Add(Add(a, s), t), s), Add(t, u)) == Add(a, u)
  {
    hide Add;
    AddAssoc(Add(a, s), t, s);
    AddSwap(t, s);
    AddAssoc(Add(a, s), s, t);
    AddSelf(a, s);
    AddAssoc(Add(a, t), t, u);
    AddSelf(a, t);
  }

  lemma MiddleGone(a: bv8, b: bv8, c: bv8)
    ensures Add(Add(a, b), Add(b, c)) == Add(a, c)
  {
    hide Add;
    AddAssoc(Add(a, b), b, c);
    AddSelf(a, b);
  }

  /** What mixing twice makes of an octet `a` two rows away from `c`. */
  function TwiceMixed(a: bv8, c: bv8): bv8 {
    Add(a, XTime(XTime(Add(a, c))))
  }

  lemma MixedTwice(a: bv8, b: bv8, c: bv8, s: bv8)
    ensures Mixed(Mixed(a, b, s), Mixed(b, c, s), s) == TwiceMixed(a, c)
  {
    hide XTime, Add;
    var t, u := XTime(Add(a, b)), XTime(Add(b, c));
    PairSum(a, b, s, t, u);
    XTimeAdd(Add(a, b), Add(t, u));
    XTimeAdd(Add(a, b), Add(b, c));
    MiddleGone(a, b, c);
    SumsGone(a, s, t, XTime(Add(t, u)));
  }

  lemma MixColumnTwice(w: Word)
    ensures MixColumn(MixColumn(w))
      == Word(TwiceMixed(w.b0, w.b2), TwiceMixed(w.b1, w.b3), TwiceMixed(w.b2, w.b0), TwiceMixed(w.b3, w.b1))
  {
    hide MixColumn, Mixed, TwiceMixed, Add, Sum4;
    var s := Sum4(w.b0, w.b1, w.b2, w.b3);
    MixColumnIs(w);
    MixColumnIs(MixColumn(w));
    MixedSum(w.b0, w.b1, w.b2, w.b3, s);
    MixedTwice(w.b0, w.b1, w.b2, s);
    MixedTwice(w.b1, w.b2, w.b3, s);
    MixedTwice(w.b2, w.b3, w.b0, s);
    MixedTwice(w.b3, w.b0, w.b1, s);
  }

  lemma TwiceMixedBack(a: bv8, c: bv8)
    ensures TwiceMixed(TwiceMixed(a, c), TwiceMixed(c, a)) == a
  {
    hide XTime, Add;
    var t := XTime(XTime(Add(a, c)));
    AddSwap(a, c);
    Across(a, t, c, t);
    AddSame(Add(a, c), t);
    AddSelf(a, t);
  }

  /** Mixing a column four times changes nothing. */
  lemma MixColumnBack(w: Word)
    ensures MixColumn(MixColumn(MixColumn(MixColumn(w)))) == w
  {
    hide MixColumn, TwiceMixed;
    MixColumnTwice(w);
    MixColumnTwice(MixColumn(MixColumn(w)));
    TwiceMixedBack(w.b0, w.b2);
    TwiceMixedBack(w.b1, w.b3);
    TwiceMixedBack(w.b2, w.b0);
    TwiceMixedBack(w.b3, w.b1);
  }

  // ---- The cipher ----

  lemma WordTwice(a: Word, k: Word)
    ensures XorWord(XorWord(a, k), k) == a
  {
    hide Add;
    AddSelf(a.b0, k.b0);
    AddSelf(a.b1, k.b1);
    AddSelf(a.b2, k.b2);
    AddSelf(a.b3, k.b3);
  }

  lemma AddRoundKeyBack(s: State, k: State)
    ensures AddRoundKey(AddRoundKey(s, k), k) == s
  {
    hide XorWord;
    WordTwice(s.c0, k.c0);
    WordTwice(s.c1, k.c1);
    WordTwice(s.c2, k.c2);
    WordTwice(s.c3, k.c3);
  }

  function InvSubWord(w: Word): Word {
    Word(InvSBox(w.b0), InvSBox(w.b1), InvSBox(w.b2), InvSBox(w.b3))
  }

  /** InvSubBytes after InvShiftRows (sections 5.3.1 and 5.3.2 of FIPS 197). */
  function InvSubShift(s: State): State {
    State(
      InvSubWord(Word(s.c0.b0, s.c3.b1, s.c2.b2, s.c1.b3)),
      InvSubWord(Word(s.c1.b0, s.c0.b1, s.c3.b2, s.c2.b3)),
      InvSubWord(Word(s.c2.b0, s.c1.b1, s.c0.b2, s.c3.b3)),
      InvSubWord(Word(s.c3.b0, s.c2.b1, s.c1.b2, s.c0.b3)))
  }

  lemma SubWordBack(w: Word)
    ensures InvSubWord(SubWord(w)) == w
  {
    hide SBox, InvSBox;
    SBoxBack(w.b0);
    SBoxBack(w.b1);
    SBoxBack(w.b2);
    SBoxBack(w.b3);
  }

  lemma InvSubShiftBack(s: State)
    ensures InvSubShift(ShiftRows(SubBytes(s))) == s
  {
    hide SBox, InvSBox;
    SubWordBack(s.c0);
    SubWordBack(s.c1);
    SubWordBack(s.c2);
    SubWordBack(s.c3);
  }

  /** Three more mixings undo one. */
  function InvMixColumn(w: Word): Word {
    MixColumn(MixColumn(MixColumn(w)))
  }

  function InvMixColumns(s: State): State {
    State(InvMixColumn(s.c0), InvMixColumn(s.c1), InvMixColumn(s.c2), InvMixColumn(s.c3))
  }

  lemma InvMixColumnsBack(s: State)
    ensures InvMixColumns(MixColumns(s)) == s
  {
    hide MixColumn;
    MixColumnBack(s.c0);
    MixColumnBack(s.c1);
    MixColumnBack(s.c2);
    MixColumnBack(s.c3);
  }

  /** What the rounds up to `r` made `s` of. */
  function BeforeRound(key: State, s: State, r: nat): State
    decreases r
  {
    if r == 0 then AddRoundKey(s, RoundKey(key, 0))
    else BeforeRound(key, InvSubShift(InvMixColumns(AddRoundKey(s, RoundKey(key, r)))), r - 1)
  }

  /** The inverse cipher (section 5.3 of FIPS 197). */
  function InvCipher(key: State, s: State): State {
    BeforeRound(key, InvSubShift(AddRoundKey(s, RoundKey(key, 10))), 9)
  }

  lemma {:induction false} RoundsBack(key: State, input: State, r: nat)
    ensures BeforeRound(key, AfterRound(key, input, r), r) == input
  {
    hide AddRoundKey, InvMixColumns, MixColumns, InvSubShift, ShiftRows, SubBytes, RoundKey;
    if r == 0 {
      AddRoundKeyBack(input, RoundKey(key, 0));
    } else {
      var s := AfterRound(key, input, r - 1);
      AddRoundKeyBack(MixColumns(ShiftRows(SubBytes(s))), RoundKey(key, r));
      InvMixColumnsBack(ShiftRows(SubBytes(s)));
      InvSubShiftBack(s);
      RoundsBack(key, input, r - 1);
    }
  }

  /** The inverse cipher undoes the cipher, under every key. */
  lemma CipherBack(key: State, input: State)
    ensures InvCipher(key, Cipher(key, input)) == input
  {
    hide AddRoundKey, InvSubShift, ShiftRows, SubBytes, RoundKey, AfterRound, BeforeRound;
    var s := AfterRound(key, input, 9);
    AddRoundKeyBack(ShiftRows(SubBytes(s)), RoundKey(key, 10));
    InvSubShiftBack(s);
    RoundsBack(key, input, 9);
  }

  lemma StateBack(s: State)
    ensures StateOf(BlockOf(s)) == s
  {
  }

  lemma CipherIs(key: Block, b: Block)
    ensures CipherBlock(key, b) == BlockOf(Cipher(StateOf(key), StateOf(b)))
  {
    hide Cipher;
  }

  /** Under a key, different blocks have different cipher text. */
  lemma CipherInjective(key: Block, a: Block, b: Block)
    requires CipherBlock(key, a) == CipherBlock(key, b)
    ensures a == b
  {
    hide Cipher, InvCipher, StateOf, BlockOf, CipherBlock;
    CipherIs(key, a);
    CipherIs(key, b);
    StateBack(Cipher(StateOf(key), StateOf(a)));
    StateBack(Cipher(StateOf(key), StateOf(b)));
    CipherBack(StateOf(key), StateOf(a));
    CipherBack(StateOf(key), StateOf(b));
    BlockBack(a);
    BlockBack(b);
  }

  lemma BlockBack(b: Block)
    ensures BlockOf(StateOf(b)) == b
  {
  }
}
