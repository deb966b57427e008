/** The AES context: key schedule and rounds as aj_sw_crypto.c computes them, against the cipher of FIPS 197. */
module AesEngine {
  import opened AesTables
  import opened Aes

  type Block = b: seq<bv8> | |b| == 16 witness [0, 0, 0, 0, 0, 0, 0, 0, 0, 0, 0, 0, 0, 0, 0, 0]

  /** The columns of the state are the input octets in order (section 3.4 of FIPS 197). */
  function StateOf(b: Block): State {
    State(Word(b[0], b[1], b[2], b[3]), Word(b[4], b[5], b[6], b[7]), Word(b[8], b[9], b[10], b[11]),
      Word(b[12], b[13], b[14], b[15]))
  }

  function BlockOf(s: State): Block {
    [s.c0.b0, s.c0.b1, s.c0.b2, s.c0.b3, s.c1.b0, s.c1.b1, s.c1.b2, s.c1.b3,
     s.c2.b0, s.c2.b1, s.c2.b2, s.c2.b3, s.c3.b0, s.c3.b1, s.c3.b2, s.c3.b3]
  }

  /** AES-128 on octets. */
  function CipherBlock(key: Block, b: Block): Block {
    BlockOf(Cipher(StateOf(key), StateOf(b)))
  }

  /** Four 32-bit words of the code. */
  datatype Quad = Quad(x0: bv32, x1: bv32, x2: bv32, x3: bv32)

  function PackedState(s: State): Quad {
    Quad(Packed(s.c0), Packed(s.c1), Packed(s.c2), Packed(s.c3))
  }

  /** Pack32: sixteen octets copied over four little-endian words. */
  function Pack32(b: Block): Quad {
    Quad(Pack(b[0], b[1], b[2], b[3]), Pack(b[4], b[5], b[6], b[7]), Pack(b[8], b[9], b[10], b[11]),
      Pack(b[12], b[13], b[14], b[15]))
  }

  /** Unpack32: the copy back. */
  function Unpack32(q: Quad): Block {
    BlockOf(State(Unpacked(q.x0), Unpacked(q.x1), Unpacked(q.x2), Unpacked(q.x3)))
  }

  lemma UnpackPacked(s: State)
    ensures Unpack32(PackedState(s)) == BlockOf(s)
  {
    hide Packed, Row0, Row1, Row2, Row3, Unpacked;
    PackedRows(s.c0);
    PackedRows(s.c1);
    PackedRows(s.c2);
    PackedRows(s.c3);
  }

  lemma Pack32Is(b: Block)
    ensures Pack32(b) == PackedState(StateOf(b)) && Unpack32(Pack32(b)) == b
  {
    hide Pack, Row0, Row1, Row2, Row3, Unpacked;
    UnpackPacked(StateOf(b));
    assert BlockOf(StateOf(b)) == b;
  }

  lemma UnpackPack(q: Quad)
    ensures Pack32(Unpack32(q)) == q
  {
    hide Pack, Row0, Row1, Row2, Row3;
    UnpackedWord(q.x0);
    UnpackedWord(q.x1);
    UnpackedWord(q.x2);
    UnpackedWord(q.x3);
  }

  function XorQuad(a: Quad, b: Quad): Quad {
    Quad(Xor(a.x0, b.x0), Xor(a.x1, b.x1), Xor(a.x2, b.x2), Xor(a.x3, b.x3))
  }

  lemma AddKeyPacked(s: State, k: State)
    ensures XorQuad(PackedState(s), PackedState(k)) == PackedState(AddRoundKey(s, k))
  {
    hide Packed, XorWord, Xor;
    PackedXor(s.c0, k.c0);
    PackedXor(s.c1, k.c1);
    PackedXor(s.c2, k.c2);
    PackedXor(s.c3, k.c3);
  }

  /** One round of the table form without the key. */
  function RoundQuad(q: Quad): Quad {
    Quad(RoundColumn(q.x0, q.x1, q.x2, q.x3), RoundColumn(q.x1, q.x2, q.x3, q.x0),
      RoundColumn(q.x2, q.x3, q.x0, q.x1), RoundColumn(q.x3, q.x0, q.x1, q.x2))
  }

  /** The last round of the table form without the key. */
  function LastRoundQuad(q: Quad): Quad {
    Quad(LastRoundColumn(q.x0, q.x1, q.x2, q.x3), LastRoundColumn(q.x1, q.x2, q.x3, q.x0),
      LastRoundColumn(q.x2, q.x3, q.x0, q.x1), LastRoundColumn(q.x3, q.x0, q.x1, q.x2))
  }

  /** A round by tables is MixColumns after ShiftRows after SubBytes. */
  lemma RoundQuadIs(s: State)
    ensures RoundQuad(PackedState(s)) == PackedState(MixColumns(ShiftRows(SubBytes(s))))
  {
    hide Packed, RoundColumn, MixColumn, SBox;
    RoundColumnIs(s.c0, s.c1, s.c2, s.c3);
    RoundColumnIs(s.c1, s.c2, s.c3, s.c0);
    RoundColumnIs(s.c2, s.c3, s.c0, s.c1);
    RoundColumnIs(s.c3, s.c0, s.c1, s.c2);
  }

  lemma LastRoundQuadIs(s: State)
    ensures LastRoundQuad(PackedState(s)) == PackedState(ShiftRows(SubBytes(s)))
  {
    hide Packed, LastRoundColumn, SBox;
    LastRoundColumnIs(s.c0, s.c1, s.c2, s.c3);
    LastRoundColumnIs(s.c1, s.c2, s.c3, s.c0);
    LastRoundColumnIs(s.c2, s.c3, s.c0, s.c1);
    LastRoundColumnIs(s.c3, s.c0, s.c1, s.c2);
  }

  const ROUNDS := 10
  const MAX_SCHEDULE_LEN := 48

  /** Rconst. */
  function Rconst(i: nat): bv32
    requires i < 12
  {
    if i < 4 then [0x1, 0x2, 0x4, 0x8][i] else if i < 8 then [0x10, 0x20, 0x40, 0x80][i - 4]
      else [0x1b, 0x36, 0x6c, 0xd8][i - 8]
  }

  lemma RconstIs(i: nat)
    requires i < 12
    ensures Rconst(i) == Packed(Word(Power(i), 0, 0, 0))
  {
    assert Power(4) == 0x10;
    assert Power(8) == 0x1b;
  }

  class Engine {
    const fkey: array<bv32>

    constructor ()
      ensures fresh(fkey) && fkey.Length == MAX_SCHEDULE_LEN
    {
      fkey := new bv32[MAX_SCHEDULE_LEN](_ => 0);
    }

    /** The schedule holds the expanded key, as far as the cipher needs it. */
    ghost predicate Keyed(key: Block)
      reads fkey
    {
      fkey.Length == MAX_SCHEDULE_LEN && forall i :: 0 <= i < 44 ==> fkey[i] == Packed(KeyWord(StateOf(key), i))
    }

    /** AJ_AES_Enable: the key expansion, four words to a turn; the last turn is one more than the cipher needs. */
    method Enable(key: Block)
      requires fkey.Length == MAX_SCHEDULE_LEN
      modifies fkey
      ensures Keyed(key) && forall i :: 0 <= i < MAX_SCHEDULE_LEN ==> fkey[i] == Packed(KeyWord(StateOf(key), i))
    {
      hide Packed, KeyWord, Pack, Rconst, Power, Rotl24, SubPacked, Xor, StateOf;
      var q := Pack32(key);
      Pack32Is(key);
      ghost var k := StateOf(key);
      FirstWords(k);
      fkey[0], fkey[1], fkey[2], fkey[3] := q.x0, q.x1, q.x2, q.x3;
      for i := 0 to ROUNDS + 1
        invariant forall j :: 0 <= j < 4 * i + 4 ==> fkey[j] == Packed(KeyWord(k, j))
      {
        ExpandFour(4 * i, i, k);
      }
    }

    /** One turn of the expansion, at `p`. */
    method ExpandFour(p: nat, i: nat, ghost k: State)
      requires p == 4 * i <= 4 * ROUNDS && fkey.Length == MAX_SCHEDULE_LEN
      requires forall j :: 0 <= j < p + 4 ==> fkey[j] == Packed(KeyWord(k, j))
      modifies fkey
      ensures forall j :: 0 <= j < p + 8 ==> fkey[j] == Packed(KeyWord(k, j))
    {
      hide Packed, KeyWord, Rconst, Rotl24, SubPacked, Xor, Keyed;
      ScheduleStep(k, i);
      PutWord(p + 4, Xor(Xor(fkey[p], SubPacked(Rotl24(fkey[p + 3]))), Rconst(i)), k);
      PutWord(p + 5, Xor(fkey[p + 1], fkey[p + 4]), k);
      PutWord(p + 6, Xor(fkey[p + 2], fkey[p + 5]), k);
      PutWord(p + 7, Xor(fkey[p + 3], fkey[p + 6]), k);
    }

    /** The next word of the schedule. */
    method PutWord(n: nat, w: bv32, ghost k: State)
      requires n < fkey.Length && w == Packed(KeyWord(k, n))
      requires forall j :: 0 <= j < n ==> fkey[j] == Packed(KeyWord(k, j))
      modifies fkey
      ensures forall j :: 0 <= j < n + 1 ==> fkey[j] == Packed(KeyWord(k, j))
    {
      hide Packed, KeyWord;
      fkey[n] := w;
    }

    /** The round macro; `key` is the place of its four key words. */
    method Round(q: Quad, key: nat) returns (r: Quad)
      requires key + 4 <= fkey.Length
      ensures r == XorQuad(RoundQuad(q), Quad(fkey[key], fkey[key + 1], fkey[key + 2], fkey[key + 3]))
    {
      hide RoundColumn, Xor;
      var y0 := Xor(RoundColumn(q.x0, q.x1, q.x2, q.x3), fkey[key]);
      var y1 := Xor(RoundColumn(q.x1, q.x2, q.x3, q.x0), fkey[key + 1]);
      var y2 := Xor(RoundColumn(q.x2, q.x3, q.x0, q.x1), fkey[key + 2]);
      var y3 := Xor(RoundColumn(q.x3, q.x0, q.x1, q.x2), fkey[key + 3]);
      r := Quad(y0, y1, y2, y3);
    }

    /** EncryptRounds: on the whitened state, the ten rounds of the cipher. */
    method EncryptRounds(x: Quad, ghost key: Block, ghost input: State) returns (out: Quad)
      requires Keyed(key) && x == PackedState(AfterRound(StateOf(key), input, 0))
      ensures out == PackedState(Cipher(StateOf(key), input))
    {
      hide PackedState, XorQuad, RoundQuad, LastRoundColumn, AfterRound, Cipher, RoundKey, KeyWord, StateOf, Packed,
           Xor;
      ghost var k := StateOf(key);
      out := x;
      for i := 0 to 4
        invariant out == PackedState(AfterRound(k, input, 2 * i))
      {
        RoundStep(key, input, 2 * i);
        RoundStep(key, input, 2 * i + 1);
        var y := Round(out, 8 * i + 4);
        out := Round(y, 8 * i + 8);
      }
      RoundStep(key, input, 8);
      KeyQuad(key, 10);
      LastRoundIs(k, input);
      var y := Round(out, 36);
      var x0 := LastRoundColumn(y.x0, y.x1, y.x2, y.x3);
      var x1 := LastRoundColumn(y.x1, y.x2, y.x3, y.x0);
      var x2 := LastRoundColumn(y.x2, y.x3, y.x0, y.x1);
      var x3 := LastRoundColumn(y.x3, y.x0, y.x1, y.x2);
      out := XorQuad(Quad(x0, x1, x2, x3), Quad(fkey[40], fkey[41], fkey[42], fkey[43]));
    }

    /** Whitening and rounds: the block cipher. */
    method EncryptQuad(x: Quad, ghost key: Block) returns (out: Quad)
      requires Keyed(key)
      ensures Unpack32(out) == CipherBlock(key, Unpack32(x))
    {
      hide PackedState, XorQuad, AddRoundKey, StateOf, BlockOf, Unpack32, Pack32;
      ghost var b := Unpack32(x);
      UnpackPack(x);
      Pack32Is(b);
      AddKeyPacked(StateOf(b), RoundKey(StateOf(key), 0));
      KeyQuad(key, 0);
      var tmp := XorQuad(x, Quad(fkey[0], fkey[1], fkey[2], fkey[3]));
      out := EncryptRounds(tmp, key, StateOf(b));
      UnpackPacked(Cipher(StateOf(key), StateOf(b)));
    }

    /** One round, with the words of the schedule. */
    lemma RoundStep(key: Block, input: State, r: nat)
      requires Keyed(key) && r < 9
      ensures XorQuad(RoundQuad(PackedState(AfterRound(StateOf(key), input, r))),
        Quad(fkey[4 * r + 4], fkey[4 * r + 5], fkey[4 * r + 6], fkey[4 * r + 7]))
           == PackedState(AfterRound(StateOf(key), input, r + 1))
    {
      hide PackedState, XorQuad, RoundQuad, AfterRound, RoundKey, KeyWord, StateOf;
      RoundIs(StateOf(key), input, r);
      KeyQuad(key, r + 1);
    }

    /** Four words of the schedule are a round key. */
    lemma KeyQuad(key: Block, r: nat)
      requires Keyed(key) && r <= 10
      ensures Quad(fkey[4 * r], fkey[4 * r + 1], fkey[4 * r + 2], fkey[4 * r + 3])
        == PackedState(RoundKey(StateOf(key), r))
    {
      hide Packed, KeyWord;
    }
  }

  lemma FirstWords(k: State)
    ensures KeyWord(k, 0) == k.c0 && KeyWord(k, 1) == k.c1 && KeyWord(k, 2) == k.c2 && KeyWord(k, 3) == k.c3
  {
  }

  /** Four words of the expansion, in the code's arithmetic. */
  lemma ScheduleStep(k: State, i: nat)
    requires i < 12
    ensures Packed(KeyWord(k, 4 * i + 4))
      == Xor(Xor(Packed(KeyWord(k, 4 * i)), SubPacked(Rotl24(Packed(KeyWord(k, 4 * i + 3))))), Rconst(i))
    ensures Packed(KeyWord(k, 4 * i + 5)) == Xor(Packed(KeyWord(k, 4 * i + 1)), Packed(KeyWord(k, 4 * i + 4)))
    ensures Packed(KeyWord(k, 4 * i + 6)) == Xor(Packed(KeyWord(k, 4 * i + 2)), Packed(KeyWord(k, 4 * i + 5)))
    ensures Packed(KeyWord(k, 4 * i + 7)) == Xor(Packed(KeyWord(k, 4 * i + 3)), Packed(KeyWord(k, 4 * i + 6)))
  {
    hide Packed, XorWord, SubWord, Power, Rconst, Rotl24, SubPacked, Xor;
    var p := 4 * i;
    var t := SubWord(RotWord(KeyWord(k, p + 3)));
    var rc := Word(Power(i), 0, 0, 0);
    assert KeyWord(k, p + 4) == XorWord(KeyWord(k, p), XorWord(t, rc));
    assert KeyWord(k, p + 5) == XorWord(KeyWord(k, p + 1), KeyWord(k, p + 4));
    assert KeyWord(k, p + 6) == XorWord(KeyWord(k, p + 2), KeyWord(k, p + 5));
    assert KeyWord(k, p + 7) == XorWord(KeyWord(k, p + 3), KeyWord(k, p + 6));
    hide KeyWord;
    PackedRot(KeyWord(k, p + 3));
    SubPackedIs(RotWord(KeyWord(k, p + 3)));
    RconstIs(i);
    PackedXor(t, rc);
    PackedXor(KeyWord(k, p), XorWord(t, rc));
    XorAssoc(Packed(KeyWord(k, p)), Packed(t), Packed(rc));
    PackedXor(KeyWord(k, p + 1), KeyWord(k, p + 4));
    PackedXor(KeyWord(k, p + 2), KeyWord(k, p + 5));
    PackedXor(KeyWord(k, p + 3), KeyWord(k, p + 6));
  }

  lemma XorAssoc(a: bv32, b: bv32, c: bv32)
    ensures Xor(a, Xor(b, c)) == Xor(Xor(a, b), c)
  {
  }

  /** One round, in the code's arithmetic. */
  lemma RoundIs(k: State, input: State, r: nat)
    ensures XorQuad(RoundQuad(PackedState(AfterRound(k, input, r))), PackedState(RoundKey(k, r + 1)))
      == PackedState(AfterRound(k, input, r + 1))
  {
    hide PackedState, XorQuad, RoundQuad, AddRoundKey, MixColumns, ShiftRows, SubBytes, RoundKey;
    var s := AfterRound(k, input, r);
    RoundQuadIs(s);
    AddKeyPacked(MixColumns(ShiftRows(SubBytes(s))), RoundKey(k, r + 1));
  }

  /** The last round, in the code's arithmetic. */
  lemma LastRoundIs(k: State, input: State)
    ensures XorQuad(LastRoundQuad(PackedState(AfterRound(k, input, 9))), PackedState(RoundKey(k, 10)))
      == PackedState(Cipher(k, input))
  {
    hide PackedState, XorQuad, LastRoundQuad, AddRoundKey, ShiftRows, SubBytes, RoundKey, AfterRound;
    LastRoundQuadIs(AfterRound(k, input, 9));
    AddKeyPacked(ShiftRows(SubBytes(AfterRound(k, input, 9))), RoundKey(k, 10));
  }
}
