/** The block modes of aj_sw_crypto.c and the CCM operations of aj_crypto.c, in place on the message buffer. */
module CcmCode {
  import opened Common
  import opened AesTables
  import opened Octets
  import opened Aes
  import opened AesEngine
  import opened AesInverse
  import opened Ccm

  /** AES-128 under a key, as a block function. */
  function Aes128(key: Block): BlockFunction {
    (b: Block) => CipherBlock(key, b)
  }

  lemma XorUnpacked(a: Block, b: Block)
    ensures Unpack32(XorQuad(Pack32(a), Pack32(b))) == XorBlock(a, b)
  {
    hide Pack32, Unpack32, PackedState, XorQuad;
    Pack32Is(a);
    Pack32Is(b);
    AddKeyPacked(StateOf(a), StateOf(b));
    UnpackPacked(AddRoundKey(StateOf(a), StateOf(b)));
    XorOfStates(a, b);
  }

  lemma XorOfStates(a: Block, b: Block)
    ensures BlockOf(AddRoundKey(StateOf(a), StateOf(b))) == XorBlock(a, b)
  {
    hide Add;
  }

  // ---- AJ_AES_CTR_128 ----

  /** Where and by what a buffer is changed. */
  ghost predicate Patched(before: seq<bv8>, after: seq<bv8>, at: nat, bytes: seq<bv8>) {
    at + |bytes| <= |before| == |after| && after == before[..at] + bytes + before[at + |bytes|..]
  }

  /** The inner loop: `n` octets of key stream over as many octets of input. */
  method XorInto(p: Block, src: array<bv8>, from: nat, dst: array<bv8>, to: nat, n: nat)
    requires n <= 16 && from + n <= src.Length && to + n <= dst.Length && (src == dst ==> from == to)
    modifies dst
    ensures forall j :: to <= j < to + n ==> dst[j] == Add(old(src[from + (j - to)]), p[j - to])
    ensures forall j :: 0 <= j < dst.Length && !(to <= j < to + n) ==> dst[j] == old(dst[j])
  {
    hide Add;
    for i := 0 to n
      invariant forall j :: to <= j < to + i ==> dst[j] == Add(old(src[from + (j - to)]), p[j - to])
      invariant forall j :: 0 <= j < dst.Length && !(to <= j < to + i) ==> dst[j] == old(dst[j])
    {
      dst[to + i] := Add(src[from + i], p[i]);
    }
  }

  lemma Assembled(m: seq<bv8>, m': seq<bv8>, at: nat, bytes: seq<bv8>)
    requires at + |bytes| <= |m| == |m'| && (forall j :: at <= j < at + |bytes| ==> m'[j] == bytes[j - at])
    requires forall j :: 0 <= j < |m| && !(at <= j < at + |bytes|) ==> m'[j] == m[j]
    ensures Patched(m, m', at, bytes)
  {
    assert m' == m[..at] + bytes + m[at + |bytes|..];
  }

  /** AJ_AES_CTR_128: input and output are the same place or do not touch. */
  method Ctr(engine: Engine, ghost key: Block, src: array<bv8>, from: nat, dst: array<bv8>, to: nat, len: nat,
             ctr: array<bv8>)
    requires engine.Keyed(key) && from + len <= src.Length && to + len <= dst.Length && (src == dst ==> from == to)
    requires ctr.Length == 16 && ctr != src && ctr != dst
    modifies dst, ctr
    ensures Patched(old(dst[..]), dst[..], to,
      XorBytes(old(src[from..from + len]), Stream(Aes128(key), old(ctr[..]), len)))
    ensures ctr[..] == Advance(old(ctr[..]), len)
  {
    hide Stream, Advance, Pack32, Unpack32, CipherBlock, Add, Patched, Aes128;
    var counter := Pack32(ctr[..]);
    Pack32Is(ctr[..]);
    ghost var m, x := dst[..], XorBytes(src[from..from + len], Stream(Aes128(key), ctr[..], len));
    counter := CtrLoop(engine, key, src, from, dst, to, len, counter);
    Assembled(m, dst[..], to, x);
    ghost var m' := dst[..];
    var last := Unpack32(counter);
    forall i | 0 <= i < 16 {
      ctr[i] := last[i];
    }
    assert ctr[..] == last && dst[..] == m';
  }

  /** One block through the cipher. */
  method KeyBlock(engine: Engine, ghost key: Block, counter: Quad) returns (p: Block)
    requires engine.Keyed(key)
    ensures p == Aes128(key)(Unpack32(counter))
  {
    hide Pack32, Unpack32, CipherBlock;
    var tmp := engine.EncryptQuad(counter, key);
    p := Unpack32(tmp);
  }

  /** The loop of AJ_AES_CTR_128. */
  method CtrLoop(engine: Engine, ghost key: Block, src: array<bv8>, from: nat, dst: array<bv8>, to: nat, len: nat,
                 ctr: Quad) returns (counter: Quad)
    requires engine.Keyed(key) && from + len <= src.Length && to + len <= dst.Length && (src == dst ==> from == to)
    modifies dst
    ensures Unpack32(counter) == Advance(Unpack32(ctr), len)
    ensures forall j :: to <= j < to + len ==>
      dst[j] == Add(old(src[from + (j - to)]), Stream(Aes128(key), Unpack32(ctr), len)[j - to])
    ensures forall j :: 0 <= j < dst.Length && !(to <= j < to + len) ==> dst[j] == old(dst[j])
  {
    hide Stream, Advance, Pack32, Unpack32, Aes128, Bump, Add;
    counter := ctr;
    ghost var stream := Stream(Aes128(key), Unpack32(ctr), len);
    var done := 0;
    assert stream[0..] == stream;
    while done < len
      invariant done <= len && Advance(Unpack32(counter), len - done) == Advance(Unpack32(ctr), len)
      invariant stream[done..] == Stream(Aes128(key), Unpack32(counter), len - done)
      invariant forall j :: to <= j < to + done ==> dst[j] == Add(old(src[from + (j - to)]), stream[j - to])
      invariant forall j :: 0 <= j < dst.Length && !(to <= j < to + done) ==> dst[j] == old(dst[j])
      decreases len - done
    {
      var n := if len - done < 16 then len - done else 16;
      StreamAt(Aes128(key), Unpack32(counter), stream, done, n);
      CtrTurn(engine, key, src, from + done, dst, to + done, n, counter);
      done := done + n;
      UnpackPack(counter);
      counter := Bump(counter);
    }
    StreamNone(Aes128(key), Unpack32(counter));
  }

  /** One turn of the loop: a block of key stream, and the inner loop. */
  method CtrTurn(engine: Engine, ghost key: Block, src: array<bv8>, from: nat, dst: array<bv8>, to: nat, n: nat,
                 counter: Quad)
    requires
      && engine.Keyed(key) && n <= 16 && from + n <= src.Length && to + n <= dst.Length
      && (src == dst ==> from == to)
    modifies dst
    ensures forall j :: to <= j < to + n ==>
      dst[j] == Add(old(src[from + (j - to)]), Aes128(key)(Unpack32(counter))[j - to])
    ensures forall j :: 0 <= j < dst.Length && !(to <= j < to + n) ==> dst[j] == old(dst[j])
  {
    hide Aes128, Unpack32, Add;
    var p := KeyBlock(engine, key, counter);
    XorInto(p, src, from, dst, to, n);
  }

  lemma StreamAt(E: BlockFunction, c: Block, stream: seq<bv8>, done: nat, n: nat)
    requires
      && done < |stream| && stream[done..] == Stream(E, c, |stream| - done)
      && n == if |stream| - done < 16 then |stream| - done else 16
    ensures forall j :: done <= j < done + n ==> stream[j] == E(c)[j - done]
    ensures stream[done + n..] == Stream(E, BumpBlock(c), |stream| - done - n)
    ensures Advance(c, |stream| - done) == Advance(BumpBlock(c), |stream| - done - n)
  {
    hide Stream, Advance, BumpBlock;
    StreamStep(E, c, |stream| - done);
    forall j | done <= j < done + n ensures stream[j] == E(c)[j - done] {
      assert stream[j] == stream[done..][j - done] == stream[done..][..n][j - done];
    }
    assert stream[done + n..] == stream[done..][n..];
  }

  lemma StreamStep(E: BlockFunction, c: Block, n: nat)
    requires n > 0
    ensures var k := if n < 16 then n else 16;
      Stream(E, c, n)[..k] == E(c)[..k] && Stream(E, c, n)[k..] == Stream(E, BumpBlock(c), n - k)
        && Advance(c, n) == Advance(BumpBlock(c), n - k)
  {
    hide BumpBlock;
  }

  lemma StreamNone(E: BlockFunction, c: Block)
    ensures Stream(E, c, 0) == [] && Advance(c, 0) == c
  {
  }

  // ---- AJ_AES_ECB_128_ENCRYPT ----

  /**
   AJ_AES_ECB_128_ENCRYPT leaves the first round key out: AES-128 of the input plus the key, and of the
   input under the zero key only.
   */
  method EcbEncrypt(engine: Engine, ghost key: Block, input: Block) returns (out: Block)
    requires engine.Keyed(key)
    ensures out == Aes128(key)(XorBlock(input, key))
    ensures out == Aes128(key)(input) <==> key == ZERO
  {
    hide Pack32, Unpack32, PackedState, CipherBlock, BlockOf, AddRoundKey, RoundKey, AfterRound;
    EcbMeets(key, input);
    Pack32Is(input);
    KeyCancels(input, key);
    var out32 := engine.EncryptRounds(Pack32(input), key, StateOf(XorBlock(input, key)));
    UnpackPacked(Cipher(StateOf(key), StateOf(XorBlock(input, key))));
    CipherIs(key, XorBlock(input, key));
    out := Unpack32(out32);
  }

  lemma AddZero(a: bv8, k: bv8)
    ensures Add(a, k) == a <==> k == 0
  {
  }

  /** Adding the key changes every block, unless it is the zero key. */
  lemma XorBlockSame(b: Block, key: Block)
    ensures XorBlock(b, key) == b <==> key == ZERO
  {
    hide Add;
    forall i | 0 <= i < 16
      ensures XorBlock(b, key)[i] == b[i] <==> key[i] == 0
    {
      AddZero(b[i], key[i]);
    }
    if key == ZERO {
      assert XorBlock(b, key) == b;
    } else {
      assert exists i :: 0 <= i < 16 && key[i] != 0;
    }
  }

  /** When the single-block function gives AES-128 of its input: under the zero key only, and then for every input. */
  lemma EcbMeets(key: Block, input: Block)
    ensures Aes128(key)(XorBlock(input, key)) == Aes128(key)(input) <==> key == ZERO
  {
    hide CipherBlock, XorBlock;
    XorBlockSame(input, key);
    if Aes128(key)(XorBlock(input, key)) == Aes128(key)(input) {
      CipherInjective(key, XorBlock(input, key), input);
    }
  }

  /** The key and the plain text of appendix B of FIPS 197: the result is not AES-128 of that plain text. */
  lemma EcbDiffers()
    ensures var key: Block :=
      [0x2b, 0x7e, 0x15, 0x16, 0x28, 0xae, 0xd2, 0xa6, 0xab, 0xf7, 0x15, 0x88, 0x09, 0xcf, 0x4f, 0x3c];
      var input: Block :=
        [0x32, 0x43, 0xf6, 0xa8, 0x88, 0x5a, 0x30, 0x8d, 0x31, 0x31, 0x98, 0xa2, 0xe0, 0x37, 0x07, 0x34];
      Aes128(key)(XorBlock(input, key)) != Aes128(key)(input)
  {
    hide Aes128, XorBlock;
    var key: Block := [0x2b, 0x7e, 0x15, 0x16, 0x28, 0xae, 0xd2, 0xa6, 0xab, 0xf7, 0x15, 0x88, 0x09, 0xcf, 0x4f, 0x3c];
    var input: Block :=
      [0x32, 0x43, 0xf6, 0xa8, 0x88, 0x5a, 0x30, 0x8d, 0x31, 0x31, 0x98, 0xa2, 0xe0, 0x37, 0x07, 0x34];
    assert key[0] == 0x2b;
    EcbMeets(key, input);
  }

  /** Whitening the exclusive or with the key gives the block itself. */
  lemma KeyCancels(b: Block, key: Block)
    ensures AfterRound(StateOf(key), StateOf(XorBlock(b, key)), 0) == StateOf(b)
  {
    hide XorWord;
    var s, k := StateOf(b), StateOf(key);
    FirstWords(k);
    XorOfStates(b, key);
    StateBack(AddRoundKey(s, k));
    WordTwice(s.c0, k.c0);
    WordTwice(s.c1, k.c1);
    WordTwice(s.c2, k.c2);
    WordTwice(s.c3, k.c3);
  }

  // ---- AJ_AES_CBC_128_ENCRYPT ----

  /** The cipher text of CBC mode. */
  function CbcText(E: BlockFunction, iv: Block, blocks: seq<Block>): seq<bv8>
    decreases |blocks|
  {
    if blocks == [] then [] else E(XorBlock(iv, blocks[0])) + CbcText(E, E(XorBlock(iv, blocks[0])), blocks[1..])
  }

  lemma BlocksStep(s: seq<bv8>)
    requires |s| >= 16
    ensures Blocks(s) == [s[..16]] + Blocks(s[16..])
  {
    if |s| == 16 {
      assert s + Zeros8(0) == s && s[..16] == s;
    }
  }

  lemma CbcStep(E: BlockFunction, iv: Block, b: Block, rest: seq<Block>)
    ensures Cbc(E, iv, [b] + rest) == Cbc(E, E(XorBlock(iv, b)), rest)
    ensures CbcText(E, iv, [b] + rest) == E(XorBlock(iv, b)) + CbcText(E, E(XorBlock(iv, b)), rest)
  {
    assert ([b] + rest)[1..] == rest;
  }

  method CbcEncrypt(engine: Engine, ghost key: Block, input: seq<bv8>, out: array<bv8>, iv: Block) returns (iv': Block)
    requires engine.Keyed(key) && |input| % 16 == 0 && |input| <= out.Length
    modifies out
    ensures iv' == Cbc(Aes128(key), iv, Blocks(input))
    ensures out[..] == CbcText(Aes128(key), iv, Blocks(input)) + old(out[|input|..])
  {
    hide Cbc, CbcText, Blocks, Pack32, Unpack32, CipherBlock, XorBlock;
    ghost var E := Aes128(key);
    iv' := iv;
    var done := 0;
    ghost var text: seq<bv8> := [];
    while done < |input|
      invariant done <= |input| && done % 16 == 0
      invariant Cbc(E, iv', Blocks(input[done..])) == Cbc(E, iv, Blocks(input))
      invariant text + CbcText(E, iv', Blocks(input[done..])) == CbcText(E, iv, Blocks(input))
      invariant |text| == done && out[..done] == text && out[|input|..] == old(out[|input|..])
    {
      var b: Block := input[done..done + 16];
      BlocksStep(input[done..]);
      assert input[done..][..16] == b && input[done..][16..] == input[done + 16..];
      CbcStep(E, iv', b, Blocks(input[done + 16..]));
      XorUnpacked(iv', b);
      var ivt := engine.EncryptQuad(XorQuad(Pack32(iv'), Pack32(b)), key);
      iv' := Unpack32(ivt);
      forall i | 0 <= i < 16 {
        out[done + i] := iv'[i];
      }
      text := text + iv';
      assert out[..done + 16] == text;
      done := done + 16;
    }
    assert input[done..] == [];
    NoBlocks(E, iv');
  }

  lemma NoBlocks(E: BlockFunction, iv: Block)
    ensures Blocks([]) == [] && Cbc(E, iv, []) == iv && CbcText(E, iv, []) == []
  {
  }

  // ---- aj_crypto.c ----

  /** The block at an offset. */
  function BlockAt(m: seq<bv8>, at: nat): Block
    requires at + 16 <= |m|
  {
    m[at..at + 16]
  }

  /** CCM_Context; the first MAC block shares its place with the working data. */
  class Context {
    const T: array<bv8>
    const ivec: array<bv8>
    var ivec0: Block
    var A: Block

    ghost predicate Valid()
      reads this
    {
      T.Length == 16 && ivec.Length == 16 && T != ivec
    }

    /** InitCCMContext. */
    constructor (nonce: seq<bv8>, hdrLen: nat, msgLen: nat, tagLen: nat)
      requires |nonce| <= 15 && hdrLen <= msgLen < 0x8000_0000 && tagLen <= 16
      ensures Valid() && fresh(T) && fresh(ivec)
      ensures ivec[..] == Ivec(nonce) && ivec0 == ZERO && A == FirstBlock(nonce, hdrLen, msgLen - hdrLen, tagLen)
    {
      var iv := Ivec(nonce);
      T := new bv8[16](_ => 0);
      ivec := new bv8[16](i requires 0 <= i < 16 => iv[i]);
      ivec0 := ZERO;
      A := FirstBlock(nonce, hdrLen, msgLen - hdrLen, tagLen);
    }

    /** One block of the MAC: the cipher block becomes the tag and the next vector. */
    method MacBlock(engine: Engine, ghost key: Block, b: Block)
      requires Valid() && engine.Keyed(key)
      modifies T, this`ivec0
      ensures ivec0 == Aes128(key)(XorBlock(old(ivec0), b)) && T[..] == ivec0
    {
      hide Cbc, CbcText, Blocks, CipherBlock, XorBlock;
      ghost var iv := ivec0;
      BlocksStep(b);
      NoBlocks(Aes128(key), Aes128(key)(XorBlock(iv, b)));
      CbcStep(Aes128(key), iv, b, []);
      assert b[..16] == b && b[16..] == [] && [b] + [] == [b];
      ivec0 := CbcEncrypt(engine, key, b, T, ivec0);
      assert T[..] == T[..16] + T[16..];
    }

    /** CBC_MAC over `len` octets of the message. */
    method CbcMac(engine: Engine, ghost key: Block, msg: array<bv8>, at: nat, len: nat)
      requires Valid() && engine.Keyed(key) && at + len <= msg.Length && msg != T
      modifies T, this`ivec0, this`A
      ensures ivec0 == Cbc(Aes128(key), old(ivec0), Blocks(msg[at..at + len]))
      ensures old(T[..]) == old(ivec0) ==> T[..] == ivec0
    {
      hide Cbc, CbcText, Blocks, CipherBlock, XorBlock;
      ghost var E := Aes128(key);
      ghost var input := msg[at..at + len];
      var done := 0;
      while len - done >= 16
        invariant done <= len && Cbc(E, ivec0, Blocks(input[done..])) == Cbc(E, old(ivec0), Blocks(input))
        invariant old(T[..]) == old(ivec0) ==> T[..] == ivec0
        invariant msg[..] == old(msg[..])
      {
        var b: Block := BlockAt(msg[..], at + done);
        BlocksStep(input[done..]);
        assert input[done..][..16] == b && input[done..][16..] == input[done + 16..];
        CbcStep(E, ivec0, b, Blocks(input[done + 16..]));
        MacBlock(engine, key, b);
        done := done + 16;
      }
      if done < len {
        A := PadBlock(msg[at + done..at + len]);
        assert input[done..] == msg[at + done..at + len];
        LastBlock(E, ivec0, input[done..]);
        MacBlock(engine, key, A);
      } else {
        assert input[done..] == [];
        NoBlocks(E, ivec0);
      }
    }

    /** Compute_CCM_AuthTag. */
    method AuthTag(engine: Engine, ghost key: Block, msg: array<bv8>, mLen: nat, hdrLen: nat, ghost nonce: seq<bv8>,
                   ghost tagLen: nat)
      requires Valid() && engine.Keyed(key) && hdrLen + mLen <= msg.Length && msg != T
      requires |nonce| <= 15 && tagLen <= 16 && mLen < 0x8000_0000
      requires ivec0 == ZERO && A == FirstBlock(nonce, hdrLen, mLen, tagLen)
      modifies T, this`ivec0, this`A
      ensures T[..] == Tag(Aes128(key), nonce, msg[..hdrLen], msg[hdrLen..hdrLen + mLen], tagLen)
    {
      hide Cbc, CbcText, Blocks, CipherBlock, XorBlock, HeaderBlocks, FirstBlock, PadBlock;
      ghost var E := Aes128(key);
      ghost var hdr, body := msg[..hdrLen], msg[hdrLen..hdrLen + mLen];
      ghost var first := A;
      MacBlock(engine, key, A);
      CbcOne(E, ZERO, first);
      if hdrLen > 0 {
        var firstFew := if hdrLen < 14 then hdrLen else 14;
        A := PadBlock([Octet(hdrLen / 256 % 256), Octet(hdrLen % 256)] + msg[..firstFew]);
        HeaderBlocksAre(hdr, firstFew);
        CbcStep(E, ivec0, A, Blocks(hdr[firstFew..]));
        assert hdr[..firstFew] == msg[..firstFew] && hdr[firstFew..] == msg[firstFew..firstFew + (hdrLen - firstFew)];
        MacBlock(engine, key, A);
        CbcMac(engine, key, msg, firstFew, hdrLen - firstFew);
      } else {
        NoHeader(E, ivec0, hdr);
      }
      assert ivec0 == Cbc(E, E(XorBlock(ZERO, first)), HeaderBlocks(hdr));
      NoBlocks(E, ivec0);
      if mLen > 0 {
        CbcMac(engine, key, msg, hdrLen, mLen);
      } else {
        assert body == [];
      }
      CbcAppend(E, ZERO, [first], HeaderBlocks(hdr));
      CbcAppend(E, ZERO, [first] + HeaderBlocks(hdr), Blocks(body));
    }
  }

  lemma LastBlock(E: BlockFunction, iv: Block, s: seq<bv8>)
    requires 0 < |s| < 16
    ensures Cbc(E, iv, Blocks(s)) == E(XorBlock(iv, PadBlock(s)))
  {
    assert Blocks(s) == [PadBlock(s)] + [];
    CbcStep(E, iv, PadBlock(s), []);
  }

  lemma CbcOne(E: BlockFunction, iv: Block, b: Block)
    ensures Cbc(E, iv, [b]) == E(XorBlock(iv, b))
  {
    assert [b] + [] == [b];
    CbcStep(E, iv, b, []);
  }

  lemma NoHeader(E: BlockFunction, iv: Block, hdr: seq<bv8>)
    requires hdr == []
    ensures Cbc(E, iv, HeaderBlocks(hdr)) == iv
  {
  }

  /** The first header block has room for fourteen octets of the header. */
  lemma HeaderBlocksAre(hdr: seq<bv8>, k: nat)
    requires hdr != [] && k == if |hdr| < 14 then |hdr| else 14
    ensures HeaderBlocks(hdr) == [PadBlock([Octet(|hdr| / 256 % 256), Octet(|hdr| % 256)] + hdr[..k])]
      + Blocks(hdr[k..])
  {
    hide Octet;
    var s := HeaderOctets(hdr);
    if |hdr| <= 14 {
      assert hdr[..k] == hdr && hdr[k..] == [];
    } else {
      assert s[..16] == [Octet(|hdr| / 256 % 256), Octet(|hdr| % 256)] + hdr[..14] && s[16..] == hdr[14..];
      assert PadBlock(s[..16]) == s[..16];
    }
  }

  /** AJ_AES_Disable. */
  method Disable(engine: Engine)
    modifies engine.fkey
    ensures forall i :: 0 <= i < engine.fkey.Length ==> engine.fkey[i] == 0
  {
    forall i | 0 <= i < engine.fkey.Length {
      engine.fkey[i] := 0;
    }
  }

  /** The two runs of counter mode both operations make: over the tag, then over the body. */
  method TagAndBody(engine: Engine, ghost key: Block, tag: array<bv8>, at: nat, msg: array<bv8>, msgLen: nat,
                    hdrLen: nat, tagLen: nat, ivec: array<bv8>)
    requires engine.Keyed(key) && ivec.Length == 16 && ivec != msg && ivec != tag
    requires
      && hdrLen <= msgLen && msgLen + tagLen <= msg.Length && at + tagLen <= tag.Length
      && (tag == msg ==> at == msgLen)
    modifies msg, ivec
    ensures Patched(old(msg[..]), msg[..], 0,
              Crypted(Aes128(key), old(ivec[..]), old(msg[..hdrLen]), old(msg[hdrLen..msgLen]),
                old(tag[at..at + tagLen])))
  {
    hide Stream, Advance, XorBytes, CipherBlock, Patched;
    ghost var m, E, iv := msg[..], Aes128(key), ivec[..];
    ghost var u := XorBytes(tag[at..at + tagLen], Stream(E, iv, tagLen));
    Ctr(engine, key, tag, at, msg, msgLen, tagLen, ivec);
    ghost var m1 := msg[..];
    Untouched(m, m1, hdrLen, msgLen, u);
    ghost var c := XorBytes(m[hdrLen..msgLen], Stream(E, Advance(iv, tagLen), msgLen - hdrLen));
    if msgLen != hdrLen {
      Ctr(engine, key, msg, hdrLen, msg, hdrLen, msgLen - hdrLen, ivec);
    }
    TagThenBody(m, m1, msg[..], hdrLen, msgLen, u, c);
  }

  lemma Untouched(m: seq<bv8>, m1: seq<bv8>, from: nat, at: nat, u: seq<bv8>)
    requires from <= at && Patched(m, m1, at, u)
    ensures m1[from..at] == m[from..at]
  {
  }

  /** AJ_Encrypt_CCM: the context can always be allocated. */
  method EncryptCcm(engine: Engine, key: Block, msg: array<bv8>, msgLen: nat, hdrLen: nat, tagLen: nat, nonce: seq<bv8>)
    returns (status: Status)
    requires engine.fkey.Length == MAX_SCHEDULE_LEN
    requires hdrLen <= msgLen < 0x8000_0000 && tagLen <= 16 && msgLen + tagLen <= msg.Length && |nonce| <= 15
    modifies msg, engine.fkey
    ensures status == OK && forall i :: 0 <= i < engine.fkey.Length ==> engine.fkey[i] == 0
    ensures Patched(old(msg[..]), msg[..], 0,
      Sealed(Aes128(key), nonce, old(msg[..hdrLen]), old(msg[hdrLen..msgLen]), tagLen))
  {
    hide Tag, Crypted, Ivec, FirstBlock, CipherBlock, Patched;
    status := OK;
    var context := new Context(nonce, hdrLen, msgLen, tagLen);
    engine.Enable(key);
    context.AuthTag(engine, key, msg, msgLen - hdrLen, hdrLen, nonce, tagLen);
    ghost var t := context.T[..];
    assert t[..tagLen] == context.T[0..tagLen];
    TagAndBody(engine, key, context.T, 0, msg, msgLen, hdrLen, tagLen, context.ivec);
    Disable(engine);
  }

  /** Changing the tag's place and then the body's. */
  lemma TagThenBody(m: seq<bv8>, m1: seq<bv8>, m2: seq<bv8>, hdrLen: nat, msgLen: nat, u: seq<bv8>, c: seq<bv8>)
    requires hdrLen <= msgLen && msgLen + |u| <= |m| && |c| == msgLen - hdrLen
    requires Patched(m, m1, msgLen, u) && (if c == [] then m2 == m1 else Patched(m1, m2, hdrLen, c))
    ensures Patched(m, m2, 0, m[..hdrLen] + c + u)
    ensures m1[hdrLen..msgLen] == m[hdrLen..msgLen]
  {
    assert m1 == m[..hdrLen] + m[hdrLen..msgLen] + u + m[msgLen + |u|..];
    assert m1[msgLen..] == u + m[msgLen + |u|..];
  }

  /** AJ_Decrypt_CCM up to the comparison: the plain text in place, and its authentication block. */
  method Uncover(engine: Engine, key: Block, msg: array<bv8>, msgLen: nat, hdrLen: nat, tagLen: nat, nonce: seq<bv8>)
    returns (context: Context)
    requires engine.fkey.Length == MAX_SCHEDULE_LEN
    requires hdrLen <= msgLen < 0x8000_0000 && tagLen <= 16 && msgLen + tagLen <= msg.Length && |nonce| <= 15
    modifies msg, engine.fkey
    ensures fresh(context) && fresh(context.T) && context.Valid()
    ensures var plain :=
      Crypted(Aes128(key), Ivec(nonce), old(msg[..hdrLen]), old(msg[hdrLen..msgLen]),
      old(msg[msgLen..msgLen + tagLen]));
      && Patched(old(msg[..]), msg[..], 0, plain) && msg[..msgLen + tagLen] == plain
      && context.T[..] == Tag(Aes128(key), nonce, old(msg[..hdrLen]), plain[hdrLen..msgLen], tagLen)
  {
    hide Tag, Crypted, Ivec, FirstBlock, CipherBlock, Patched;
    context := new Context(nonce, hdrLen, msgLen, tagLen);
    engine.Enable(key);
    ghost var m := msg[..];
    ghost var hdr, body, tag := m[..hdrLen], m[hdrLen..msgLen], m[msgLen..msgLen + tagLen];
    ghost var plain := Crypted(Aes128(key), Ivec(nonce), hdr, body, tag);
    TagAndBody(engine, key, msg, msgLen, msg, msgLen, hdrLen, tagLen, context.ivec);
    ghost var m2 := msg[..];
    CryptedFront(Aes128(key), Ivec(nonce), hdr, body, tag);
    Front(m, m2, hdr, plain[hdrLen..msgLen], plain[msgLen..]);
    assert m2[..msgLen + tagLen] == m2[..hdrLen] + m2[hdrLen..msgLen] + m2[msgLen..msgLen + tagLen];
    assert msg[..hdrLen] == hdr
      && msg[hdrLen..hdrLen + (msgLen - hdrLen)] == m2[hdrLen..msgLen] == plain[hdrLen..msgLen];
    context.AuthTag(engine, key, msg, msgLen - hdrLen, hdrLen, nonce, tagLen);
    assert msg[..] == m2;
  }

  /** AJ_Decrypt_CCM: on a tag that does not match, nothing of the message is left. */
  method DecryptCcm(engine: Engine, key: Block, msg: array<bv8>, msgLen: nat, hdrLen: nat, tagLen: nat, nonce: seq<bv8>)
    returns (status: Status)
    requires engine.fkey.Length == MAX_SCHEDULE_LEN
    requires hdrLen <= msgLen < 0x8000_0000 && tagLen <= 16 && msgLen + tagLen <= msg.Length && |nonce| <= 15
    modifies msg, engine.fkey
    ensures var r :=
      Opened(Aes128(key), nonce, old(msg[..hdrLen]), old(msg[hdrLen..msgLen]), old(msg[msgLen..msgLen + tagLen]));
      status == (if r.0 then OK else ErrSecurity) && Patched(old(msg[..]), msg[..], 0, r.1)
    ensures forall i :: 0 <= i < engine.fkey.Length ==> engine.fkey[i] == 0
  {
    hide Tag, Crypted, Ivec, Opened, CipherBlock, Zeros8, Patched;
    status := OK;
    ghost var m, n := msg[..], msgLen + tagLen;
    var context := Uncover(engine, key, msg, msgLen, hdrLen, tagLen, nonce);
    ghost var m2 := msg[..];
    OpenedIs(Aes128(key), nonce, m[..hdrLen], m[hdrLen..msgLen], m[msgLen..n], context.T[..]);
    Disable(engine);
    assert msg[..] == m2 && msg[msgLen..n] == m2[..n][msgLen..];
    assert context.T[..tagLen] == context.T[..][..tagLen];
    if context.T[..tagLen] != msg[msgLen..msgLen + tagLen] {
      PatchedFront(m, m2, m2[..n]);
      ClearMessage(msg, msgLen + tagLen);
      status := ErrSecurity;
    }
  }

  lemma OpenedIs(E: BlockFunction, nonce: seq<bv8>, hdr: seq<bv8>, body: seq<bv8>, tag: seq<bv8>, t: Block)
    requires |nonce| <= 15 && |tag| <= 16 && |body| < 0x8000_0000
    requires var plain := Crypted(E, Ivec(nonce), hdr, body, tag);
      t == Tag(E, nonce, hdr, plain[|hdr|..|hdr| + |body|], |tag|)
    ensures var plain := Crypted(E, Ivec(nonce), hdr, body, tag);
      Opened(E, nonce, hdr, body, tag)
      == if t[..|tag|] == plain[|hdr| + |body|..] then (true, plain) else (false, Zeros8(|hdr| + |body| + |tag|))
  {
    hide Tag, Crypted, Ivec;
  }

  method ClearMessage(msg: array<bv8>, n: nat)
    requires n <= msg.Length
    modifies msg
    ensures forall m :: |m| == msg.Length && m[n..] == old(msg[n..]) ==> Patched(m, msg[..], 0, Zeros8(n))
  {
    ghost var before := msg[..];
    forall i | 0 <= i < n {
      msg[i] := 0;
    }
    forall m | |m| == msg.Length && m[n..] == before[n..] ensures Patched(m, msg[..], 0, Zeros8(n)) {
      assert msg[..] == m[..0] + Zeros8(n) + m[n..];
    }
  }

  lemma CryptedFront(E: BlockFunction, iv: Block, hdr: seq<bv8>, body: seq<bv8>, tag: seq<bv8>)
    ensures var s := Crypted(E, iv, hdr, body, tag); var n := |hdr| + |body|; s == hdr + s[|hdr|..n] + s[n..]
  {
    hide Stream, Advance, XorBytes;
    Three(hdr, XorBytes(body, Stream(E, Advance(iv, |tag|), |body|)), XorBytes(tag, Stream(E, iv, |tag|)));
  }

  lemma Front(m: seq<bv8>, m2: seq<bv8>, a: seq<bv8>, b: seq<bv8>, c: seq<bv8>)
    requires Patched(m, m2, 0, a + b + c)
    ensures m2[..|a|] == a && m2[|a|..|a| + |b|] == b && m2[|a| + |b|..|a| + |b| + |c|] == c
    ensures m2[|a| + |b| + |c|..] == m[|a| + |b| + |c|..]
  {
    assert m2 == a + b + c + m[|a| + |b| + |c|..];
  }

  /** Encrypting and then decrypting in the same buffer gives the message back and accepts it. */
  method EncryptThenDecrypt(engine: Engine, key: Block, msg: array<bv8>, msgLen: nat, hdrLen: nat, tagLen: nat,
                            nonce: seq<bv8>) returns (status: Status)
    requires engine.fkey.Length == MAX_SCHEDULE_LEN
    requires hdrLen <= msgLen < 0x8000_0000 && tagLen <= 16 && msgLen + tagLen <= msg.Length && |nonce| <= 15
    modifies msg, engine.fkey
    ensures status == OK && msg[..msgLen] == old(msg[..msgLen]) && msg[msgLen + tagLen..] == old(msg[msgLen + tagLen..])
  {
    hide Sealed, Opened, Patched, Tag, CipherBlock;
    ghost var m := msg[..];
    ghost var hdr, body := msg[..hdrLen], msg[hdrLen..msgLen];
    status := EncryptCcm(engine, key, msg, msgLen, hdrLen, tagLen, nonce);
    ghost var s := Sealed(Aes128(key), nonce, hdr, body, tagLen);
    ghost var m1 := msg[..];
    PatchedFront(m, m1, s);
    OpenedSealed(Aes128(key), nonce, hdr, body, tagLen);
    SubSlice(m1, 0, |s|, 0, hdrLen);
    SubSlice(m1, 0, |s|, hdrLen, msgLen);
    SubSlice(m1, 0, |s|, msgLen, |s|);
    status := DecryptCcm(engine, key, msg, msgLen, hdrLen, tagLen, nonce);
    ghost var r := Opened(Aes128(key), nonce, s[..hdrLen], s[hdrLen..msgLen], s[msgLen..]).1;
    PatchedFront(m1, msg[..], r);
    Front(m1, msg[..], hdr, body, r[msgLen..]);
    assert m[..msgLen] == hdr + body;
    assert msg[..msgLen] == msg[..][..hdrLen] + msg[..][hdrLen..msgLen];
  }

  lemma PatchedFront(m: seq<bv8>, m': seq<bv8>, s: seq<bv8>)
    requires Patched(m, m', 0, s)
    ensures |s| <= |m| == |m'| && m'[..|s|] == s && m'[|s|..] == m[|s|..]
  {
  }
}
