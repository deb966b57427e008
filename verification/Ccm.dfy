/**
 CCM over an arbitrary block function: what aj_crypto.c computes, that decryption undoes
 encryption, and that the result is the one of RFC 3610.
 */
module Ccm {
  import opened AesTables
  import opened Octets
  import opened Aes
  import opened AesEngine

  type BlockFunction = Block -> Block

  const ZERO: Block := [0, 0, 0, 0, 0, 0, 0, 0, 0, 0, 0, 0, 0, 0, 0, 0]

  function Zeros8(n: nat): (z: seq<bv8>)
    ensures |z| == n
  {
    seq(n, _ => 0)
  }

  function XorBytes(a: seq<bv8>, b: seq<bv8>): (r: seq<bv8>)
    requires |a| <= |b|
    ensures |r| == |a|
    ensures forall i :: 0 <= i < |a| ==> r[i] == Add(a[i], b[i])
  {
    seq(|a|, i requires 0 <= i < |a| => Add(a[i], b[i]))
  }

  lemma XorTwice(a: seq<bv8>, k: seq<bv8>)
    requires |a| <= |k|
    ensures XorBytes(XorBytes(a, k), k) == a
  {
  }

  lemma XorZero(b: Block)
    ensures XorBytes(ZERO, b) == b
  {
  }

  /** The four octets of a number, most significant first. */
  function BigEndian4(n: nat): (s: seq<bv8>)
    ensures |s| == 4
  {
    [Octet(n / 0x100_0000 % 256), Octet(n / 0x1_0000 % 256), Octet(n / 0x100 % 256), Octet(n % 256)]
  }

  // ---- Counter mode ----

  /** The counter's increment, on the word that holds its last four octets. */
  function BumpWord(x: bv32): bv32 {
    (if x == 0xFF000000 then x + 0x00010000 else x) + 0x01000000
  }

  function Bump(q: Quad): Quad {
    q.(x3 := BumpWord(q.x3))
  }

  function BumpBlock(c: Block): Block {
    Unpack32(Bump(Pack32(c)))
  }

  /** `n` octets of key stream from counter block `c` on. */
  function Stream(E: BlockFunction, c: Block, n: nat): (s: seq<bv8>)
    ensures |s| == n
    decreases n
  {
    if n == 0 then [] else if n <= 16 then E(c)[..n] else E(c) + Stream(E, BumpBlock(c), n - 16)
  }

  /** The counter block after `n` octets. */
  function Advance(c: Block, n: nat): Block
    decreases n
  {
    if n == 0 then c else if n <= 16 then BumpBlock(c) else Advance(BumpBlock(c), n - 16)
  }

  // ---- CBC-MAC ----

  function XorBlock(a: Block, b: Block): Block {
    XorBytes(a, b)
  }

  /** CBC encryption of whole blocks; the last cipher block is the next initialisation vector. */
  function Cbc(E: BlockFunction, iv: Block, blocks: seq<Block>): Block
    decreases |blocks|
  {
    if blocks == [] then iv else Cbc(E, E(XorBlock(iv, blocks[0])), blocks[1..])
  }

  lemma {:induction false} CbcAppend(E: BlockFunction, iv: Block, a: seq<Block>, b: seq<Block>)
    decreases |a|
    ensures Cbc(E, iv, a + b) == Cbc(E, Cbc(E, iv, a), b)
  {
    if a == [] {
      assert a + b == b;
    } else {
      assert (a + b)[1..] == a[1..] + b;
      CbcAppend(E, E(XorBlock(iv, a[0])), a[1..], b);
    }
  }

  function PadBlock(s: seq<bv8>): Block
    requires |s| <= 16
  {
    s + Zeros8(16 - |s|)
  }

  /** Octets as blocks, the last one padded with zeros (section 2.2 of RFC 3610). */
  function Blocks(s: seq<bv8>): seq<Block> {
    if s == [] then [] else if |s| <= 16 then [PadBlock(s)] else [s[..16]] + Blocks(s[16..])
  }

  /** The blocks hold the octets in order, zeros behind them, and there are no more of them than needed. */
  lemma {:induction false} BlocksAre(s: seq<bv8>, k: nat)
    ensures |Blocks(s)| == (|s| + 15) / 16
    ensures k < 16 * |Blocks(s)| ==> Blocks(s)[k / 16][k % 16] == if k < |s| then s[k] else 0
    decreases |s|
  {
    if |s| > 16 {
      BlocksAre(s[16..], if k < 16 then 0 else k - 16);
    }
  }

  // ---- What the code sets up ----

  function FieldLength(nLen: nat): nat
    requires nLen <= 15
  {
    15 - if nLen < 11 then 11 else nLen
  }

  /** L - 1, in the one octet it is kept in. */
  function FlagLength(nLen: nat): bv8
    requires nLen <= 15
  {
    if FieldLength(nLen) == 0 then 0xFF else Octet(FieldLength(nLen) - 1)
  }

  /** The tag length's part of the flags, by C's division and shift. */
  function FlagTag(tagLen: nat): bv8
    requires tagLen <= 16
  {
    if tagLen == 0 then 0xF8 else if tagLen == 1 then 0 else Octet((tagLen - 2) / 2) << 3
  }

  /** What C's arithmetic makes of tag lengths below 2, which no standard has. */
  lemma ShortTags()
    ensures FlagTag(0) == 0xF8 && FlagTag(1) == 0
  {
  }

  /** The first counter block. */
  function Ivec(nonce: seq<bv8>): Block
    requires |nonce| <= 15
  {
    [FlagLength(|nonce|)] + nonce + Zeros8(15 - |nonce|)
  }

  /** Octets of `l` written from place `i` down until nothing is left of it. */
  function PutLength(b: Block, i: nat, l: nat): Block
    requires 11 <= i < 16 && l < 0x8000_0000
    requires (i < 15 ==> l < 0x100_0000) && (i < 14 ==> l < 0x1_0000) && (i < 13 ==> l < 0x100) && (i < 12 ==> l == 0)
    decreases l
  {
    if l == 0 then b else PutLength(b[i := Octet(l % 256)], i - 1, l / 256)
  }

  /** B_0: flags, nonce, and the length of what is encrypted. */
  function FirstBlock(nonce: seq<bv8>, hdrLen: nat, bodyLen: nat, tagLen: nat): Block
    requires |nonce| <= 15 && tagLen <= 16 && bodyLen < 0x8000_0000
  {
    var flags := (if hdrLen != 0 then 0x40 else 0) | FlagTag(tagLen) | FlagLength(|nonce|);
    PutLength([flags] + nonce + Zeros8(15 - |nonce|), 15, bodyLen)
  }

  /** The length of the header in two octets, and the header. */
  function HeaderOctets(hdr: seq<bv8>): seq<bv8> {
    [Octet(|hdr| / 256 % 256), Octet(|hdr| % 256)] + hdr
  }

  /** The first two octets are the length of the header, the higher one first (section 2.2 of RFC 3610). */
  lemma HeaderOctetsAre(hdr: seq<bv8>)
    requires |hdr| < 0x1_0000
    ensures var h := HeaderOctets(hdr);
      |h| == 2 + |hdr| && h[2..] == hdr && Value(h[0]) * 0x100 + Value(h[1]) == |hdr|
    ensures HeaderBlocks(hdr) == if hdr == [] then [] else Blocks(HeaderOctets(hdr))
  {
    hide Octet, Value, Blocks;
    OctetValue(|hdr| / 256 % 256);
    OctetValue(|hdr| % 256);
  }

  function HeaderBlocks(hdr: seq<bv8>): seq<Block> {
    if hdr == [] then [] else Blocks(HeaderOctets(hdr))
  }

  /** The authentication block. */
  function Tag(E: BlockFunction, nonce: seq<bv8>, hdr: seq<bv8>, body: seq<bv8>, tagLen: nat): Block
    requires |nonce| <= 15 && tagLen <= 16 && |body| < 0x8000_0000
  {
    Cbc(E, ZERO, [FirstBlock(nonce, |hdr|, |body|, tagLen)] + HeaderBlocks(hdr) + Blocks(body))
  }

  // ---- The two operations, on the message in front of the tag ----

  /** Counter mode over the tag, then over the body. */
  function Crypted(E: BlockFunction, iv: Block, hdr: seq<bv8>, body: seq<bv8>, tag: seq<bv8>): (r: seq<bv8>)
    ensures |r| == |hdr| + |body| + |tag|
  {
    hdr + XorBytes(body, Stream(E, Advance(iv, |tag|), |body|)) + XorBytes(tag, Stream(E, iv, |tag|))
  }

  /** What AJ_Encrypt_CCM leaves in the buffer. */
  function Sealed(E: BlockFunction, nonce: seq<bv8>, hdr: seq<bv8>, body: seq<bv8>, tagLen: nat): (r: seq<bv8>)
    requires |nonce| <= 15 && tagLen <= 16 && |body| < 0x8000_0000
    ensures |r| == |hdr| + |body| + tagLen
  {
    Crypted(E, Ivec(nonce), hdr, body, Tag(E, nonce, hdr, body, tagLen)[..tagLen])
  }

  /** What AJ_Decrypt_CCM leaves in the buffer, and whether it accepts. */
  function Opened(E: BlockFunction, nonce: seq<bv8>, hdr: seq<bv8>, body: seq<bv8>,
                  tag: seq<bv8>): (r: (bool, seq<bv8>))
    requires |nonce| <= 15 && |tag| <= 16 && |body| < 0x8000_0000
    ensures |r.1| == |hdr| + |body| + |tag|
  {
    var n := |hdr| + |body|;
    var plain := Crypted(E, Ivec(nonce), hdr, body, tag);
    if Tag(E, nonce, hdr, plain[|hdr|..n], |tag|)[..|tag|] == plain[n..] then (true, plain)
      else (false, Zeros8(n + |tag|))
  }

  /** Decryption undoes encryption and accepts it, whatever the block function. */
  lemma OpenedSealed(E: BlockFunction, nonce: seq<bv8>, hdr: seq<bv8>, body: seq<bv8>, tagLen: nat)
    requires |nonce| <= 15 && tagLen <= 16 && |body| < 0x8000_0000
    ensures var s := Sealed(E, nonce, hdr, body, tagLen); var n := |hdr| + |body|;
      Opened(E, nonce, s[..|hdr|], s[|hdr|..n], s[n..])
        == (true, hdr + body + Tag(E, nonce, hdr, body, tagLen)[..tagLen])
  {
    hide Tag, Crypted;
    var t := Tag(E, nonce, hdr, body, tagLen)[..tagLen];
    CryptedTwice(E, Ivec(nonce), hdr, body, t);
    Three(hdr, body, t);
  }

  /** Counter mode is its own inverse. */
  lemma CryptedTwice(E: BlockFunction, iv: Block, hdr: seq<bv8>, body: seq<bv8>, tag: seq<bv8>)
    ensures var s := Crypted(E, iv, hdr, body, tag); var n := |hdr| + |body|;
      s[..|hdr|] == hdr && Crypted(E, iv, hdr, s[|hdr|..n], s[n..]) == hdr + body + tag
  {
    hide Stream, Advance, XorBytes;
    var ks, kt := Stream(E, Advance(iv, |tag|), |body|), Stream(E, iv, |tag|);
    Three(hdr, XorBytes(body, ks), XorBytes(tag, kt));
    XorTwice(body, ks);
    XorTwice(tag, kt);
  }

  lemma Three<T>(a: seq<T>, b: seq<T>, c: seq<T>)
    ensures var s := a + b + c; s[..|a|] == a && s[|a|..|a| + |b|] == b && s[|a| + |b|..] == c
  {
  }

  /**
   A tag is accepted if and only if it is the one the sealed plain text carries: decryption
   accepts exactly what encryption under the same nonce and header produces.
   */
  lemma OpenedOnlySealed(E: BlockFunction, nonce: seq<bv8>, hdr: seq<bv8>, body: seq<bv8>, tag: seq<bv8>)
    requires |nonce| <= 15 && |tag| <= 16 && |body| < 0x8000_0000
    ensures Opened(E, nonce, hdr, body, tag).0 <==>
              exists plain :: |plain| == |body| && Sealed(E, nonce, hdr, plain, |tag|) == hdr + body + tag
  {
    hide Tag, Crypted;
    var iv, n := Ivec(nonce), |hdr| + |body|;
    var s := Crypted(E, iv, hdr, body, tag);
    var plain, u := s[|hdr|..n], s[n..];
    CryptedTwice(E, iv, hdr, body, tag);
    if Opened(E, nonce, hdr, body, tag).0 {
      assert Sealed(E, nonce, hdr, plain, |tag|) == hdr + body + tag;
    }
    if plain' :| |plain'| == |body| && Sealed(E, nonce, hdr, plain', |tag|) == hdr + body + tag {
      var t := Tag(E, nonce, hdr, plain', |tag|)[..|tag|];
      CryptedTwice(E, iv, hdr, plain', t);
      Three(hdr, body, tag);
      Three(hdr, plain', t);
    }
  }

  // ---- RFC 3610 ----

  /** The flags of B_0 (section 2.2 of RFC 3610), with L = 4. */
  function RfcFlags(hdr: seq<bv8>, tagLen: nat): bv8
    requires 4 <= tagLen <= 16
  {
    Octet(64 * (if |hdr| > 0 then 1 else 0) + 8 * ((tagLen - 2) / 2) + 3)
  }

  /** B_0, B_1, ... of section 2.2 of RFC 3610, for L = 4 and a header shorter than 2^16 - 2^8. */
  function RfcBlocks(nonce: seq<bv8>, hdr: seq<bv8>, body: seq<bv8>, tagLen: nat): seq<Block>
    requires |nonce| == 11 && 4 <= tagLen <= 16
  {
    [[RfcFlags(hdr, tagLen)] + nonce + BigEndian4(|body|)] + HeaderBlocks(hdr) + Blocks(body)
  }

  /** X_n of section 2.2 of RFC 3610: X_1 = E(B_0), X_i+1 = E(X_i xor B_i). */
  function RfcX(E: BlockFunction, blocks: seq<Block>): Block
    requires blocks != []
  {
    if |blocks| == 1 then E(blocks[0]) else E(XorBlock(RfcX(E, blocks[..|blocks| - 1]), blocks[|blocks| - 1]))
  }

  /** A_i of section 2.3 of RFC 3610, for L = 4. */
  function RfcA(nonce: seq<bv8>, i: nat): Block
    requires |nonce| == 11
  {
    [3] + nonce + BigEndian4(i)
  }

  /** S_i, S_i+1, ... of section 2.3 of RFC 3610, cut off after `n` octets. */
  function RfcStream(E: BlockFunction, nonce: seq<bv8>, i: nat, n: nat): (s: seq<bv8>)
    requires |nonce| == 11
    ensures |s| == n
    decreases n
  {
    if n <= 16 then E(RfcA(nonce, i))[..n] else E(RfcA(nonce, i)) + RfcStream(E, nonce, i + 1, n - 16)
  }

  /** The header and what sections 2.3 and 2.4 of RFC 3610 make of the message: c, then U. */
  function RfcSealed(E: BlockFunction, nonce: seq<bv8>, hdr: seq<bv8>, body: seq<bv8>, tagLen: nat): seq<bv8>
    requires |nonce| == 11 && 4 <= tagLen <= 16
  {
    hdr + XorBytes(body, RfcStream(E, nonce, 1, |body|))
    + XorBytes(RfcX(E, RfcBlocks(nonce, hdr, body, tagLen))[..tagLen], RfcStream(E, nonce, 0, tagLen))
  }

  lemma {:induction false} CbcIsRfcX(E: BlockFunction, blocks: seq<Block>)
    requires blocks != []
    ensures Cbc(E, ZERO, blocks) == RfcX(E, blocks)
    decreases |blocks|
  {
    hide XorBlock;
    var n := |blocks| - 1;
    var last := blocks[n];
    assert blocks == blocks[..n] + [last];
    CbcAppend(E, ZERO, blocks[..n], [last]);
    assert [last][1..] == [];
    if n == 0 {
      XorZeroBlock(last);
      assert blocks == [last];
    } else {
      CbcIsRfcX(E, blocks[..n]);
      assert Cbc(E, RfcX(E, blocks[..n]), [last]) == E(XorBlock(RfcX(E, blocks[..n]), last));
    }
  }

  lemma XorZeroBlock(b: Block)
    ensures XorBlock(ZERO, b) == b
  {
    XorZero(b);
  }

  lemma FlagsAre(hdr: seq<bv8>, tagLen: nat)
    requires tagLen in {4, 6, 8, 10, 12, 14, 16}
    ensures (if |hdr| != 0 then 0x40 else 0) | FlagTag(tagLen) | 3 == RfcFlags(hdr, tagLen)
  {
    hide Octet;
    FlagBits((tagLen - 2) / 2);
  }

  lemma FlagBits(m: nat)
    requires 1 <= m <= 7
    ensures 0x40 | (Octet(m) << 3) | 3 == Octet(64 + 8 * m + 3)
    ensures 0 | (Octet(m) << 3) | 3 == Octet(8 * m + 3)
  {
    assert m == 1 || m == 2 || m == 3 || m == 4 || m == 5 || m == 6 || m == 7;
  }

  lemma OctetZero(n: nat)
    requires n == 0
    ensures Octet(n) == 0
  {
  }

  /** The loop leaves the length big-endian in the last four places. */
  lemma PutLengthIs(b: Block, l: nat)
    requires l < 0x8000_0000 && b[12..] == Zeros8(4)
    ensures PutLength(b, 15, l) == b[..12] + BigEndian4(l)
  {
    hide Octet;
    OctetZero(0);
    var l1, l2, l3 := l / 0x100, l / 0x1_0000, l / 0x100_0000;
    assert l1 / 0x100 == l2 && l2 / 0x100 == l3 && l3 / 0x100 == 0 && l3 % 256 == l3;
    assert b[12] == b[12..][0] && b[13] == b[12..][1] && b[14] == b[12..][2] && b[15] == b[12..][3];
    var b1 := b[15 := Octet(l % 256)];
    var b2 := b1[14 := Octet(l1 % 256)];
    var b3 := b2[13 := Octet(l2 % 256)];
    var b4 := b3[12 := Octet(l3 % 256)];
    PutOne(b, 15, l);
    PutOne(b1, 14, l1);
    PutOne(b2, 13, l2);
    PutOne(b3, 12, l3);
    assert b4 == b[..12] + BigEndian4(l);
  }

  /** One turn of the loop; a turn with nothing left would write the zero that is there. */
  lemma PutOne(b: Block, i: nat, l: nat)
    requires
      && 12 <= i < 16 && l < 0x8000_0000 && (i < 15 ==> l < 0x100_0000) && (i < 14 ==> l < 0x1_0000)
      && (i < 13 ==> l < 0x100)
    requires b[i] == 0
    ensures PutLength(b, i, l) == PutLength(b[i := Octet(l % 256)], i - 1, l / 256)
  {
    hide Octet;
    OctetZero(0);
    if l == 0 {
      assert b[i := 0] == b;
    }
  }

  /** Short nonces are padded with zeros to the eleven octets of L = 4. */
  function FullNonce(nonce: seq<bv8>): seq<bv8>
    requires |nonce| <= 11
    ensures |FullNonce(nonce)| == 11
  {
    nonce + Zeros8(11 - |nonce|)
  }

  lemma FirstBlockIs(nonce: seq<bv8>, hdr: seq<bv8>, body: seq<bv8>, tagLen: nat)
    requires |nonce| <= 11 && tagLen in {4, 6, 8, 10, 12, 14, 16} && |body| < 0x8000_0000
    ensures FirstBlock(nonce, |hdr|, |body|, tagLen) == [RfcFlags(hdr, tagLen)] + FullNonce(nonce) + BigEndian4(|body|)
  {
    hide Octet, BigEndian4, PutLength, FlagTag, RfcFlags;
    FlagsAre(hdr, tagLen);
    assert FlagLength(|nonce|) == 3 by { ThreeIs(); }
    var b: Block := [RfcFlags(hdr, tagLen)] + nonce + Zeros8(15 - |nonce|);
    assert b[..12] == [RfcFlags(hdr, tagLen)] + FullNonce(nonce);
    PutLengthIs(b, |body|);
  }

  lemma ThreeIs()
    ensures Octet(3) == 3
  {
  }

  /** The first counter block is A_0. */
  lemma IvecIs(nonce: seq<bv8>)
    requires |nonce| <= 11
    ensures Ivec(nonce) == RfcA(FullNonce(nonce), 0)
  {
    hide Octet;
    ThreeIs();
    OctetZero(0);
  }

  // ---- The counter ----

  /** The increment on the octets: a carry out of the last one is seen only when the others are zero. */
  lemma BumpOctets(b0: bv8, b1: bv8, b2: bv8, b3: bv8)
    ensures Unpacked(BumpWord(Pack(b0, b1, b2, b3)))
         == Word(b0, b1, if b0 == 0 && b1 == 0 && b2 == 0 && b3 == 0xFF then 1 else b2, Succ(b3))
  {
  }

  lemma BumpedBlock(c: Block)
    ensures BumpBlock(c) == c[..14]
      + [if c[12] == 0 && c[13] == 0 && c[14] == 0 && c[15] == 0xFF then 1 else c[14], Succ(c[15])]
  {
    hide Pack, BumpWord, Row0, Row1, Row2, Row3, Succ;
    PackedRows(Word(c[0], c[1], c[2], c[3]));
    PackedRows(Word(c[4], c[5], c[6], c[7]));
    PackedRows(Word(c[8], c[9], c[10], c[11]));
    BumpOctets(c[12], c[13], c[14], c[15]);
    LastTwo(c, if c[12] == 0 && c[13] == 0 && c[14] == 0 && c[15] == 0xFF then 1 else c[14], Succ(c[15]));
  }

  lemma LastTwo(c: Block, x: bv8, y: bv8)
    ensures [c[0], c[1], c[2], c[3], c[4], c[5], c[6], c[7], c[8], c[9], c[10], c[11], c[12], c[13], x, y]
      == c[..14] + [x, y]
  {
  }

  lemma NoCarry(i: nat)
    requires i % 256 != 255
    ensures (i + 1) % 256 == i % 256 + 1 && (i + 1) / 0x100 == i / 0x100
    ensures (i + 1) / 0x1_0000 == i / 0x1_0000 && (i + 1) / 0x100_0000 == i / 0x100_0000
  {
    assert (i + 1) / 0x1_0000 == (i + 1) / 0x100 / 0x100 && (i + 1) / 0x100_0000 == (i + 1) / 0x100 / 0x1_0000;
  }

  /** A counter block is followed by the next one if and only if no carry is missed. */
  lemma CounterNext(nonce: seq<bv8>, i: nat)
    requires |nonce| == 11 && i < 0xFFFF_FFFF
    ensures BumpBlock(RfcA(nonce, i)) == RfcA(nonce, i + 1) <==> i % 256 != 255 || i == 255
  {
    hide Octet, BumpBlock, Succ;
    var c, d := RfcA(nonce, i), RfcA(nonce, i + 1);
    BumpedBlock(c);
    OctetLast();
    if i % 256 != 255 {
      NoCarry(i);
      OctetNext(i % 256);
      OctetDiffers(i % 256, 255);
      assert BumpBlock(c) == d;
    } else if i == 255 {
      assert BumpBlock(c) == d;
    } else {
      MissedCarry(nonce, i);
    }
  }

  lemma MissedCarry(nonce: seq<bv8>, i: nat)
    requires |nonce| == 11 && i < 0xFFFF_FFFF && i % 256 == 255 && i != 255
    ensures BumpBlock(RfcA(nonce, i)) != RfcA(nonce, i + 1)
  {
    hide Octet, BumpBlock, Succ, RfcA;
    var c, d := RfcA(nonce, i), RfcA(nonce, i + 1);
    BumpedBlock(c);
    OctetLast();
    var h0, h1, h2 := i / 0x100_0000 % 256, i / 0x1_0000 % 256, i / 0x100 % 256;
    CounterOctets(nonce, i);
    CounterOctets(nonce, i + 1);
    assert (i + 1) / 0x100 == i / 0x100 + 1;
    OctetDiffers(h2, (i / 0x100 + 1) % 256);
    if h2 != 0 {
      OctetDiffers(h2, 0);
    } else if h1 != 0 {
      OctetDiffers(h1, 0);
    } else {
      HighOctet(i);
      OctetDiffers(h0, 0);
    }
  }

  lemma CounterOctets(nonce: seq<bv8>, i: nat)
    requires |nonce| == 11
    ensures var c := RfcA(nonce, i);
      c[12] == Octet(i / 0x100_0000 % 256) && c[13] == Octet(i / 0x1_0000 % 256)
        && c[14] == Octet(i / 0x100 % 256) && c[15] == Octet(i % 256)
  {
    hide Octet;
  }

  lemma HighOctet(i: nat)
    requires i < 0x1_0000_0000 && i >= 256 && i / 0x100 % 256 == 0 && i / 0x1_0000 % 256 == 0
    ensures i / 0x100_0000 % 256 != 0
  {
    var a := i / 0x100;
    var b := a / 0x100;
    assert i / 0x1_0000 == b && i / 0x100_0000 == b / 0x100;
  }

  /** After 511 the counter goes back to 256, and the key stream with it. */
  lemma CounterWraps(nonce: seq<bv8>)
    requires |nonce| == 11
    ensures BumpBlock(RfcA(nonce, 511)) == RfcA(nonce, 256)
  {
    hide Octet, BumpBlock, Succ;
    BumpedBlock(RfcA(nonce, 511));
    OctetLast();
    OctetDiffers(1, 0);
  }

  /** As long as the counter stays within 511 the key stream is the standard's. */
  lemma {:induction false} StreamIs(E: BlockFunction, nonce: seq<bv8>, i: nat, n: nat)
    requires |nonce| == 11 && 16 * i + n <= 16 * 512
    ensures Stream(E, RfcA(nonce, i), n) == RfcStream(E, nonce, i, n)
    decreases n
  {
    hide RfcA, BumpBlock;
    if n > 16 {
      CounterNext(nonce, i);
      StreamIs(E, nonce, i + 1, n - 16);
    }
  }

  /**
   Encryption is that of RFC 3610 for its tag lengths, nonces padded to 11 octets, headers whose
   length has the two-octet form, and messages of at most 511 blocks.
   */
  lemma SealedIsRfc(E: BlockFunction, nonce: seq<bv8>, hdr: seq<bv8>, body: seq<bv8>, tagLen: nat)
    requires |nonce| <= 11 && tagLen in {4, 6, 8, 10, 12, 14, 16} && |hdr| < 0xFF00 && |body| <= 16 * 511
    ensures Sealed(E, nonce, hdr, body, tagLen) == RfcSealed(E, FullNonce(nonce), hdr, body, tagLen)
  {
    hide RfcA, Ivec, Stream, RfcStream, FirstBlock, HeaderBlocks, Blocks, RfcFlags, BigEndian4, XorBytes, FullNonce,
         Cbc, RfcX, BumpBlock;
    var full := FullNonce(nonce);
    IvecIs(nonce);
    CounterNext(full, 0);
    assert Advance(Ivec(nonce), tagLen) == RfcA(full, 1);
    StreamIs(E, full, 0, tagLen);
    StreamIs(E, full, 1, |body|);
    FirstBlockIs(nonce, hdr, body, tagLen);
    CbcIsRfcX(E, RfcBlocks(full, hdr, body, tagLen));
  }
}
