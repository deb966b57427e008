/** Encryption in the I/O buffers: the octets of a message as the crypto code sees them, and back. */
module SecureBuffers {
  import opened Common
  import opened Octets
  import opened AesEngine
  import opened Ccm
  import opened CcmCode
  import opened SecureMsg
  import opened IoBuf

  function Bits(s: seq<byte>): (b: seq<bv8>)
    ensures |b| == |s|
  {
    seq(|s|, i requires 0 <= i < |s| => Octet(s[i]))
  }

  function Number(b: bv8): byte {
    Value(b)
  }

  function Numbers(b: seq<bv8>): (s: seq<byte>)
    ensures |s| == |b|
  {
    seq(|b|, i requires 0 <= i < |b| => Number(b[i]))
  }

  lemma NumbersBits(s: seq<byte>)
    ensures Numbers(Bits(s)) == s
  {
    hide Octet, Value;
    forall i | 0 <= i < |s| ensures Numbers(Bits(s))[i] == s[i] {
      OctetValue(s[i]);
    }
  }

  lemma BitsNumbers(b: seq<bv8>)
    ensures Bits(Numbers(b)) == b
  {
    hide Octet, Value;
    forall i | 0 <= i < |b| ensures Bits(Numbers(b))[i] == b[i] {
      OctetValue(Number(b[i]));
      SameValue(Octet(Number(b[i])), b[i]);
    }
  }

  lemma NumbersOf(a: seq<bv8>, b: seq<bv8>)
    ensures Numbers(a + b) == Numbers(a) + Numbers(b)
  {
    hide Value;
  }

  lemma BitsOf(a: seq<byte>, b: seq<byte>)
    ensures Bits(a + b) == Bits(a) + Bits(b)
  {
    hide Octet;
  }

  lemma BitsSlice(s: seq<byte>, i: nat, j: nat)
    requires i <= j <= |s|
    ensures Bits(s)[i..j] == Bits(s[i..j])
  {
    hide Octet;
  }

  /** The message with its body length set. */
  function WithLength(m: seq<byte>, n: nat): (r: seq<byte>)
    requires |m| >= HDR_SIZE
    ensures |r| == |m|
  {
    m[..BODY_LEN_POS] + U32(n) + m[BODY_LEN_POS + 4..]
  }

  lemma AnnouncedIs(m: seq<byte>, n: nat)
    requires |m| >= HDR_SIZE
    ensures Announced(Bits(m), n) == Bits(WithLength(m, n))
  {
    hide Bits, U32, BodyLenField;
    LengthField(n);
    BitsOf(m[..BODY_LEN_POS] + U32(n), m[BODY_LEN_POS + 4..]);
    BitsOf(m[..BODY_LEN_POS], U32(n));
    BitsSlice(m, 0, BODY_LEN_POS);
    BitsSlice(m, BODY_LEN_POS + 4, |m|);
    assert m[0..BODY_LEN_POS] == m[..BODY_LEN_POS] && m[BODY_LEN_POS + 4..|m|] == m[BODY_LEN_POS + 4..];
  }

  lemma LengthField(n: nat)
    ensures BodyLenField(n) == Bits(U32(n))
  {
    hide Octet;
  }

  /** The octets EncryptMessage makes of a message; its length field does not matter. */
  function SealedOctets(key: Block, role: bv8, serial: nat, headerEnd: nat, m: seq<byte>): (r: seq<byte>)
    requires HDR_SIZE <= headerEnd <= |m| < 0x7FFF_0000
    ensures |r| == |m| + MAC_LENGTH
  {
    Numbers(SealedMessage(key, role, serial, headerEnd, Bits(m)))
  }

  /** What DecryptMessage makes of a whole message, if it accepts it. */
  function OpenedOctets(key: Block, role: bv8, serial: nat, headerEnd: nat, s: seq<byte>): (r: Option<seq<byte>>)
    requires headerEnd + MAC_LENGTH <= |s| < 0x7FFF_0000
    ensures r.Some? ==> |r.value| == |s|
  {
    var r := OpenedMessage(key, Nonce(role, serial), headerEnd, Bits(s));
    if r.0 then Some(Numbers(r.1)) else None
  }

  lemma SealedParts(key: Block, role: bv8, serial: nat, headerEnd: nat, m: seq<byte>)
    requires HDR_SIZE <= headerEnd <= |m| < 0x7FFF_0000
    ensures var a := Bits(WithLength(m, |m| - headerEnd + MAC_LENGTH));
      SealedMessage(key, role, serial, headerEnd, Bits(m))
        == Sealed(Aes128(key), Nonce(role, serial), a[..headerEnd], a[headerEnd..], MAC_LENGTH)
  {
    hide Sealed, Bits, U32, Aes128, Nonce;
    AnnouncedIs(m, |m| - headerEnd + MAC_LENGTH);
  }

  lemma SealedHead(key: Block, nonce: seq<bv8>, hdr: seq<bv8>, body: seq<bv8>)
    requires |nonce| == 5 && |body| < 0x8000_0000
    ensures Sealed(Aes128(key), nonce, hdr, body, MAC_LENGTH)[..|hdr|] == hdr
  {
    hide Tag, Stream, XorBytes, Advance, Aes128;
  }

  /** A sealed message starts with the header of the message, which counts the MAC. */
  lemma SealedHeader(key: Block, role: bv8, serial: nat, headerEnd: nat, m: seq<byte>)
    requires HDR_SIZE <= headerEnd <= |m| < 0x7FFF_0000
    ensures SealedOctets(key, role, serial, headerEnd, m)[..headerEnd]
      == WithLength(m, |m| - headerEnd + MAC_LENGTH)[..headerEnd]
  {
    hide Sealed, Bits, U32, Aes128, Nonce, Numbers, SealedMessage, WithLength;
    var m' := WithLength(m, |m| - headerEnd + MAC_LENGTH);
    var s := SealedMessage(key, role, serial, headerEnd, Bits(m));
    SealedParts(key, role, serial, headerEnd, m);
    SealedHead(key, Nonce(role, serial), Bits(m')[..headerEnd], Bits(m')[headerEnd..]);
    assert s == s[..headerEnd] + s[headerEnd..];
    NumbersOf(s[..headerEnd], s[headerEnd..]);
    BitsSlice(m', 0, headerEnd);
    NumbersBits(m'[..headerEnd]);
    assert m'[0..headerEnd] == m'[..headerEnd] && Bits(m')[0..headerEnd] == Bits(m')[..headerEnd];
  }

  /** Opening a sealed message in the same role gives the message, with the MAC counted and eight octets behind it. */
  lemma OpenedBack(key: Block, role: bv8, serial: nat, headerEnd: nat, m: seq<byte>)
    requires HDR_SIZE <= headerEnd <= |m| < 0x7FFF_0000 - MAC_LENGTH
    ensures var r := OpenedOctets(key, role, serial, headerEnd, SealedOctets(key, role, serial, headerEnd, m));
      r.Some? && r.value[..|m|] == WithLength(m, |m| - headerEnd + MAC_LENGTH)
  {
    hide Sealed, Opened, Tag, Bits, U32, Aes128, Nonce, Numbers, SealedMessage, WithLength;
    var m' := WithLength(m, |m| - headerEnd + MAC_LENGTH);
    var a := Bits(m');
    var hdr, body := a[..headerEnd], a[headerEnd..];
    SealedParts(key, role, serial, headerEnd, m);
    BitsNumbers(SealedMessage(key, role, serial, headerEnd, Bits(m)));
    OpenedSealed(Aes128(key), Nonce(role, serial), hdr, body, MAC_LENGTH);
    var t := Tag(Aes128(key), Nonce(role, serial), hdr, body, MAC_LENGTH)[..MAC_LENGTH];
    assert hdr + body == a;
    NumbersOf(a, t);
    NumbersBits(m');
  }

  /** The length field of the message that is sealed does not matter. */
  lemma SealedSame(key: Block, role: bv8, serial: nat, headerEnd: nat, m: seq<byte>, n: nat)
    requires HDR_SIZE <= headerEnd <= |m| < 0x7FFF_0000
    ensures SealedOctets(key, role, serial, headerEnd, WithLength(m, n))
      == SealedOctets(key, role, serial, headerEnd, m)
  {
    hide Sealed, Bits, U32, Aes128, Nonce, Numbers;
    var k := |m| - headerEnd + MAC_LENGTH;
    AnnouncedIs(m, k);
    AnnouncedIs(WithLength(m, n), k);
    assert WithLength(WithLength(m, n), k) == WithLength(m, k);
  }

  /** EncryptMessage on the transmit buffer. */
  method Seal(tx: IoBuffer, engine: Engine, headerLen: nat, bodyLen: nat, serial: nat, key: Option<Block>, role: bv8)
    returns (status: Status)
    requires tx.InBounds() && engine.fkey.Length == MAX_SCHEDULE_LEN && HeaderEnd(headerLen) + bodyLen == tx.writePos
    modifies tx`writePos, tx.data, engine.fkey
    ensures
      && tx.InBounds()
      && status == if old(tx.Space()) < MAC_LENGTH then ErrResources else if key.None? then ErrSecurity else OK
    ensures status == OK ==>
      HDR_SIZE <= HeaderEnd(headerLen)
        && tx.Bytes() == SealedOctets(key.value, role, serial, HeaderEnd(headerLen), old(tx.Bytes()))
  {
    hide SealedMessage, Octet, Value, HeaderEnd;
    EndBound(headerLen);
    var buf := new bv8[tx.data.Length](i requires 0 <= i < tx.data.Length reads tx.data => Octet(tx.data[i]));
    assert buf[..tx.writePos] == Bits(tx.Bytes());
    var newWritePos, newBodyLen;
    status, newWritePos, newBodyLen := EncryptMessage(engine, buf, tx.writePos, headerLen, bodyLen, serial, key, role);
    if status == OK {
      forall i | 0 <= i < newWritePos {
        tx.data[i] := Number(buf[i]);
      }
      tx.writePos := newWritePos;
      assert tx.Bytes() == Numbers(buf[..newWritePos]);
    }
  }

  /** The key schedule is not in the buffer. */
  predicate Apart(engine: Engine, buffer: IoBuffer) {
    engine.fkey as object != buffer.data as object
  }

  lemma PatchedAll(before: seq<bv8>, after: seq<bv8>, bytes: seq<bv8>)
    requires Patched(before, after, 0, bytes) && |bytes| == |before|
    ensures after == bytes
  {
  }

  /** DecryptMessage on the receive buffer. */
  method Unseal(rx: IoBuffer, engine: Engine, headerLen: nat, bodyLen: nat, serial: nat, key: Option<Block>,
                group: bool, role: bv8) returns (status: Status)
    requires
      && rx.InBounds() && engine.fkey.Length == MAX_SCHEDULE_LEN
      && HeaderEnd(headerLen) + bodyLen <= rx.writePos && bodyLen >= MAC_LENGTH
    requires Apart(engine, rx)
    modifies rx.data, engine.fkey
    ensures var n := HeaderEnd(headerLen) + bodyLen;
      && rx.data[n..] == old(rx.data[n..])
      && status
           == (if key.Some?
           && OpenedOctets(key.value, DecryptRole(group, role), serial, HeaderEnd(headerLen), old(rx.data[..n])).Some?
           then OK else ErrSecurity)
      && (status == OK ==>
           rx.data[..n]
           == OpenedOctets(key.value, DecryptRole(group, role), serial, HeaderEnd(headerLen),
           old(rx.data[..n])).value)
  {
    hide Opened, OpenedMessage, Octet, Value, HeaderEnd, Nonce, NonceFor, Aes128, DecryptRole, Patched;
    ghost var hlen := HeaderEnd(headerLen);
    var n := HeaderEnd(headerLen) + bodyLen;
    ghost var before, tail := rx.data[..n], rx.data[n..];
    var buf := new bv8[n](i requires 0 <= i < n && n <= rx.data.Length reads rx.data => Octet(rx.data[i]));
    ghost var b := Bits(before);
    assert buf[..] == b;
    assert buf[..n] == b;
    status := DecryptMessage(engine, buf, headerLen, bodyLen, serial, key, group, role);
    if key.Some? {
      ghost var plain := OpenedMessage(key.value, Nonce(DecryptRole(group, role), serial), hlen, b).1;
      PatchedAll(b, buf[..], plain);
    }
    forall i | 0 <= i < n {
      rx.data[i] := Number(buf[i]);
    }
    assert rx.data[..n] == Numbers(buf[..]) && rx.data[n..] == tail;
  }
}
