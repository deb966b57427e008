/**
 Bodies that are larger than the transmit buffer: announced with AJ_DeliverMsgPartial, written
 piece by piece with AJ_MarshalRaw, finished with AJ_DeliverMsg.
 */
module RawBody {
  import opened Common
  import opened Wire
  import opened IoBuf
  import opened Marshaling

  function Joined(chunks: seq<seq<byte>>): seq<byte> {
    if chunks == [] then [] else chunks[0] + Joined(chunks[1..])
  }

  /** Writes the pieces; they are accepted as long as they do not exceed what is left of the announcement. */
  method WriteChunks(msg: Message, chunks: seq<seq<byte>>) returns (status: Status)
    requires msg.tx.InBounds() && !msg.hdr && msg.tx.data.Length > 0
    modifies msg`bodyBytes, msg.tx, msg.tx.data
    ensures msg.tx.InBounds()
    ensures |Joined(chunks)| > old(msg.bodyBytes) ==> status != OK
    ensures |Joined(chunks)| <= old(msg.bodyBytes) ==> status == OK || msg.tx.failed
    ensures status == OK ==> msg.bodyBytes == old(msg.bodyBytes) - |Joined(chunks)|
    ensures status == OK ==> msg.tx.Written() == old(msg.tx.Written()) + Joined(chunks)
  {
    status := OK;
    if chunks == [] {
      assert msg.tx.Written() + [] == msg.tx.Written();
      return;
    }
    status := msg.MarshalRaw(chunks[0]);
    if status == OK {
      Assoc(old(msg.tx.Written()), chunks[0], Joined(chunks[1..]));
      status := WriteChunks(msg, chunks[1..]);
    }
  }

  /** The first octets of a message up to the body length, and all octets behind it. */
  predicate WholeMessage(s: seq<byte>, bodyStart: nat) {
    bodyStart >= 16 && bodyStart <= |s| && ReadU32(s[4..8]) == |s| - bodyStart
  }

  /** The octets `b` of a header and what follows it, padded, with `n` more octets announced. */
  function Announced(b: seq<byte>, pad: nat, start: nat, n: nat): seq<byte>
    requires 16 <= start <= |b|
  {
    var whole := b + Zeros(pad);
    whole[..4] + U32((|whole| - start + n) % 0x1_0000_0000) + whole[8..]
  }

  /**
   The announcement is accepted: there is something to announce, in a message that is not encrypted and
   has arguments left.
   */
  predicate Announces(msg: Message, bytesRemaining: nat)
    requires msg.ValidTx() && msg.bodyStart >= 16
    reads msg, msg.tx, msg.tx.data
  {
    && bytesRemaining != 0 && !msg.Encrypted() && msg.sigOffset < |msg.signature|
    && PadFor(msg.signature[msg.sigOffset], msg.tx.writePos) <= msg.tx.Space()
  }

  /**
   The raw body as a whole.  Delivery succeeds exactly when the announcement is accepted and as
   many octets are written as the 16-bit count holds; what then has been sent is a whole message,
   its length field counting its body, exactly when the announcement was below 2^16.
   */
  method SendRawBody(msg: Message, bytesRemaining: nat, chunks: seq<seq<byte>>) returns (status: Status)
    requires msg.ValidTx() && msg.outer == null && msg.varOffset == 0 && msg.bodyStart >= 16
    requires bytesRemaining < 0x1_0000_0000
    requires msg.sigOffset < |msg.signature| ==> KindOf(msg.signature[msg.sigOffset]) != NoKind
    modifies msg, msg.tx, msg.tx.data
    ensures bytesRemaining == 0 ==> status == ErrUnexpected
    ensures bytesRemaining != 0 && old(msg.Encrypted()) ==> status == ErrSecurity
    ensures !old(Announces(msg, bytesRemaining)) ==> status != OK && msg.tx.sent == old(msg.tx.sent)
    ensures status == OK ==> |Joined(chunks)| == bytesRemaining % 0x1_0000
    ensures old(Announces(msg, bytesRemaining)) && |Joined(chunks)| == bytesRemaining % 0x1_0000 ==>
      status == OK || msg.tx.failed
    ensures status == OK ==>
      (var pad := PadFor(old(msg.signature[msg.sigOffset]), old(msg.tx.writePos));
       msg.tx.sent == old(msg.tx.sent) + Announced(old(msg.tx.Bytes()), pad, old(msg.bodyStart), bytesRemaining)
         + Joined(chunks))
    ensures status == OK ==> old(msg.tx.sent) <= msg.tx.sent
    ensures status == OK ==>
      (WholeMessage(msg.tx.sent[|old(msg.tx.sent)|..], old(msg.bodyStart)) <==> bytesRemaining < 0x1_0000)
    ensures status == OK ==>
      |Joined(chunks)| <= |msg.tx.sent| && msg.tx.sent[|msg.tx.sent| - |Joined(chunks)|..] == Joined(chunks)
  {
    hide U32, PadFor, Joined, WholeMessage;
    ghost var start, sent := msg.bodyStart, msg.tx.sent;
    ghost var pad := if msg.sigOffset < |msg.signature| then PadFor(msg.signature[msg.sigOffset], msg.tx.writePos)
      else 0;
    ghost var whole := msg.tx.Bytes() + Zeros(pad);
    status := msg.DeliverMsgPartial(bytesRemaining);
    if status != OK {
      return;
    }
    ghost var head := msg.tx.Bytes();
    assert msg.tx.Written() == sent + head;
    status := WriteChunks(msg, chunks);
    if status == OK {
      status := msg.DeliverMsg();
      if status == OK {
        RawMessage(sent, whole, head, Joined(chunks), start, bytesRemaining);
      }
    }
  }

  /**
   A patched header and a body as long as the 16-bit count: a whole message exactly when the count is
   the announcement.
   */
  lemma RawMessage(sent: seq<byte>, whole: seq<byte>, head: seq<byte>, body: seq<byte>, start: nat, bytesRemaining: nat)
    requires
      && 16 <= start <= |whole| < 0x1_0000 && 0 < bytesRemaining < 0x1_0000_0000
      && |body| == bytesRemaining % 0x1_0000
    requires head == whole[..4] + U32((|whole| - start + bytesRemaining) % 0x1_0000_0000) + whole[8..]
    ensures var all := sent + head + body;
      sent <= all && all[|all| - |body|..] == body
        && (WholeMessage(all[|sent|..], start) <==> bytesRemaining < 0x1_0000)
  {
    hide U32, ReadU32;
    HeaderLen(whole, (|whole| - start + bytesRemaining) % 0x1_0000_0000);
    Tail(sent, head, body);
  }

  /** A header of sixteen octets, zero but for the flags. */
  function Blank(flags: byte): (h: seq<byte>)
    ensures |h| == 16
  {
    [0, 0, flags] + Zeros(13)
  }

  /** A message whose body is to be octets, with a blank header in a buffer of its own. */
  method BlankHeader(flags: byte) returns (msg: Message)
    ensures
      && fresh(msg) && fresh(msg.tx) && fresh(msg.tx.data) && msg.ValidTx()
      && msg.tx.Bytes() == Blank(flags) && msg.tx.Space() == 16
    ensures msg.Encrypted() <==> flags >= FLAG_ENCRYPTED
    ensures
      && msg.outer == null && msg.varOffset == 0 && msg.bodyStart == 16 && msg.sigOffset == 0
      && msg.signature == [121]
    ensures msg.tx.sends == 1 && msg.tx.sent == []
  {
    var buffer := new byte[32];
    var tx := new IoBuffer(buffer);
    tx.Append(Blank(flags));
    tx.sends := 1;
    msg := new Message(tx, [121]);
    assert tx.Bytes()[2] == flags;
  }

  /** A message that is to be encrypted, and one octet for its body: it is refused, and nothing is sent. */
  method EncryptedBody() returns (status: Status, sent: seq<byte>)
    ensures status == ErrSecurity && sent == []
  {
    var msg := BlankHeader(FLAG_ENCRYPTED);
    status := SendRawBody(msg, 1, [[7]]);
    sent := msg.tx.sent;
  }

  /** The message with 65537 octets of body announced. */
  method ManyAnnounced() returns (msg: Message)
    ensures fresh(msg) && fresh(msg.tx) && fresh(msg.tx.data) && msg.tx.InBounds() && msg.tx.data.Length > 0
    ensures !msg.hdr && msg.bodyBytes == 1 && msg.tx.sends == 1 && msg.tx.sent == [] && msg.tx.Space() == 16
    ensures msg.tx.Bytes() == Blank(0)[..4] + U32(0x1_0001) + Blank(0)[8..]
  {
    hide U32, ReadU32;
    msg := BlankHeader(0);
    ghost var whole := Blank(0);
    assert PadFor(121, 16) == 0 && whole + Zeros(0) == whole;
    assert msg.tx.Bytes()[2] == 0;
    var status := msg.DeliverMsgPartial(0x1_0001);
  }

  /**
   A message of one octet, announced as 65537: every call succeeds, and what has been sent is a
   header whose length field counts 65536 octets more than follow it.
   */
  method OneOctetForMany() returns (status: Status, sent: seq<byte>)
    ensures status == OK && |sent| == 17 && ReadU32(sent[4..8]) == 0x1_0001 && !WholeMessage(sent, 16)
  {
    hide U32, ReadU32, WholeMessage, Blank;
    var msg := ManyAnnounced();
    ghost var head := msg.tx.Bytes();
    HeaderLen(Blank(0), 0x1_0001);
    assert msg.tx.Written() == [] + head;
    status := msg.MarshalRaw([7]);
    status := msg.DeliverMsg();
    sent := msg.tx.sent;
    RawMessage([], Blank(0), head, [7], 16, 0x1_0001);
    Tail([], head, [7]);
    assert sent == [] + head + [7] == head + [7];
  }

  lemma HeaderLen(whole: seq<byte>, n: nat)
    requires |whole| >= 16 && n < 0x1_0000_0000
    ensures var h := whole[..4] + U32(n) + whole[8..]; |h| == |whole| && h[4..8] == U32(n) && ReadU32(h[4..8]) == n
  {
    var h := whole[..4] + U32(n) + whole[8..];
    assert h[4..8] == U32(n);
    U32RoundTrip(n);
  }

  lemma Tail(sent: seq<byte>, head: seq<byte>, body: seq<byte>)
    ensures var all := sent + head + body;
      sent <= all && all[|sent|..] == head + body && all[|all| - |body|..] == body
      && (|head| >= 8 ==> (head + body)[4..8] == head[4..8])
  {
  }
}
