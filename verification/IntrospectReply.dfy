/** The introspection reply: the generator runs twice, for the size of the XML and for its octets. */
module IntrospectReply {
  import opened Common
  import opened Wire
  import opened Args
  import opened IoBuf
  import opened Marshaling
  import opened Headers
  import opened RawBody
  import opened Transport
  import opened Introspect
  import opened XmlWriter
  import opened XmlGenerator

  /**
   The announcement, in 32 bits; what is counted down of it, in 16, is what the second pass writes only
   if both are the same.
   */
  lemma Announcement(l: nat)
    ensures var n := (l % 0x1_0000_0000 + 5) % 0x1_0000_0000;
      l + 5 == n % 0x1_0000 <==> l + 5 < 0x1_0000
    ensures l + 5 < 0x1_0000 ==> l % 0x1_0000_0000 == l && (l % 0x1_0000_0000 + 5) % 0x1_0000_0000 == l + 5
  {
  }

  lemma HeaderAligned(msgType: byte, flags: byte, serial: nat, fs: seq<Field>)
    ensures
      && PadFor(ARG_STRING, |HeaderOctets(msgType, flags, 0, serial, fs)|) == 0
      && |HeaderOctets(msgType, flags, 0, serial, fs)| >= 16
  {
    hide FieldOctets, Fixed;
    var n := |FieldOctets(fs, HDR_SIZE)|;
    Padded(n);
  }

  lemma Padded(n: nat)
    ensures (16 + n + HdrPad(n)) % 8 == 0 && (16 + n + HdrPad(n)) % 4 == 0
  {
    var q, r := n / 8, n % 8;
    if r == 0 {
      assert 16 + n + HdrPad(n) == 8 * (q + 2);
    } else {
      assert 16 + n + HdrPad(n) == 8 * (q + 3);
    }
  }

  /** A header, patched, and the string behind it are the message with that string for its argument. */
  lemma StringMessage(msgType: byte, flags: byte, serial: nat, fs: seq<Field>, xml: seq<byte>)
    ensures var b := HeaderOctets(msgType, flags, 0, serial, fs); var body := U32(|xml|) + xml + [0];
      && |b| >= 16 && body == Enc(Str(ARG_STRING, xml), |b|)
      && Announced(b, 0, |b|, |body|) == b[..4] + U32(|body| % 0x1_0000_0000) + b[8..]
      && (|body| < 0x1_0000 ==> Announced(b, 0, |b|, |body|) + body == MessageOctets(msgType, flags, serial, fs, body))
  {
    hide HeaderOctets, U32, MessageOctets, PadFor;
    var b := HeaderOctets(msgType, flags, 0, serial, fs);
    var body := U32(|xml|) + xml + [0];
    HeaderAligned(msgType, flags, serial, fs);
    assert Zeros(0) + U32(|xml|) == U32(|xml|) && b + Zeros(0) == b;
    Delivered(msgType, flags, serial, fs, body);
    if |body| < 0x1_0000 {
      assert (b + body)[..4] == b[..4] && (b + body)[8..] == b[8..] + body;
      assert (b[..4] + U32(|body|) + b[8..]) + body == b[..4] + U32(|body|) + (b[8..] + body);
    }
  }

  /** The second pass: the XML goes out raw, and a NUL behind it. */
  method SecondPass(reply: Message, t: Tables, target: Target, language: Option<string>) returns (status: Status)
    requires t.Ok() && (target.Listed? ==> target.k < |t.nodes|) && XmlOf(t, target, language).Some?
    requires reply.tx.InBounds() && !reply.hdr && reply.tx.data.Length > 0
    modifies reply, reply.tx, reply.tx.data
    ensures var xml := Xml(XmlOf(t, target, language).value);
      && reply.tx.InBounds() && (status == OK ==> !reply.hdr)
      && (|xml| + 1 <= old(reply.bodyBytes) ==> status == OK || reply.tx.failed)
      && (status == OK ==>
           reply.bodyBytes == old(reply.bodyBytes) - |xml| - 1
           && reply.tx.Written() == old(reply.tx.Written()) + (xml + [0]))
  {
    hide XmlOf, Xml, IoBuffer.Written, Tables.Ok;
    ghost var written := reply.tx.Written();
    var w := new Writer(false, reply);
    var _ := GenXML(w, t, target, language);
    ghost var pieces := XmlOf(t, target, language).value;
    assert [] + pieces == pieces;
    status := w.status;
    if status == OK {
      status := reply.MarshalRaw([0]);
      Assoc(written, Xml(pieces), [0]);
    }
  }

  /** The three raw writes and the delivery, behind the announcement. */
  method SendString(reply: Message, len: nat, t: Tables, target: Target, language: Option<string>)
    returns (status: Status)
    requires t.Ok() && (target.Listed? ==> target.k < |t.nodes|) && XmlOf(t, target, language).Some?
    requires reply.tx.InBounds() && !reply.hdr && reply.tx.data.Length > 0
    modifies reply, reply.tx, reply.tx.data
    ensures var xml := Xml(XmlOf(t, target, language).value);
      && (|xml| + 5 == old(reply.bodyBytes) ==> status == OK || reply.tx.failed)
      && (status == OK ==>
           |xml| + 5 == old(reply.bodyBytes) && reply.tx.sent == old(reply.tx.Written()) + (U32(len) + xml + [0]))
  {
    hide XmlOf, Xml, U32, Tables.Ok, IoBuffer.Written;
    ghost var written := reply.tx.Written();
    status := reply.MarshalRaw(U32(len));
    if status == OK {
      ghost var xml := Xml(XmlOf(t, target, language).value);
      status := SecondPass(reply, t, target, language);
      Assoc(written, U32(len), xml + [0]);
      Assoc(U32(len), xml, [0]);
      if status == OK {
        status := reply.DeliverMsg();
      }
    }
  }

  /**
   AJ_HandleIntrospectRequest, once the reply's header is in the transmit buffer, and the delivery
   behind it.  If the link does not fail, the reply goes out if and only if it is not to be
   encrypted and the XML is below 65531 octets, and then it is the message that has the XML for
   its one argument.
   */
  method HandleIntrospectRequest(reply: Message, t: Tables, path: string, language: Option<string>, ghost msgType: byte,
                                 ghost flags: byte, ghost serial: nat, ghost fs: seq<Field>)
    returns (status: Status, found: bool)
    requires t.Ok() && reply.ValidTx() && reply.outer == null && reply.varOffset == 0 && reply.bodyBytes == 0
    requires
      && reply.signature == [ARG_STRING] && reply.sigOffset == 0
      && reply.tx.Bytes() == HeaderOctets(msgType, flags, 0, serial, fs)
    modifies reply, reply.tx, reply.tx.data
    ensures found == Select(t, path, 0).Some? && (!found ==> status == OK && reply.tx.sent == old(reply.tx.sent))
    ensures found ==>
      match XmlOf(t, Select(t, path, 0).value, language)
      case None => status == ErrUnexpected && reply.tx.sent == old(reply.tx.sent)
      case Some(pieces) =>
        && (flags >= 128 ==> status != OK && reply.tx.sent == old(reply.tx.sent))
        && (flags >= 128 && |Xml(pieces)| < 65531 ==> status == ErrSecurity)
        && (status == OK ==> |Xml(pieces)| < 65531)
        && (status == OK ==>
             (var body := Enc(Str(ARG_STRING, Xml(pieces)), |HeaderOctets(msgType, flags, 0, serial, fs)|);
                              reply.tx.sent == old(reply.tx.sent) + MessageOctets(msgType, flags, serial, fs, body)))
        && (flags < 128 && |Xml(pieces)| < 65531 ==> status == OK || reply.tx.failed)
  {
    hide XmlOf, Select, HeaderOctets, MessageOctets, Enc, U32, Announced, Xml, PadFor, Tables.Ok;
    var target := FindTarget(t, path);
    if target.None? {
      return OK, false;
    }
    found := true;
    var sizer := new Writer(true, reply);
    status := GenXML(sizer, t, target.value, language);
    if status != OK {
      return;
    }
    ghost var pieces := XmlOf(t, target.value, language).value;
    assert [] + pieces == pieces;
    status := SendReply(reply, sizer.len, t, target.value, language, msgType, flags, serial, fs);
  }

  /** From the announcement on. */
  method SendReply(reply: Message, len: nat, t: Tables, target: Target, language: Option<string>, ghost msgType: byte,
                   ghost flags: byte, ghost serial: nat, ghost fs: seq<Field>)
    returns (status: Status)
    requires t.Ok() && (target.Listed? ==> target.k < |t.nodes|) && XmlOf(t, target, language).Some?
    requires len == |Xml(XmlOf(t, target, language).value)| % 0x1_0000_0000
    requires reply.ValidTx() && reply.outer == null && reply.varOffset == 0 && reply.bodyBytes == 0
    requires
      && reply.signature == [ARG_STRING] && reply.sigOffset == 0
      && reply.tx.Bytes() == HeaderOctets(msgType, flags, 0, serial, fs)
    modifies reply, reply.tx, reply.tx.data
    ensures var xml := Xml(XmlOf(t, target, language).value);
      && (flags >= 128 ==> status != OK && reply.tx.sent == old(reply.tx.sent))
      && (flags >= 128 && |xml| < 65531 ==> status == ErrSecurity)
      && (status == OK ==> |xml| < 65531)
      && (status == OK ==> (var body := Enc(Str(ARG_STRING, xml), |HeaderOctets(msgType, flags, 0, serial, fs)|);
                            reply.tx.sent == old(reply.tx.sent) + MessageOctets(msgType, flags, serial, fs, body)))
      && (flags < 128 && |xml| < 65531 ==> status == OK || reply.tx.failed)
  {
    hide XmlOf, HeaderOctets, MessageOctets, Enc, U32, Announced, Xml, PadFor, Tables.Ok, CStr, ChildName;
    ghost var xml := Xml(XmlOf(t, target, language).value);
    HeaderAligned(msgType, flags, serial, fs);
    Announcement(|xml|);
    StringMessage(msgType, flags, serial, fs, xml);
    FlagsAt(msgType, flags, serial, fs, []);
    NoPadding(reply.tx.Bytes());
    ghost var b, sent := reply.tx.Bytes(), reply.tx.sent;
    status := reply.DeliverMsgPartial((len + 5) % 0x1_0000_0000);
    if status == OK {
      ghost var head := reply.tx.Bytes();
      status := SendString(reply, len, t, target, language);
      Assoc(sent, head, U32(len) + xml + [0]);
    }
  }

  lemma NoPadding(b: seq<byte>)
    ensures b + Zeros(0) == b && b + [] == b
  {
  }

  lemma {:induction false} XmlAtMost(pieces: seq<Piece>)
    requires forall i :: 0 <= i < |pieces| ==> |pieces[i].Text()| <= 8
    ensures |Xml(pieces)| <= 8 * |pieces|
  {
    hide CharOctets;
    if pieces != [] {
      assert forall i :: 0 <= i < |pieces[1..]| ==> pieces[1..][i] == pieces[i + 1];
      XmlAtMost(pieces[1..]);
    }
  }

  /** An object table that holds the root and nothing else. */
  function RootOnly(): Tables {
    Tables([Node("/", [], false, false, false, false, 1, 0)], _ => NoLookup)
  }

  lemma RootXml()
    ensures RootOnly().Ok() && Select(RootOnly(), "/", 0) == Some(Listed(0))
    ensures XmlOf(RootOnly(), Listed(0), None).Some? && |Xml(XmlOf(RootOnly(), Listed(0), None).value)| <= 48
  {
    hide Xml, ChildPath, Tag;
    var t := RootOnly();
    NoOwnChild(t);
    var pieces := XmlOf(t, Listed(0), None).value;
    assert pieces == Tag("<node", Whole("/"), false) + [Literal("</node>\n")];
    RootPieces();
    XmlAtMost(pieces);
  }

  lemma NoOwnChild(t: Tables)
    requires t == RootOnly()
    ensures Children(t, "/", 0) == []
  {
    assert ChildPath("/", "/").None?;
  }

  lemma RootPieces()
    ensures var p := Tag("<node", Whole("/"), false) + [Literal("</node>\n")];
      |p| == 6 && forall i :: 0 <= i < |p| ==> |p[i].Text()| <= 8
  {
  }

  /**
   The reply to an encrypted request for the root, an object of at most 48 octets of XML: it is
   refused, and nothing is sent.
   */
  method EncryptedRequest() returns (status: Status, sent: seq<byte>)
    ensures status == ErrSecurity && sent == []
  {
    hide HeaderOctets, XmlOf, Xml, Select, RootOnly;
    var buffer := new byte[256];
    var tx := new IoBuffer(buffer);
    var header := HeaderOctets(MSG_METHOD_RET, FLAG_ENCRYPTED, 0, 1, []);
    SmallHeader();
    tx.Append(header);
    tx.sends := 1;
    var reply := new Message(tx, [ARG_STRING]);
    RootXml();
    var found;
    status, found := HandleIntrospectRequest(reply, RootOnly(), "/", None, MSG_METHOD_RET, FLAG_ENCRYPTED, 1, []);
    sent := tx.sent;
  }

  lemma SmallHeader()
    ensures |HeaderOctets(MSG_METHOD_RET, FLAG_ENCRYPTED, 0, 1, [])| == 16
  {
  }
}
