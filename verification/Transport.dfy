/** A whole message from one peer to the other: header, arguments, delivery, and back. */
module Transport {
  import opened Common
  import opened Wire
  import opened Args
  import opened IoBuf
  import Marshaling
  import MarshalClient
  import opened Unmarshaling
  import opened UnmarshalClient
  import opened Decoding
  import opened Headers
  import opened Framing

  /** The octets of a whole message. */
  function MessageOctets(msgType: byte, flags: byte, serial: nat, fs: seq<Field>, body: seq<byte>): seq<byte> {
    HeaderOctets(msgType, flags, |body|, serial, fs) + body
  }

  /** Setting the body length in front of what follows the header. */
  lemma LengthSet(msgType: byte, flags: byte, n: nat, serial: nat, fs: seq<Field>, body: seq<byte>)
    ensures var b := HeaderOctets(msgType, flags, 0, serial, fs) + body;
      |b| >= 16 && b[..4] + U32(n) + b[8..] == HeaderOctets(msgType, flags, n, serial, fs) + body
  {
    hide FieldOctets, U32, HdrPad;
    var fields := FieldOctets(fs, HDR_SIZE);
    var tail := U32(serial) + U32(|fields|) + fields + Zeros(HdrPad(|fields|)) + body;
    var head := [LITTLE_ENDIAN, msgType, Toggled(flags), 0];
    assert HeaderOctets(msgType, flags, 0, serial, fs) + body == head + U32(0) + tail;
    assert HeaderOctets(msgType, flags, n, serial, fs) + body == head + U32(n) + tail;
  }

  /** Setting the body length of the header makes the header and the body a message. */
  lemma Delivered(msgType: byte, flags: byte, serial: nat, fs: seq<Field>, body: seq<byte>)
    ensures var b := HeaderOctets(msgType, flags, 0, serial, fs) + body;
      |b| >= 16 && b[..4] + U32(|body|) + b[8..] == MessageOctets(msgType, flags, serial, fs, body)
  {
    hide HeaderOctets, U32;
    LengthSet(msgType, flags, |body|, serial, fs, body);
  }

  /** What a message's octets say of it. */
  lemma HeaderRead(msgType: byte, flags: byte, serial: nat, fs: seq<Field>, body: seq<byte>, following: seq<byte>,
                   size: nat)
    requires serial < 0x1_0000_0000 && flags < FLAG_ENCRYPTED && forall i :: 0 <= i < |fs| ==> fs[i].Ok()
    requires |MessageOctets(msgType, flags, serial, fs, body)| <= size < 0x1_0000
    ensures var s := MessageOctets(msgType, flags, serial, fs, body) + following; var n := |FieldOctets(fs, HDR_SIZE)|;
      && Framed(s, size) && HeaderOf(s) == Header(LITTLE_ENDIAN, msgType, Toggled(flags), 0, |body|, serial, n)
      && FieldsAt(s, HDR_SIZE, HDR_SIZE + n, fs)
      && BodyStart(HeaderOf(s)) == |HeaderOctets(msgType, flags, |body|, serial, fs)|
      && At(s, BodyStart(HeaderOf(s)), body) && s[BodyStart(HeaderOf(s)) + |body|..] == following
  {
    hide FieldOctets, HeaderOctets, HeaderOf, HdrPad, At, Field.Ok, FieldsAt;
    ToggledTwice(flags);
    OctetsRead(msgType, flags, serial, fs, body, following);
  }

  /** The same for any flags. */
  lemma OctetsRead(msgType: byte, flags: byte, serial: nat, fs: seq<Field>, body: seq<byte>, following: seq<byte>)
    requires serial < 0x1_0000_0000 && |MessageOctets(msgType, flags, serial, fs, body)| < 0x1_0000
      && forall i :: 0 <= i < |fs| ==> fs[i].Ok()
    ensures var s := MessageOctets(msgType, flags, serial, fs, body) + following; var n := |FieldOctets(fs, HDR_SIZE)|;
      && |s| >= HDR_SIZE && HeaderOf(s) == Header(LITTLE_ENDIAN, msgType, Toggled(flags), 0, |body|, serial, n)
      && FieldsAt(s, HDR_SIZE, HDR_SIZE + n, fs)
      && BodyStart(HeaderOf(s)) == |HeaderOctets(msgType, flags, |body|, serial, fs)|
      && At(s, BodyStart(HeaderOf(s)), body) && s[BodyStart(HeaderOf(s)) + |body|..] == following
  {
    hide FieldOctets, U32, HdrPad, ReadU32, At, Field.Readable;
    var fields := FieldOctets(fs, HDR_SIZE);
    var n := |fields|;
    FixedRead(msgType, flags, |body|, serial, n);
    var fixed, pad := Fixed(msgType, flags, |body|, serial, n), Zeros(HdrPad(n));
    var s := MessageOctets(msgType, flags, serial, fs, body) + following;
    assert s == fixed + fields + pad + body + following;
    Parts(fixed, fields, pad, body, following);
    HeaderAhead(s[..HDR_SIZE], s);
  }

  lemma FixedRead(msgType: byte, flags: byte, bodyLen: nat, serial: nat, headerLen: nat)
    requires bodyLen < 0x1_0000_0000 && serial < 0x1_0000_0000 && headerLen < 0x1_0000_0000
    ensures HeaderOf(Fixed(msgType, flags, bodyLen, serial, headerLen))
      == Header(LITTLE_ENDIAN, msgType, Toggled(flags), 0, bodyLen, serial, headerLen)
  {
    hide U32, ReadU32, Toggled;
    U32RoundTrip(bodyLen);
    U32RoundTrip(serial);
    U32RoundTrip(headerLen);
    var h := Fixed(msgType, flags, bodyLen, serial, headerLen);
    assert h[4..8] == U32(bodyLen) && h[8..12] == U32(serial) && h[12..16] == U32(headerLen);
  }

  lemma Parts(a: seq<byte>, b: seq<byte>, c: seq<byte>, d: seq<byte>, e: seq<byte>)
    ensures var s := a + b + c + d + e;
      && s[..|a|] == a && At(s, |a|, b) && At(s, |a| + |b| + |c|, d) && s[|a| + |b| + |c| + |d|..] == e
  {
  }

  /** What a receiver takes from a message before it closes it. */
  datatype Received = Received(hdr: Header, fields: Fields, signature: seq<byte>, args: seq<Value>)

  /**
   A message is marshaled, header and arguments, delivered, put on the link in front of whatever
   follows it, unmarshaled, read and closed.  If it fits and neither link fails, what is received
   is what was sent, flags and serial number included, and the stream stands at what follows.
   */
  method SendReceive(tx: IoBuffer, in_: Message, msgType: byte, flags: byte, serial: nat, f: HdrFields, vs: seq<Value>,
                     flatOut: bool, flatIn: bool, retries: nat, following: seq<byte>)
    returns (sent: Status, status: Status, got: Received)
    requires tx.InBounds() && tx.data.Length >= HDR_SIZE && f.Ok() && serial < 0x1_0000_0000 && flags < 128
    requires f.signature == Some(SigsOf(vs)) || (f.signature == None && vs == [])
    requires forall i :: 0 <= i < |vs| ==> WellFormed(vs[i]) && |SigOf(vs[i])| < 256
    requires Required(msgType, f)
    requires in_.rx.Valid() && in_.rx.Unread() == [] && !in_.scalarAsElement
    requires tx.data.Length <= in_.rx.data.Length < 0x1_0000 && tx != in_.rx && tx.data != in_.rx.data
    requires |HeaderOctets(msgType, flags, 0, serial, FieldList(msgType, f, 1))| <= tx.data.Length
    modifies tx, tx.data, in_, in_.rx, in_.rx.data
    ensures sent == OK || tx.failed
              || |HeaderOctets(msgType, flags, 0, serial, FieldList(msgType, f, 1))|
                 + |EncAll(vs, |HeaderOctets(msgType, flags, 0, serial, FieldList(msgType, f, 1))|)| > tx.data.Length
    ensures sent == OK ==> status == OK || status == ErrInterrupted || in_.rx.failed
    ensures sent == OK && status == OK ==>
              && Says(msgType, f, got.fields, got.signature) && got.args == vs
              && got.hdr.msgType == msgType && got.hdr.flags == flags && got.hdr.serial == serial
              && in_.rx.Valid() && in_.rx.Unread() == following && !in_.open
  {
    hide EncAll, SigsOf, WellFormed, HeaderOctets, FieldList, Described, Toggled, MessageOctets, Says, Required;
    got, status := Received(Header(0, 0, 0, 0, 0, 0, 0), NO_FIELDS, [], []), OK;
    var wire;
    sent, wire := Send(tx, msgType, flags, serial, f, vs, flatOut);
    if sent == OK {
      status, got := Receive(in_, msgType, flags, serial, f, vs, flatIn, retries, wire, following);
      TakenAsSent(msgType, f);
    }
  }

  /** A description with all it must have is received as it was sent, and accepted. */
  lemma TakenAsSent(msgType: byte, f: HdrFields)
    requires Required(msgType, f)
    ensures var (g, signature) := Described(msgType, f);
      Says(msgType, f, g, signature) && Verdict(msgType, g) == OK
  {
    var d := Described(msgType, f);
    DescribedSays(msgType, f, d.0, d.1);
  }

  /** The sending half: nothing is sent before delivery, which sends exactly the message. */
  method Send(tx: IoBuffer, msgType: byte, flags: byte, serial: nat, f: HdrFields, vs: seq<Value>, flat: bool)
    returns (sent: Status, wire: seq<byte>)
    requires tx.InBounds() && tx.data.Length >= HDR_SIZE && f.Ok() && serial < 0x1_0000_0000 && flags < FLAG_ENCRYPTED
    requires f.signature == Some(SigsOf(vs)) || (f.signature == None && vs == [])
    requires forall i :: 0 <= i < |vs| ==> WellFormed(vs[i]) && |SigOf(vs[i])| < 256
    requires |HeaderOctets(msgType, flags, 0, serial, FieldList(msgType, f, 1))| <= tx.data.Length
    modifies tx, tx.data
    ensures var h := |HeaderOctets(msgType, flags, 0, serial, FieldList(msgType, f, 1))|;
      && (sent == OK || tx.failed || h + |EncAll(vs, h)| > tx.data.Length)
      && (sent == OK ==> tx.sent == old(tx.sent) + wire && |wire| <= tx.data.Length)
      && (sent == OK ==> wire == MessageOctets(msgType, flags, serial, FieldList(msgType, f, 1), EncAll(vs, h)))
  {
    hide EncAll, SigsOf, SigOf, WellFormed, HeaderOctets, FieldList, MessageOctets, U32, CStr, KindOf, HdrFields.Ok;
    wire := [];
    ghost var fs := FieldList(msgType, f, 1);
    ghost var header := HeaderOctets(msgType, flags, 0, serial, fs);
    var out;
    sent, out := MarshalMsg(tx, msgType, flags, serial, f);
    NoSignature(vs);
    NothingMore(SigsOf(vs));
    HeaderStart(msgType, flags, 0, serial, fs);
    sent := MarshalClient.PutAll(out, vs, flat, SigsOf(vs), []);
    if sent == OK {
      ghost var body := EncAll(vs, |header|);
      Delivered(msgType, flags, serial, fs, body);
      FlagsAt(msgType, flags, serial, fs, body);
      var before := |tx.sent|;
      sent := out.DeliverMsg();
      if sent == OK {
        wire := tx.sent[before..];
      }
    }
  }

  /** The third octet of a message says whether it is encrypted. */
  lemma FlagsAt(msgType: byte, flags: byte, serial: nat, fs: seq<Field>, body: seq<byte>)
    ensures var b := HeaderOctets(msgType, flags, 0, serial, fs) + body;
      |b| >= HDR_SIZE && b[2] == Toggled(flags) && (Toggled(flags) >= FLAG_ENCRYPTED <==> flags >= FLAG_ENCRYPTED)
  {
    hide FieldOctets, HdrPad, U32;
  }

  lemma NoSignature(vs: seq<Value>)
    ensures vs == [] ==> SigsOf(vs) == []
  {
  }

  lemma NothingMore(s: seq<byte>)
    ensures s + [] == s && s[0..] == s
  {
  }

  lemma HeaderStart(msgType: byte, flags: byte, bodyLen: nat, serial: nat, fs: seq<Field>)
    ensures |HeaderOctets(msgType, flags, bodyLen, serial, fs)| >= HDR_SIZE
  {
  }

  /** The receiving half. */
  method Receive(in_: Message, msgType: byte, flags: byte, serial: nat, f: HdrFields, vs: seq<Value>, flat: bool,
                 retries: nat, wire: seq<byte>, following: seq<byte>)
    returns (status: Status, got: Received)
    requires f.Ok() && serial < 0x1_0000_0000 && flags < FLAG_ENCRYPTED
    requires f.signature == Some(SigsOf(vs)) || (f.signature == None && vs == [])
    requires forall i :: 0 <= i < |vs| ==> WellFormed(vs[i]) && |SigOf(vs[i])| < 256
    requires Required(msgType, f)
    requires
      && in_.rx.Valid() && in_.rx.Unread() == [] && !in_.scalarAsElement
      && HDR_SIZE <= in_.rx.data.Length < 0x1_0000
    requires wire
      == MessageOctets(msgType, flags, serial, FieldList(msgType, f, 1),
      EncAll(vs, |HeaderOctets(msgType, flags, 0, serial, FieldList(msgType, f, 1))|))
    requires |wire| <= in_.rx.data.Length
    modifies in_, in_.rx, in_.rx.data
    ensures status == OK || status == ErrInterrupted || in_.rx.failed
    ensures status == OK ==>
              && (got.fields, got.signature) == Described(msgType, f) && got.args == vs
              && got.hdr.msgType == msgType && got.hdr.flags == flags && got.hdr.serial == serial
              && in_.rx.Valid() && in_.rx.Unread() == following && !in_.open
  {
    hide EncAll, SigsOf, SigOf, WellFormed, HeaderOctets, FieldList, MessageOctets, Described, Required, Toggled,
         At;
    got := Received(Header(0, 0, 0, 0, 0, 0, 0), NO_FIELDS, [], []);
    status := ReceiveHeader(in_, msgType, flags, serial, f, vs, retries, wire, following);
    if status == OK {
      got := got.(hdr := in_.hdr.value, fields := in_.fields, signature := in_.signature);
      var args;
      status, args := GetFields(in_, flat, vs, [], in_.rx.Received());
      got := got.(args := args);
      if status == OK {
        status := CloseMsg(in_);
      }
    }
  }

  /** The message up to its body, which is what comes next. */
  method ReceiveHeader(in_: Message, msgType: byte, flags: byte, serial: nat, ghost f: HdrFields, ghost vs: seq<Value>,
                       retries: nat, wire: seq<byte>, following: seq<byte>)
    returns (status: Status)
    requires f.Ok() && serial < 0x1_0000_0000 && flags < FLAG_ENCRYPTED
    requires f.signature == Some(SigsOf(vs)) || (f.signature == None && vs == [])
    requires forall i :: 0 <= i < |vs| ==> WellFormed(vs[i]) && |SigOf(vs[i])| < 256
    requires Required(msgType, f)
    requires
      && in_.rx.Valid() && in_.rx.Unread() == [] && !in_.scalarAsElement
      && HDR_SIZE <= in_.rx.data.Length < 0x1_0000
    requires wire
      == MessageOctets(msgType, flags, serial, FieldList(msgType, f, 1),
      EncAll(vs, |HeaderOctets(msgType, flags, 0, serial, FieldList(msgType, f, 1))|))
    requires |wire| <= in_.rx.data.Length
    modifies in_, in_.rx, in_.rx.data
    ensures in_.rx.InBounds() && (status == OK || status == ErrInterrupted || in_.rx.failed)
    ensures status == OK ==>
      && AllWaiting(in_, vs, in_.rx.Received()) && in_.outer == null && in_.open
      && in_.NextArgSig() == SigsOf(vs) + []
    ensures status == OK ==> in_.bodyBytes == |EncAll(vs, in_.rx.readPos)|
    ensures status == OK ==> in_.rx.Received()[in_.rx.readPos + |EncAll(vs, in_.rx.readPos)|..] == following
    ensures status == OK ==> (in_.fields, in_.signature) == Described(msgType, f)
    ensures status == OK ==>
      && in_.hdr.Some? && in_.hdr.value.msgType == msgType && in_.hdr.value.flags == flags
      && in_.hdr.value.serial == serial
  {
    hide EncAll, SigsOf, SigOf, WellFormed, FieldOctets, FieldList, MessageOctets, FieldsAt, WithFields, Toggled, U32,
         ReadU32, At, Fixed, HeaderOctets, Described, IoBuffer.Received, IoBuffer.Unread, HdrPad, HeaderOf, Complete,
         Required, Says, HeaderVerdict, Verdict, Field.Ok, HdrFields.Ok, Discarded, CStr;
    ghost var fs := FieldList(msgType, f, 1);
    ghost var body := EncAll(vs, |HeaderOctets(msgType, flags, 0, serial, fs)|);
    ListOk(msgType, f, 1);
    GoodVerdict(msgType, fs);
    MessageLonger(msgType, flags, serial, fs, body);
    HeaderRead(msgType, flags, serial, fs, body, following, in_.rx.data.Length);
    FieldsBack(msgType, f);
    TakenAsSent(msgType, f);
    SignatureOf(msgType, f);
    ToggledTwice(flags);
    NoSignature(vs);
    NothingMore(SigsOf(vs));
    PutOnLink(in_.rx, wire + following);
    ghost var framed;
    status, framed := UnmarshalMsg(in_, retries, OK, fs);
  }

  lemma MessageLonger(msgType: byte, flags: byte, serial: nat, fs: seq<Field>, body: seq<byte>)
    ensures |MessageOctets(msgType, flags, serial, fs, body)| == |HeaderOctets(msgType, flags, 0, serial, fs)| + |body|
    ensures |HeaderOctets(msgType, flags, |body|, serial, fs)| == |HeaderOctets(msgType, flags, 0, serial, fs)|
  {
  }

  lemma SignatureOf(msgType: byte, f: HdrFields)
    requires f.Ok()
    ensures
      && Described(msgType, f).1 == (if f.signature.Some? then f.signature.value else [])
      && |Described(msgType, f).1| < 256
  {
  }

  /** What is put on a link that has nothing to deliver is what comes next. */
  method PutOnLink(rx: IoBuffer, octets: seq<byte>)
    requires rx.Valid() && rx.Unread() == []
    modifies rx`incoming
    ensures rx.Valid() && rx.Unread() == octets
  {
    rx.incoming := octets;
    assert rx.data[rx.readPos..rx.writePos] == [];
  }
}
