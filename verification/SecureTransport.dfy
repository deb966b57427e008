/** Encrypted messages from one peer to the other: sealed in the transmit buffer, opened in the receive buffer. */
module SecureTransport {
  import opened Common
  import opened Wire
  import opened Args
  import opened IoBuf
  import Marshaling
  import MarshalClient
  import opened Unmarshaling
  import opened UnmarshalClient
  import opened Decoding
  import opened Headers
  import opened Framing
  import opened Transport
  import opened AesEngine
  import SecureMsg
  import opened SecureBuffers
  import Session

  const MAC_LENGTH := SecureMsg.MAC_LENGTH

  lemma HeaderEnds(headerLen: nat)
    ensures SecureMsg.HeaderEnd(headerLen) == HDR_SIZE + headerLen + HdrPad(headerLen)
  {
  }

  // ---- Delivery ----

  /** AJ_DeliverMsg for an encrypted message; `key` is what the look-up of the session or group key finds. */
  method DeliverEncrypted(msg: Marshaling.Message, engine: Engine, headerLen: nat, serial: nat, key: Option<Block>,
                          role: bv8) returns (status: Status)
    requires msg.ValidTx() && msg.bodyStart == SecureMsg.HeaderEnd(headerLen) >= HDR_SIZE && msg.Encrypted()
    requires engine.fkey.Length == MAX_SCHEDULE_LEN
    modifies msg, msg.tx, msg.tx.data, engine.fkey
    ensures status == OK || msg.tx.failed || old(msg.tx.Space()) < MAC_LENGTH || key.None?
    ensures status == OK ==> key.Some? && HDR_SIZE <= old(msg.bodyStart) && old(msg.tx.Space()) >= MAC_LENGTH
    ensures status == OK ==>
      msg.tx.sent == old(msg.tx.sent) + SealedOctets(key.value, role, serial, old(msg.bodyStart), old(msg.tx.Bytes()))
    ensures status == ErrResources || status == ErrSecurity ==> msg.tx.sent == old(msg.tx.sent)
    ensures msg.Cleared()
  {
    hide SecureMsg.HeaderEnd, U32, SealedOctets;
    SecureMsg.EndBound(headerLen);
    ghost var m, sent := msg.tx.Bytes(), msg.tx.sent;
    msg.Patch(msg.BODY_LEN_POS, U32(msg.bodyBytes));
    assert msg.tx.Bytes() == WithLength(m, msg.bodyBytes);
    status := Seal(msg.tx, engine, headerLen, msg.bodyBytes, serial, key, role);
    if status == OK {
      SealedSame(key.value, role, serial, msg.bodyStart, m, msg.bodyBytes);
      assert msg.tx.Written() == sent + SealedOctets(key.value, role, serial, msg.bodyStart, m);
      status := msg.tx.Send();
    }
    msg.hdr, msg.signature, msg.sigOffset, msg.varOffset, msg.bodyBytes, msg.outer := false, [], 0, 0, 0, null;
  }

  // ---- Receipt ----

  /** The message whose octets are at the start of the stream `s`, opened; None if it is not accepted. */
  function OpenedStream(s: seq<byte>, h: Header, key: Option<Block>, role: bv8): (r: Option<seq<byte>>)
    requires MessageLen(h) <= |s| && MAC_LENGTH <= h.bodyLen && MessageLen(h) < 0x1_0000
    ensures r.Some? ==> |r.value| == MessageLen(h)
  {
    if key.None? then None else OpenedOctets(key.value, role, h.serial, BodyStart(h), s[..MessageLen(h)])
  }

  /** The stream with its first message opened. */
  ghost predicate Opens(s: seq<byte>, h: Header, key: Option<Block>, role: bv8, r: seq<byte>)
    requires MAC_LENGTH <= h.bodyLen
  {
    && MessageLen(h) <= |s| && MessageLen(h) < 0x1_0000
    && OpenedStream(s, h, key, role).Some? && r == OpenedStream(s, h, key, role).value + s[MessageLen(h)..]
  }

  /** The message does not fit the receive buffer, or is not accepted. */
  ghost predicate Refused(s: seq<byte>, h: Header, key: Option<Block>, role: bv8, size: nat)
    requires MAC_LENGTH <= h.bodyLen
  {
    MessageLen(h) > size || (MessageLen(h) <= |s| && MessageLen(h) < 0x1_0000 && OpenedStream(s, h, key, role).None?)
  }

  /** The octets of the body, loaded and opened in the buffer. */
  method LoadAndOpen(rx: IoBuffer, h: Header, ghost s: seq<byte>, engine: Engine, key: Option<Block>, group: bool,
                     role: bv8) returns (status: Status)
    requires rx.Valid() && rx.readPos == BodyStart(h) && s == rx.Received() && MAC_LENGTH <= h.bodyLen < 0x1_0000
    requires engine.fkey.Length == MAX_SCHEDULE_LEN && Apart(engine, rx)
    modifies rx`readPos, rx`writePos, rx`incoming, rx`events, rx`failed, rx.data, engine.fkey
    ensures rx.Valid() && rx.readPos == BodyStart(h) && (old(rx.failed) ==> rx.failed)
    ensures MessageLen(h) <= |s| ==>
      MessageLen(h) <= |rx.Received()| && rx.Received()[MessageLen(h)..] == s[MessageLen(h)..] && |rx.Received()| == |s|
    ensures MessageLen(h) > |s| ==> rx.Received() == s
    ensures status == OK ==> Opens(s, h, key, SecureMsg.DecryptRole(group, role), rx.Received())
    ensures status == OK || rx.failed || Refused(s, h, key, SecureMsg.DecryptRole(group, role), rx.data.Length)
  {
    hide OpenedOctets, SecureMsg.DecryptRole, HdrPad;
    HeaderEnds(h.headerLen);
    status := rx.LoadBytes(h.bodyLen, 0);
    if status == OK {
      ghost var n, before := MessageLen(h), rx.data[..rx.writePos];
      ghost var behind := rx.data[n..rx.writePos];
      assert s[..n] == rx.data[..n] && s[n..] == behind + rx.incoming;
      status := Unseal(rx, engine, h.headerLen, h.bodyLen, h.serial, key, group, role);
      SameBehind(rx, n, behind);
    }
  }

  lemma SameBehind(rx: IoBuffer, n: nat, behind: seq<byte>)
    requires rx.InBounds() && n <= rx.writePos
    ensures rx.data[n..rx.writePos] == behind ==>
      rx.Received() == rx.data[..n] + (behind + rx.incoming) && rx.Received()[n..] == behind + rx.incoming
  {
  }

  /** The end of AJ_UnmarshalMsg for an encrypted message: the body is opened, the message identified or discarded. */
  method LeaveEncrypted(msg: Message, h: Header, ghost s: seq<byte>, fieldStatus: Status, identify: Status,
                        engine: Engine, key: Option<Block>, group: bool, role: bv8) returns (status: Status)
    requires msg.rx.InBounds() && BodyStart(h) <= msg.rx.writePos && s == msg.rx.Received() && msg.rx.data.Length > 0
    requires msg.open && msg.bodyBytes == h.bodyLen && MAC_LENGTH <= h.bodyLen < 0x1_0000
    requires engine.fkey.Length == MAX_SCHEDULE_LEN && Apart(engine, msg.rx)
    modifies msg, msg.rx, msg.rx.data, engine.fkey
    ensures msg.rx.InBounds() && (old(msg.rx.failed) ==> msg.rx.failed)
    ensures status == OK ==>
      && fieldStatus == OK && msg.rx.Valid() && msg.rx.readPos == BodyStart(h) && msg.open
      && msg.bodyBytes == h.bodyLen
    ensures status == OK ==> Opens(s, h, key, SecureMsg.DecryptRole(group, role), msg.rx.Received())
    ensures status == OK ==>
      && msg.hdr == Some(h.(flags := Toggled(h.flags))) && msg.fields == old(msg.fields)
      && msg.signature == old(msg.signature)
    ensures status == OK ==>
      msg.varOffset == old(msg.varOffset) && msg.sigOffset == old(msg.sigOffset) && msg.outer == old(msg.outer)
    ensures status == OK ==> msg.scalarAsElement == old(msg.scalarAsElement)
    ensures status != OK ==> msg.rx.failed || Discarded(msg, s, MessageLen(h))
    ensures fieldStatus != OK ==> status == fieldStatus
    ensures status == OK ==> identify == OK
    ensures fieldStatus == OK ==>
      status == identify || msg.rx.failed || Refused(s, h, key, SecureMsg.DecryptRole(group, role), msg.rx.data.Length)
  {
    hide HdrPad, Toggled, Opens, Refused, SecureMsg.DecryptRole, IoBuffer.Received, IoBuffer.Unread;
    status := fieldStatus;
    Position(msg.rx, HDR_SIZE + h.headerLen + HdrPad(h.headerLen), s);
    if status == OK {
      status := LoadAndOpen(msg.rx, h, s, engine, key, group, role);
      msg.hdr := Some(h.(flags := Toggled(h.flags)));
      if status == OK {
        status := identify;
      }
    }
    if status != OK {
      ghost var r := msg.rx.Received();
      UnreadIs(msg.rx);
      CloseBad(msg, r, BodyStart(h));
    }
  }

  lemma UnreadIs(rx: IoBuffer)
    requires rx.Valid()
    ensures rx.readPos <= |rx.Received()| && rx.Unread() == rx.Received()[rx.readPos..]
  {
  }

  /**
   AJ_UnmarshalMsg for an encrypted message in the host's byte order: the message is ready, its
   body opened in the buffer and the MAC still counted in it, or it has been discarded whole.
   */
  method UnmarshalEncrypted(msg: Message, retries: nat, identify: Status, engine: Engine, key: Option<Block>,
                            group: bool, role: bv8, ghost fs: seq<Field>)
    returns (status: Status, ghost framed: bool)
    requires
      && msg.rx.Valid() && msg.rx.data.Length >= HDR_SIZE && engine.fkey.Length == MAX_SCHEDULE_LEN
      && Apart(engine, msg.rx)
    requires |msg.rx.Unread()| >= HDR_SIZE ==>
               var h := HeaderOf(msg.rx.Unread());
                 h.endian != 66 && h.flags >= 128 && MAC_LENGTH <= h.bodyLen < 0x1_0000
    modifies msg, msg.rx, msg.rx.data, engine.fkey
    ensures msg.rx.InBounds() && (old(msg.rx.failed) ==> msg.rx.failed)
    ensures !framed ==>
      && msg.rx.Valid() && msg.rx.Unread() == old(msg.rx.Unread())
      && (status == ErrInterrupted || (status != OK && msg.rx.failed))
    ensures framed ==> |old(msg.rx.Unread())| >= HDR_SIZE
    ensures status == OK ==> framed
    ensures
      && framed && HeaderOf(old(msg.rx.Unread())).endian == LITTLE_ENDIAN
      && BodyStart(HeaderOf(old(msg.rx.Unread()))) <= msg.rx.data.Length ==>
      var s := old(msg.rx.Unread()); var h := HeaderOf(s); var role' := SecureMsg.DecryptRole(group, role);
      && (status == OK ==>
           msg.rx.Valid() && msg.open && msg.bodyBytes == h.bodyLen && msg.rx.readPos == BodyStart(h)
           && Opens(s, h, key, role', msg.rx.Received()))
      && (status == OK ==> msg.sigOffset == 0 && msg.outer == null && msg.scalarAsElement == old(msg.scalarAsElement))
      && (status != OK ==> msg.rx.failed || Discarded(msg, s, MessageLen(h)))
      && (FieldsAt(s, HDR_SIZE, HDR_SIZE + h.headerLen, fs) ==>
            var verdict := HeaderVerdict(h.msgType, fs);
            && (status == (if verdict == OK then identify else verdict) || msg.rx.failed
                 || (verdict == OK && Refused(s, h, key, role', msg.rx.data.Length)))
            && (status == OK ==>
                 (msg.fields, msg.signature) == WithFields(NO_FIELDS, [], fs) && msg.varOffset == 0
                 && msg.hdr == Some(h.(flags := Toggled(h.flags)))))
    ensures status == OK ==> identify == OK && msg.hdr.Some? && Complete(msg.hdr.value.msgType, msg.fields)
  {
    hide HeaderOf, HdrPad, FieldsAt, WithFields, HeaderVerdict, Complete, Toggled, Opens, Refused,
         SecureMsg.DecryptRole, IoBuffer.Received, IoBuffer.Unread;
    var h;
    status, framed, h := TakeFixed(msg, retries);
    if status != OK {
      return;
    }
    ghost var s := msg.rx.Received();
    var loaded;
    status, loaded := ReadHeader(msg, h, s, fs);
    if loaded {
      status := LeaveEncrypted(msg, h, s, status, identify, engine, key, group, role);
    }
  }

  // ---- End to end ----

  /** The length of a message's header, and of the fields in it. */
  function HeaderSize(msgType: byte, flags: byte, serial: nat, f: HdrFields): nat {
    |HeaderOctets(msgType, flags, 0, serial, FieldList(msgType, f, 1))|
  }

  function FieldSize(msgType: byte, f: HdrFields): nat {
    |FieldOctets(FieldList(msgType, f, 1), HDR_SIZE)|
  }

  lemma HeaderSizeIs(msgType: byte, flags: byte, serial: nat, f: HdrFields)
    ensures HeaderSize(msgType, flags, serial, f) == SecureMsg.HeaderEnd(FieldSize(msgType, f)) >= HDR_SIZE
  {
    hide FieldOctets, FieldList, HdrPad;
    HeaderEnds(FieldSize(msgType, f));
  }

  /** What goes on the link: the header, which counts the MAC, and the sealed body. */
  function SealedWire(key: Block, role: bv8, msgType: byte, flags: byte, serial: nat, f: HdrFields,
                      vs: seq<Value>): (r: seq<byte>)
    requires HeaderSize(msgType, flags, serial, f) + |EncAll(vs, HeaderSize(msgType, flags, serial, f))| < 0x7FFF_0000
  {
    HeaderSizeIs(msgType, flags, serial, f);
    var h := HeaderSize(msgType, flags, serial, f);
    SealedOctets(key, role, serial, h, HeaderOctets(msgType, flags, 0, serial, FieldList(msgType, f, 1))
      + EncAll(vs, h))
  }

  /** The sending half. */
  method SendEncrypted(tx: IoBuffer, engine: Engine, key: Option<Block>, role: bv8, msgType: byte, flags: byte,
                       serial: nat, f: HdrFields, vs: seq<Value>, flat: bool) returns (sent: Status, wire: seq<byte>)
    requires tx.InBounds() && tx.data.Length >= HDR_SIZE && f.Ok() && serial < 0x1_0000_0000 && flags >= FLAG_ENCRYPTED
    requires engine.fkey.Length == MAX_SCHEDULE_LEN
    requires f.signature == Some(SigsOf(vs)) || (f.signature == None && vs == [])
    requires forall i :: 0 <= i < |vs| ==> WellFormed(vs[i]) && |SigOf(vs[i])| < 256
    requires HeaderSize(msgType, flags, serial, f) <= tx.data.Length
    modifies tx, tx.data, engine.fkey
    ensures var h := HeaderSize(msgType, flags, serial, f); var n := h + |EncAll(vs, h)| + MAC_LENGTH;
      && (sent == OK || tx.failed || key.None? || n > tx.data.Length)
      && (sent == OK ==>
           key.Some? && n <= tx.data.Length && wire == SealedWire(key.value, role, msgType, flags, serial, f, vs))
      && (sent == OK ==> tx.sent == old(tx.sent) + wire && |wire| == n)
  {
    hide EncAll, SigsOf, SigOf, WellFormed, HeaderOctets, FieldList, FieldSize, U32, CStr, KindOf, HdrFields.Ok,
         SealedOctets, SecureMsg.HeaderEnd;
    wire := [];
    HeaderSizeIs(msgType, flags, serial, f);
    var out;
    sent, out := MarshalMsg(tx, msgType, flags, serial, f);
    NoSignature(vs);
    NothingMore(SigsOf(vs));
    sent := MarshalClient.PutAll(out, vs, flat, SigsOf(vs), []);
    if sent == OK {
      var before := |tx.sent|;
      FlagsAt(msgType, flags, serial, FieldList(msgType, f, 1), EncAll(vs, HeaderSize(msgType, flags, serial, f)));
      sent := DeliverEncrypted(out, engine, FieldSize(msgType, f), serial, key, role);
      if sent == OK {
        wire := tx.sent[before..];
      }
    }
  }

  /** The octets on the link are a message whose body is what sealing made of the arguments. */
  lemma WireIs(key: Block, role: bv8, msgType: byte, flags: byte, serial: nat, f: HdrFields, vs: seq<Value>)
    requires HeaderSize(msgType, flags, serial, f) + |EncAll(vs, HeaderSize(msgType, flags, serial, f))| < 0x7FFF_0000
    ensures var w := SealedWire(key, role, msgType, flags, serial, f, vs);
      var h := HeaderSize(msgType, flags, serial, f);
      && |w| == h + |EncAll(vs, h)| + MAC_LENGTH
      && w == MessageOctets(msgType, flags, serial, FieldList(msgType, f, 1), w[h..])
  {
    hide EncAll, SigsOf, SigOf, FieldList, FieldSize, U32, SealedOctets, SecureMsg.HeaderEnd, HeaderOctets;
    var fs := FieldList(msgType, f, 1);
    var h := HeaderSize(msgType, flags, serial, f);
    var body := EncAll(vs, h);
    var w := SealedWire(key, role, msgType, flags, serial, f, vs);
    HeaderSizeIs(msgType, flags, serial, f);
    LengthSet(msgType, flags, |body| + MAC_LENGTH, serial, fs, body);
    SameLength(msgType, flags, |body| + MAC_LENGTH, serial, fs);
    SealedHeader(key, role, serial, h, HeaderOctets(msgType, flags, 0, serial, fs) + body);
    assert w == w[..h] + w[h..];
  }

  lemma SameLength(msgType: byte, flags: byte, n: nat, serial: nat, fs: seq<Field>)
    ensures |HeaderOctets(msgType, flags, n, serial, fs)| == |HeaderOctets(msgType, flags, 0, serial, fs)|
  {
    hide FieldOctets, HdrPad;
  }

  lemma StillEncrypted(flags: byte)
    requires flags >= FLAG_ENCRYPTED
    ensures Toggled(flags) >= FLAG_ENCRYPTED && Toggled(Toggled(flags)) == flags
  {
    ToggledTwice(flags);
  }

  /** What the receiver finds in the octets on the link: the header that was marshaled and, opened, the arguments. */
  lemma WireRead(key: Block, role: bv8, msgType: byte, flags: byte, serial: nat, f: HdrFields, vs: seq<Value>,
                 following: seq<byte>)
    requires f.Ok() && serial < 0x1_0000_0000
    requires HeaderSize(msgType, flags, serial, f) + |EncAll(vs, HeaderSize(msgType, flags, serial, f))|
      + MAC_LENGTH < 0x1_0000
    ensures var s := SealedWire(key, role, msgType, flags, serial, f, vs) + following;
      var at := HeaderSize(msgType, flags, serial, f); var body := EncAll(vs, at); var n := FieldSize(msgType, f);
      && |s| >= HDR_SIZE
      && HeaderOf(s) == Header(LITTLE_ENDIAN, msgType, Toggled(flags), 0, |body| + MAC_LENGTH, serial, n)
      && FieldsAt(s, HDR_SIZE, HDR_SIZE + n, FieldList(msgType, f, 1)) && BodyStart(HeaderOf(s)) == at
      && MessageLen(HeaderOf(s)) == |s| - |following|
      && s[MessageLen(HeaderOf(s))..] == following
      && OpenedStream(s, HeaderOf(s), Some(key), role).Some?
      && At(OpenedStream(s, HeaderOf(s), Some(key), role).value + following, at, body)
  {
    hide EncAll, FieldList, FieldSize, HeaderOctets, FieldOctets, HeaderOf, FieldsAt, SealedOctets, OpenedOctets,
         WithLength, Toggled, HdrFields.Ok, U32;
    var fs := FieldList(msgType, f, 1);
    var at := HeaderSize(msgType, flags, serial, f);
    var body := EncAll(vs, at);
    var w := SealedWire(key, role, msgType, flags, serial, f, vs);
    var s := w + following;
    WireIs(key, role, msgType, flags, serial, f, vs);
    ListOk(msgType, f, 1);
    FieldSizeIs(msgType, f);
    OctetsRead(msgType, flags, serial, fs, w[at..], following);
    SameLength(msgType, flags, |w[at..]|, serial, fs);
    var m := HeaderOctets(msgType, flags, 0, serial, fs) + body;
    HeaderSizeIs(msgType, flags, serial, f);
    OpenedBack(key, role, serial, at, m);
    LengthIs(msgType, flags, serial, fs, body);
    assert s[..|w|] == w && s[|w|..] == following;
    var plain := OpenedOctets(key, role, serial, at, w).value;
    BodyAt(plain, m, HeaderOctets(msgType, flags, |body| + MAC_LENGTH, serial, fs), body, following);
  }

  lemma FieldSizeIs(msgType: byte, f: HdrFields)
    ensures FieldSize(msgType, f) == |FieldOctets(FieldList(msgType, f, 1), HDR_SIZE)|
  {
  }

  lemma LengthIs(msgType: byte, flags: byte, serial: nat, fs: seq<Field>, body: seq<byte>)
    ensures var m := HeaderOctets(msgType, flags, 0, serial, fs) + body; var n := |body| + MAC_LENGTH;
      |m| >= HDR_SIZE && WithLength(m, n) == HeaderOctets(msgType, flags, n, serial, fs) + body
      && |HeaderOctets(msgType, flags, n, serial, fs)| == |HeaderOctets(msgType, flags, 0, serial, fs)|
  {
    hide HeaderOctets, U32;
    LengthSet(msgType, flags, |body| + MAC_LENGTH, serial, fs, body);
    SameLength(msgType, flags, |body| + MAC_LENGTH, serial, fs);
  }

  lemma BodyAt(plain: seq<byte>, m: seq<byte>, head: seq<byte>, body: seq<byte>, following: seq<byte>)
    requires |m| == |head| + |body| <= |plain| && plain[..|m|] == head + body
    ensures At(plain + following, |head|, body)
  {
    var r := plain + following;
    assert r[..|m|] == head + body;
    assert r[|head|..|head| + |body|] == r[..|m|][|head|..];
  }

  /**
   An encrypted message is unmarshaled up to its arguments: they are all there, opened, with the
   eight octets of the MAC behind them that the body still counts.
   */
  method ReceiveOpened(in_: Message, engine: Engine, key: Block, group: bool, peerRole: bv8, msgType: byte, flags: byte,
                       serial: nat, ghost f: HdrFields, ghost vs: seq<Value>, retries: nat, wire: seq<byte>,
                       following: seq<byte>)
    returns (status: Status)
    requires
      && f.Ok() && serial < 0x1_0000_0000 && flags >= FLAG_ENCRYPTED
      && engine.fkey.Length == MAX_SCHEDULE_LEN && Apart(engine, in_.rx)
    requires f.signature == Some(SigsOf(vs)) || (f.signature == None && vs == [])
    requires forall i :: 0 <= i < |vs| ==> WellFormed(vs[i]) && |SigOf(vs[i])| < 256
    requires Required(msgType, f)
    requires
      && in_.rx.Valid() && in_.rx.Unread() == [] && !in_.scalarAsElement
      && HDR_SIZE <= in_.rx.data.Length < 0x1_0000
    requires HeaderSize(msgType, flags, serial, f) + |EncAll(vs, HeaderSize(msgType, flags, serial, f))|
      + MAC_LENGTH <= in_.rx.data.Length
    requires wire == SealedWire(key, SecureMsg.DecryptRole(group, peerRole), msgType, flags, serial, f, vs)
    modifies in_, in_.rx, in_.rx.data, engine.fkey
    ensures in_.rx.InBounds() && (status == OK || status == ErrInterrupted || in_.rx.failed)
    ensures status == OK ==>
      (var at := HeaderSize(msgType, flags, serial, f); var end := at + |EncAll(vs, at)|; var r := in_.rx.Received();
       && Session.ArgsLeft(in_, vs, end, MAC_LENGTH, r) && in_.open && in_.rx.readPos == at
       && end + MAC_LENGTH <= |r| && r[end + MAC_LENGTH..] == following
       && in_.hdr
            == Some(Header(LITTLE_ENDIAN, msgType, flags, 0, |EncAll(vs, at)| + MAC_LENGTH,
            serial, FieldSize(msgType, f)))
       && Session.HasArgs(in_, in_.hdr.value, vs, end, MAC_LENGTH, r))
    ensures status == OK ==> (in_.fields, in_.signature) == Described(msgType, f)
  {
    hide EncAll, SigsOf, SigOf, WellFormed, FieldOctets, FieldList, FieldSize, HeaderSize, SealedWire, FieldsAt,
         WithFields, Complete, Required, Says, Toggled, At, Described, IoBuffer.Received, IoBuffer.Unread, HdrPad,
         HeaderOf, OpenedStream, SecureMsg.DecryptRole, HeaderVerdict, Verdict, Field.Ok;
    ghost var at := HeaderSize(msgType, flags, serial, f);
    ghost var s := wire + following;
    WireRead(key, SecureMsg.DecryptRole(group, peerRole), msgType, flags, serial, f, vs, following);
    StillEncrypted(flags);
    FieldsBack(msgType, f);
    ListOk(msgType, f, 1);
    GoodVerdict(msgType, FieldList(msgType, f, 1));
    TakenAsSent(msgType, f);
    SignatureOf(msgType, f);
    NoSignature(vs);
    NothingMore(SigsOf(vs));
    PutOnLink(in_.rx, wire + following);
    ghost var framed;
    status, framed :=
      UnmarshalEncrypted(in_, retries, OK, engine, Some(key), group, peerRole, FieldList(msgType, f, 1));
    if status == OK {
      Behind(OpenedStream(s, HeaderOf(s), Some(key), SecureMsg.DecryptRole(group, peerRole)).value, following);
    }
  }

  lemma Behind(a: seq<byte>, b: seq<byte>)
    ensures (a + b)[|a|..] == b
  {
  }

  /**
   The round trip of an encrypted message.  The peers have the same key, and opposite roles unless
   the key is the group's.  If the message and its MAC fit and neither link fails, what is
   received is what was sent, and the stream stands at what follows.
   */
  method SendReceiveEncrypted(tx: IoBuffer, in_: Message, sender: Engine, receiver: Engine, key: Block, group: bool,
                              role: bv8, peerRole: bv8, msgType: byte, flags: byte, serial: nat, f: HdrFields,
                              vs: seq<Value>, flatOut: bool, flatIn: bool, retries: nat, following: seq<byte>)
    returns (sent: Status, status: Status, got: Received)
    requires tx.InBounds() && tx.data.Length >= HDR_SIZE && f.Ok() && serial < 0x1_0000_0000 && flags >= 128
    requires
      && sender.fkey.Length == receiver.fkey.Length == MAX_SCHEDULE_LEN && Apart(receiver, in_.rx)
      && Apart(sender, in_.rx)
    requires role == if group then peerRole else peerRole ^ 3
    requires f.signature == Some(SigsOf(vs)) || (f.signature == None && vs == [])
    requires forall i :: 0 <= i < |vs| ==> WellFormed(vs[i]) && |SigOf(vs[i])| < 256
    requires Required(msgType, f)
    requires in_.rx.Valid() && in_.rx.Unread() == [] && !in_.scalarAsElement
    requires tx.data.Length <= in_.rx.data.Length < 0x1_0000 && tx != in_.rx && tx.data != in_.rx.data
    requires HeaderSize(msgType, flags, serial, f) <= tx.data.Length
    modifies tx, tx.data, sender.fkey, in_, in_.rx, in_.rx.data, receiver.fkey
    ensures var h := HeaderSize(msgType, flags, serial, f);
      sent == OK || tx.failed || h + |EncAll(vs, h)| + MAC_LENGTH > tx.data.Length
    ensures sent == OK ==> status == OK || status == ErrInterrupted || in_.rx.failed
    ensures sent == OK && status == OK ==>
              && Says(msgType, f, got.fields, got.signature) && got.args == vs
              && got.hdr.msgType == msgType && got.hdr.flags == flags && got.hdr.serial == serial
              && in_.rx.Valid() && in_.rx.Unread() == following && !in_.open
  {
    hide EncAll, SigsOf, SigOf, WellFormed, HeaderSize, SealedWire, Described, Required, Says, Toggled,
         SecureMsg.DecryptRole, FieldList, FieldSize, HdrFields.Ok, Session.ArgsLeft, Session.HasArgs,
         IoBuffer.Received;
    SecureMsg.RolesMeet(peerRole);
    got, status := Received(Header(0, 0, 0, 0, 0, 0, 0), NO_FIELDS, [], []), OK;
    var wire;
    sent, wire := SendEncrypted(tx, sender, Some(key), role, msgType, flags, serial, f, vs, flatOut);
    if sent == OK {
      status :=
        ReceiveOpened(in_, receiver, key, group, peerRole, msgType, flags, serial, f, vs, retries, wire, following);
      if status == OK {
        got := Received(in_.hdr.value, in_.fields, in_.signature, []);
        ghost var at := HeaderSize(msgType, flags, serial, f);
        var args;
        TakenAsSent(msgType, f);
        status, args :=
          Session.TakeAndClose(in_, flatIn, |vs|, vs, at + |EncAll(vs, at)|, MAC_LENGTH, in_.rx.Received());
        assert vs[..|vs|] == vs;
        got := got.(args := args);
      }
    }
  }

  /**
   AJ_ResetArgs on an encrypted message that has been received: it fails unless there are no arguments,
   the MAC being counted.
   */
  method ResetOpened(in_: Message, ghost vs: seq<Value>, ghost end: nat, ghost r: seq<byte>) returns (status: Status)
    requires in_.hdr.Some? && Session.HasArgs(in_, in_.hdr.value, vs, end, MAC_LENGTH, r)
    requires Session.ArgsLeft(in_, vs, end, MAC_LENGTH, r) && in_.rx.readPos == BodyStart(in_.hdr.value)
    modifies in_, in_.rx, in_.rx.data
    ensures !in_.rx.failed ==> (status == OK <==> vs == [])
  {
    hide Session.HasArgs, Session.ArgsLeft;
    assert vs[0..] == vs;
    status := Session.ResetArgs(in_, in_.hdr.value, vs, 0, end, MAC_LENGTH, r);
  }
}
