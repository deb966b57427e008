/**
 Message framing on the receiving side: AJ_UnmarshalMsg and AJ_CloseMsg.  Whatever a message's
 header fields say, and however much of its body was unmarshaled, the stream is left at the
 start of the next message.
 */
module Framing {
  import opened Common
  import opened Wire
  import opened Args
  import opened IoBuf
  import opened Unmarshaling
  import opened Decoding
  import opened Headers

  /** The fixed part of a header. */
  function HeaderOf(s: seq<byte>): (h: Header)
    requires |s| >= HDR_SIZE
    ensures h.bodyLen < 0x1_0000_0000 && h.headerLen < 0x1_0000_0000
  {
    Header(s[0], s[1], s[2], s[3], ReadU32(s[4..8]), ReadU32(s[8..12]), ReadU32(s[12..16]))
  }

  /** Where the body starts in the buffer. */
  function BodyStart(h: Header): nat { HDR_SIZE + h.headerLen + HdrPad(h.headerLen) }

  /** The size of the whole message on the wire. */
  function MessageLen(h: Header): nat { BodyStart(h) + h.bodyLen }

  /** What the receiver takes for the size of the whole message: the body is counted in 16 bits. */
  function Taken(h: Header): nat { BodyStart(h) + h.bodyLen % 0x1_0000 }

  /** The next message is where the receiver looks for it if and only if the body is below 2^16 octets. */
  lemma NextMessage(s: seq<byte>, h: Header)
    requires MessageLen(h) <= |s|
    ensures Taken(h) <= |s| && (s[Taken(h)..] == s[MessageLen(h)..] <==> h.bodyLen < 0x1_0000)
  {
    hide HdrPad;
    if h.bodyLen >= 0x1_0000 {
      assert |s[Taken(h)..]| > |s[MessageLen(h)..]|;
    }
  }

  /**
   The stream starts with a message this peer can frame: in the host's byte order, not
   encrypted, its padded header no larger than the buffer.
   */
  predicate Framed(s: seq<byte>, size: nat) {
    && |s| >= HDR_SIZE
    && var h := HeaderOf(s);
      h.endian == 108 && h.flags < 128 && BodyStart(h) <= size
  }

  /** A body of 2^16 octets behind a header without fields: the receiver takes it to be empty. */
  lemma LongBody()
    ensures var s := [LITTLE_ENDIAN, 1, 0, 1] + U32(0x1_0000) + U32(1) + U32(0) + Zeros(0x1_0000); var h := HeaderOf(s);
      Framed(s, HDR_SIZE) && MessageLen(h) == |s| == 16 + 0x1_0000 && Taken(h) == 16
  {
    hide U32, ReadU32;
    var s := [LITTLE_ENDIAN, 1, 0, 1] + U32(0x1_0000) + U32(1) + U32(0) + Zeros(0x1_0000);
    assert s[4..8] == U32(0x1_0000) && s[8..12] == U32(1) && s[12..16] == U32(0);
    U32RoundTrip(0x1_0000);
    U32RoundTrip(1);
    U32RoundTrip(0);
  }

  /** AJ_CloseMsg. */
  method CloseMsg(msg: Message) returns (status: Status)
    requires msg.rx.Valid() && msg.rx.data.Length > 0 && msg.bodyBytes < 0x1_0000
    modifies msg, msg.rx, msg.rx.data
    ensures msg.rx.InBounds() && (old(msg.rx.failed) ==> msg.rx.failed)
    ensures !old(msg.open) ==> status == OK && msg.rx.Valid() && msg.rx.Unread() == old(msg.rx.Unread())
    ensures old(msg.open) && status == OK ==> msg.rx.Valid()
    ensures old(msg.open) && status == OK ==>
              old(msg.bodyBytes) <= |old(msg.rx.Unread())|
                && msg.rx.Unread() == old(msg.rx.Unread())[old(msg.bodyBytes)..]
    ensures status == OK || msg.rx.failed
    ensures !msg.open && (old(msg.open) ==> msg.bodyBytes == 0)
  {
    status := OK;
    if !msg.open {
      return;
    }
    ghost var total := msg.bodyBytes;
    ghost var stream := msg.rx.Unread();
    while msg.bodyBytes != 0
      invariant status == OK && msg.rx.Valid() && msg.bodyBytes <= total < 0x1_0000 && total - msg.bodyBytes <= |stream|
      invariant msg.rx.Unread() == stream[total - msg.bodyBytes..]
      invariant old(msg.rx.failed) ==> msg.rx.failed
      decreases msg.bodyBytes
    {
      status := Discard(msg);
      if status != OK {
        break;
      }
    }
    Clear(msg);
  }

  /** One turn of AJ_CloseMsg: what is in the buffer goes first, then as much as the buffer holds. */
  method Discard(msg: Message) returns (status: Status)
    requires msg.rx.Valid() && msg.rx.data.Length > 0 && 0 < msg.bodyBytes < 0x1_0000
    modifies msg`bodyBytes, msg.rx, msg.rx.data
    ensures msg.rx.InBounds() && (old(msg.rx.failed) ==> msg.rx.failed)
    ensures status == OK || msg.rx.failed
    ensures status == OK ==> msg.rx.Valid() && msg.bodyBytes < old(msg.bodyBytes)
    ensures status == OK ==> old(msg.bodyBytes) - msg.bodyBytes <= |old(msg.rx.Unread())|
    ensures status == OK ==> msg.rx.Unread() == old(msg.rx.Unread())[old(msg.bodyBytes) - msg.bodyBytes..]
  {
    hide IoBuffer.Received, IoBuffer.Unread;
    var sz := PieceSize(msg.rx, msg.bodyBytes);
    status := Fetch(msg.rx, sz);
    if status == OK {
      msg.bodyBytes := msg.bodyBytes - sz;
      msg.rx.Skip(sz);
    }
  }

  /** How much to discard next; the buffer starts over when there is nothing in it. */
  method PieceSize(rx: IoBuffer, bodyBytes: nat) returns (sz: nat)
    requires rx.Valid() && rx.data.Length > 0 && 0 < bodyBytes < 0x1_0000
    modifies rx, rx.data
    ensures rx.Valid() && rx.Unread() == old(rx.Unread()) && rx.failed == old(rx.failed)
    ensures 0 < sz <= bodyBytes && rx.readPos + sz <= rx.data.Length
  {
    sz := Min(rx.Avail(), bodyBytes);
    if sz == 0 {
      rx.Reset();
      sz := Min(bodyBytes, rx.data.Length);
    }
  }

  /** LoadBytes without padding. */
  method Fetch(rx: IoBuffer, n: nat) returns (status: Status)
    requires rx.Valid() && n < 0x1_0000
    modifies rx, rx.data
    ensures rx.InBounds() && (old(rx.failed) ==> rx.failed) && rx.Received() == old(rx.Received())
    ensures rx.readPos == old(rx.readPos) && old(rx.writePos) <= rx.writePos
    ensures rx.readPos + n <= rx.data.Length ==> status == OK || rx.failed
    ensures status == OK ==> rx.Valid() && n <= rx.Avail() && rx.Unread() == old(rx.Unread())
  {
    status := rx.LoadBytes(n, 0);
  }

  /** memset(msg, 0, sizeof(AJ_Message)). */
  method Clear(msg: Message)
    modifies msg
    ensures !msg.open && msg.hdr == None && msg.fields == NO_FIELDS && msg.signature == []
    ensures msg.sigOffset == msg.varOffset == msg.bodyBytes == 0 && msg.outer == null
    ensures msg.scalarAsElement == old(msg.scalarAsElement)
  {
    msg.open, msg.hdr, msg.fields, msg.signature := false, None, NO_FIELDS, [];
    msg.sigOffset, msg.varOffset, msg.bodyBytes, msg.outer := 0, 0, 0, null;
  }

  /** The first `n` octets of the stream `s` have been consumed and the message is closed. */
  ghost predicate Discarded(msg: Message, s: seq<byte>, n: nat)
    reads msg, msg.rx, msg.rx.data
  {
    !msg.open && msg.rx.Valid() && n <= |s| && msg.rx.Unread() == s[n..]
  }

  /** What the header fields say, and the signature, once a field with this id and value has been seen. */
  function WithField(f: Fields, signature: seq<byte>, id: byte, val: seq<byte>): (Fields, seq<byte>) {
    match id
    case 1 => (f.(pathOrSerial := ObjPath(val)), signature)
    case 2 => (f.(iface := Some(val)), signature)
    case 3 => (f.(memberOrError := Some(val)), signature)
    case 4 => (f.(memberOrError := Some(val)), signature)
    case 5 => (if |val| == 4 then f.(pathOrSerial := ReplySerial(ReadU32(val))) else f, signature)
    case 6 => (f.(destination := Some(val)), signature)
    case 7 => (f.(sender := Some(val)), signature)
    case 8 => (f, val)
    case 0x13 => (if |val| == 4 then f.(sessionId := ReadU32(val)) else f, signature)
    case _ => (f, signature)
  }

  /** The values of the header fields that later code looks at. */
  method SetField(msg: Message, fieldId: byte, d: ArgData)
    modifies msg`fields, msg`signature
    ensures (msg.fields, msg.signature) == WithField(old(msg.fields), old(msg.signature), fieldId, d.val)
  {
    match fieldId {
      case 1 => msg.fields := msg.fields.(pathOrSerial := ObjPath(d.val));
      case 2 => msg.fields := msg.fields.(iface := Some(d.val));
      case 3 => msg.fields := msg.fields.(memberOrError := Some(d.val));
      case 4 => msg.fields := msg.fields.(memberOrError := Some(d.val));
      case 5 =>
        if |d.val| == 4 {
          msg.fields := msg.fields.(pathOrSerial := ReplySerial(ReadU32(d.val)));
        }
      case 6 => msg.fields := msg.fields.(destination := Some(d.val));
      case 7 => msg.fields := msg.fields.(sender := Some(d.val));
      case 8 => msg.signature := d.val;
      case 0x13 =>
        if |d.val| == 4 {
          msg.fields := msg.fields.(sessionId := ReadU32(d.val));
        }
      case _ =>
    }
  }

  /** The octets of a field's value, without its length and padding. */
  function Octets(v: Value): seq<byte>
    requires v.Scalar? || v.Str?
  {
    if v.Scalar? then v.bytes else v.s
  }

  /** What all the fields say, the later ones overriding the earlier ones. */
  function WithFields(f: Fields, signature: seq<byte>, fs: seq<Field>): (Fields, seq<byte>)
    decreases |fs|
  {
    if fs == [] then (f, signature)
    else
      var (f', signature') := if fs[0].v.Scalar? || fs[0].v.Str? then WithField(f, signature, fs[0].id, Octets(fs[0].v))
        else (f, signature);
      WithFields(f', signature', fs[1..])
  }

  /** The fields `fs` are what stands between two offsets. */
  ghost predicate FieldsAt(r: seq<byte>, at: nat, end: nat, fs: seq<Field>) {
    && At(r, at, FieldOctets(fs, at)) && at + |FieldOctets(fs, at)| == end
    && forall i :: 0 <= i < |fs| ==> fs[i].Readable()
  }

  /** ValidateHeader: the fields every message of its type must have. */
  function ValidateHeader(h: Header, f: Fields): Status {
    if f.sender.None? || f.pathOrSerial.NoPath? || f.pathOrSerial == ReplySerial(0) then ErrUnmarshal
    else if h.msgType == MSG_SIGNAL then (if f.iface.Some? && f.memberOrError.Some? then OK else ErrUnmarshal)
    else if h.msgType == MSG_METHOD_CALL then
      (if f.destination.Some? && f.iface.Some? && f.memberOrError.Some? then OK else ErrUnmarshal)
    else if h.msgType == MSG_ERROR then (if f.destination.Some? && f.memberOrError.Some? then OK else ErrRejected)
    else if h.msgType == MSG_METHOD_RET then (if f.destination.Some? then OK else ErrUnmarshal)
    else ErrUnmarshal
  }

  /** The fields are those that every message of its type must have. */
  predicate Complete(msgType: byte, g: Fields) {
    && g.sender.Some? && HasPath(g)
    && match msgType
       case 1 => g.destination.Some? && g.iface.Some? && g.memberOrError.Some?
       case 2 => g.destination.Some?
       case 3 => g.destination.Some? && g.memberOrError.Some?
       case 4 => g.iface.Some? && g.memberOrError.Some?
       case _ => false
  }

  /** A path, or the serial number of a call. */
  predicate HasPath(g: Fields) {
    g.pathOrSerial.ObjPath? || (g.pathOrSerial.ReplySerial? && g.pathOrSerial.serial != 0)
  }

  /** What is said if fields are missing: an error from a known sender means that the peer was turned away. */
  function Verdict(msgType: byte, g: Fields): Status {
    if Complete(msgType, g) then OK
    else if msgType == 3 && g.sender.Some? && HasPath(g) then ErrRejected
    else ErrUnmarshal
  }

  /** The first field that has not the type its id asks for. */
  function FirstBad(fs: seq<Field>): (n: nat)
    ensures n <= |fs| && (forall i :: 0 <= i < n ==> fs[i].Typed()) && (n < |fs| ==> !fs[n].Typed())
  {
    if fs == [] || !fs[0].Typed() then 0 else 1 + FirstBad(fs[1..])
  }

  /** What reading the fields ends with: a token of a compressed header counts only if it comes last. */
  function ReadStatus(fs: seq<Field>): Status {
    if FirstBad(fs) < |fs| || (fs != [] && fs[|fs| - 1].id == 0x12) then ErrUnmarshal else OK
  }

  /** What is said of a whole header: a field of a wrong type that others follow leaves it corrupt. */
  function HeaderVerdict(msgType: byte, fs: seq<Field>): Status {
    if FirstBad(fs) + 1 < |fs| then ErrHdrCorrupt
    else if ReadStatus(fs) != OK then ErrUnmarshal
    else Verdict(msgType, WithFields(NO_FIELDS, [], fs).0)
  }

  /** Good fields leave only the question whether all are there. */
  lemma GoodVerdict(msgType: byte, fs: seq<Field>)
    requires forall i :: 0 <= i < |fs| ==> fs[i].Ok()
    ensures HeaderVerdict(msgType, fs) == Verdict(msgType, WithFields(NO_FIELDS, [], fs).0)
  {
    hide Verdict, WithFields, Field.Readable;
    assert forall i :: 0 <= i < |fs| ==> fs[i].Typed();
    assert fs != [] ==> fs[|fs| - 1].id != 0x12;
  }

  /**
   A compressed header, which this peer cannot read, is refused for its token if and only if the token is
   the last field: the status it sets is overwritten by the next field's.
   */
  lemma TokenLast(msgType: byte, fs: seq<Field>)
    requires fs != [] && (forall i :: 0 <= i < |fs| ==> fs[i].Typed()) && exists i :: 0 <= i < |fs| && fs[i].id == 0x12
    ensures HeaderVerdict(msgType, fs) == OK
      <==> fs[|fs| - 1].id != 0x12 && Complete(msgType, WithFields(NO_FIELDS, [], fs).0)
  {
    hide WithFields, Complete;
  }

  /** One that is accepted: a signal with a token in front of its fields. */
  lemma TokenFirst()
    ensures var text := s => Str(115, [s]);
      HeaderVerdict(4, [Field(0x12, Scalar(117, [1, 0, 0, 0])), Field(1, Str(111, [47])), Field(2, text(73)),
                        Field(3, text(77)), Field(7, text(58))]) == OK
  {
    var fs := [Field(0x12, Scalar(117, [1, 0, 0, 0])), Field(1, Str(111, [47])), Field(2, Str(115, [73])),
               Field(3, Str(115, [77])), Field(7, Str(115, [58]))];
    var g1 := WithField(NO_FIELDS, [], 0x12, [1, 0, 0, 0]);
    assert fs[1..][1..][1..][1..][1..] == [];
    assert FirstBad(fs) == |fs|;
  }

  lemma Validated(h: Header, g: Fields)
    ensures ValidateHeader(h, g) == Verdict(h.msgType, g)
  {
  }

  /**
   The loop over the header fields; a field is a struct of an id and a variant.  If the fields are
   good ones, `fs`, then they are what the message says, unless the link fails.
   */
  method ReadFields(msg: Message, endOfHeader: nat, ghost r: seq<byte>, ghost fs: seq<Field>) returns (status: Status)
    requires msg.rx.Valid() && endOfHeader <= msg.rx.writePos && r == msg.rx.Received()
    modifies msg`fields, msg`signature, msg`varOffset, msg.rx, msg.rx.data
    ensures msg.rx.InBounds() && r == msg.rx.Received() && old(msg.rx.writePos) <= msg.rx.writePos
    ensures old(msg.rx.failed) ==> msg.rx.failed
    ensures FieldsAt(r, old(msg.rx.readPos), endOfHeader, fs) && !msg.rx.failed ==>
      && status == ReadStatus(fs) && (msg.rx.readPos == endOfHeader <==> FirstBad(fs) + 1 >= |fs|)
    ensures FieldsAt(r, old(msg.rx.readPos), endOfHeader, fs) && status == OK ==>
      && FirstBad(fs) == |fs| && ReadStatus(fs) == OK && msg.rx.readPos == endOfHeader
      && msg.varOffset == old(msg.varOffset)
      && (msg.fields, msg.signature) == WithFields(old(msg.fields), old(msg.signature), fs)
  {
    hide FieldOctets, WithField, Field.Readable, Field.Typed, At;
    status := OK;
    ghost var good, k, left := FieldsAt(r, msg.rx.readPos, endOfHeader, fs), 0, false;
    assert fs[0..] == fs;
    while msg.rx.readPos < endOfHeader
      invariant msg.rx.InBounds() && r == msg.rx.Received() && old(msg.rx.writePos) <= msg.rx.writePos
      invariant !left && (old(msg.rx.failed) ==> msg.rx.failed)
      invariant good ==>
        && k <= FirstBad(fs) && status == (if k > 0 && fs[k - 1].id == 0x12 then ErrUnmarshal else OK)
        && msg.varOffset == old(msg.varOffset) && FieldsAt(r, msg.rx.readPos, endOfHeader, fs[k..])
      invariant good ==>
        WithFields(msg.fields, msg.signature, fs[k..]) == WithFields(old(msg.fields), old(msg.signature), fs)
      decreases endOfHeader - msg.rx.readPos
    {
      if good {
        NextField(r, msg.rx.readPos, endOfHeader, fs[k..]);
        OneField(msg.fields, msg.signature, fs[k..]);
        assert fs[k..][1..] == fs[k + 1..];
      }
      var done;
      status, done := ReadField(msg, r, good, if good then fs[k] else Field(0, Scalar(0, [])));
      if done {
        if good && !msg.rx.failed {
          Followed(r, msg.rx.readPos, endOfHeader, fs[k + 1..]);
        }
        left := true;
        break;
      }
      k := k + 1;
    }
    if good && !left {
      NoMoreFields(r, msg.rx.readPos, endOfHeader, fs[k..]);
    }
  }

  /** Fields take room. */
  lemma Followed(r: seq<byte>, at: nat, end: nat, fs: seq<Field>)
    requires FieldsAt(r, at, end, fs)
    ensures at == end <==> fs == []
    ensures at <= end
  {
    hide FieldOctets, Enc;
    FieldsHead(fs, at);
    if fs != [] {
      FieldEnc(fs[0], at);
    }
  }

  lemma OneField(f: Fields, signature: seq<byte>, fs: seq<Field>)
    requires fs != [] && (fs[0].v.Scalar? || fs[0].v.Str?)
    ensures var next := WithField(f, signature, fs[0].id, Octets(fs[0].v));
      WithFields(f, signature, fs) == WithFields(next.0, next.1, fs[1..])
  {
  }

  /** Unless the header has ended there is a next field; behind it are the rest. */
  lemma NextField(r: seq<byte>, at: nat, end: nat, fs: seq<Field>)
    requires FieldsAt(r, at, end, fs) && at < end
    ensures
      && fs != [] && fs[0].Readable() && At(r, at, Enc(fs[0].AsValue(), at))
      && at + |Enc(fs[0].AsValue(), at)| <= end
    ensures FieldsAt(r, at + |Enc(fs[0].AsValue(), at)|, end, fs[1..])
    ensures fs[0].v.Scalar? || fs[0].v.Str?
  {
    hide FieldOctets, Enc, At;
    FieldsHead(fs, at);
    var e := Enc(fs[0].AsValue(), at);
    AtSplit(r, at, e, FieldOctets(fs[1..], at + |e|));
  }

  lemma NoMoreFields(r: seq<byte>, at: nat, end: nat, fs: seq<Field>)
    requires FieldsAt(r, at, end, fs) && at >= end
    ensures fs == [] && at == end
  {
    hide FieldOctets, Enc;
    FieldsHead(fs, at);
    if fs != [] {
      FieldEnc(fs[0], at);
    }
  }

  /** One turn of the loop; if what comes next is a good field, it is read and set. */
  method ReadField(msg: Message, ghost r: seq<byte>, ghost good: bool, ghost fld: Field)
    returns (status: Status, done: bool)
    requires msg.rx.Valid() && r == msg.rx.Received()
    requires good ==> fld.Readable() && At(r, msg.rx.readPos, Enc(fld.AsValue(), msg.rx.readPos))
    requires good ==> msg.rx.readPos + |Enc(fld.AsValue(), msg.rx.readPos)| <= msg.rx.writePos
    modifies msg`fields, msg`signature, msg`varOffset, msg.rx, msg.rx.data
    ensures msg.rx.InBounds() && r == msg.rx.Received() && old(msg.rx.writePos) <= msg.rx.writePos
    ensures old(msg.rx.failed) ==> msg.rx.failed
    ensures done ==> status != OK
    ensures !done ==> old(msg.rx.readPos) < msg.rx.readPos
    ensures good ==> msg.rx.failed || (done <==> !fld.Typed())
    ensures good && !done ==> fld.Typed() && status == if fld.id == 0x12 then ErrUnmarshal else OK
    ensures good && done && !msg.rx.failed ==> status == ErrUnmarshal
    ensures good && (!done || !msg.rx.failed) ==>
      msg.rx.readPos == old(msg.rx.readPos) + |Enc(fld.AsValue(), old(msg.rx.readPos))|
    ensures good && !done ==> msg.varOffset == old(msg.varOffset)
    ensures good && !done ==>
      (msg.fields, msg.signature) == WithField(old(msg.fields), old(msg.signature), fld.id, Octets(fld.v))
  {
    hide Enc, WithField, At, CStr, TypeForHdr, PadFor, Field.Readable, ParseArg;
    ghost var at := msg.rx.readPos;
    ghost var p := PadFor(STRUCT_OPEN, at);
    done := true;
    if good {
      FieldParts(r, at, fld, msg.scalarAsElement);
    }
    status := msg.rx.LoadBytes(4, PadFor(STRUCT_OPEN, msg.rx.readPos));
    if status != OK {
      return;
    }
    var fieldId := msg.rx.data[msg.rx.readPos];
    var fieldSig := CStr(msg.rx.data[..msg.rx.writePos], msg.rx.readPos + 2);
    if good {
      FieldSig(msg.rx.data[..msg.rx.writePos], msg.rx.incoming, at + p, fld.id, fld.v.t);
    }
    msg.rx.readPos := msg.rx.readPos + 4;
    var hdrVal := new Arg(ArgData(ARG_INVALID, false, 0, []));
    var rest;
    status, rest := msg.Unmarshal(fieldSig, hdrVal, r);
    if status != OK {
      return;
    }
    if fieldId <= 0x13 && TypeForHdr(fieldId) != hdrVal.d.typeId {
      status := ErrUnmarshal;
      return;
    }
    SetField(msg, fieldId, hdrVal.d);
    if fieldId == 0x12 {
      status := ErrUnmarshal;
    }
    done := false;
  }

  /** The parts of a good field, and what parsing makes of its value. */
  lemma FieldParts(r: seq<byte>, at: nat, fld: Field, asElements: bool)
    requires fld.Readable() && At(r, at, Enc(fld.AsValue(), at)) && at + |Enc(fld.AsValue(), at)| < 0x1_0000
    ensures fld.v.Scalar? || fld.v.Str?
    ensures fld.v.t != 0 && fld.v.t != ARG_VARIANT
    ensures At(r, at + PadFor(STRUCT_OPEN, at), FieldHead(fld.id, fld.v.t))
    ensures var start := at + PadFor(STRUCT_OPEN, at) + 4; var p := ParseArg([fld.v.t], asElements, r, start);
      && p.Some? && p.value.end == p.value.loaded == at + |Enc(fld.AsValue(), at)| == start + |Enc(fld.v, start)|
      && p.value.d.typeId == fld.v.t && p.value.d.val == Octets(fld.v)
  {
    hide Enc, ParseArg, At, TypeForHdr;
    FieldEnc(fld, at);
    var p := PadFor(STRUCT_OPEN, at);
    AtSplit3(r, at, Zeros(p), FieldHead(fld.id, fld.v.t), Enc(fld.v, at + p + 4));
    assert SigOf(fld.v) == [fld.v.t] && [fld.v.t] + [] == [fld.v.t];
    if fld.v.Scalar? {
      ScalarParsed(fld.v, [], asElements, r, at + p + 4);
    } else {
      StrParsed(fld.v, [], asElements, r, at + p + 4);
    }
  }

  /** The id and the signature of a field, in the part of the stream that has arrived. */
  lemma FieldSig(have: seq<byte>, more: seq<byte>, at: nat, id: byte, t: byte)
    requires At(have + more, at, FieldHead(id, t)) && at + 4 <= |have| && t != 0
    ensures have[at] == id && CStr(have, at + 2) == [t]
  {
    var h := (have + more)[at..at + 4];
    assert h[0] == have[at] && h[2] == have[at + 2] && h[3] == have[at + 3];
    assert CStr(have, at + 3) == [];
  }

  /** Waits for the fixed part of a header; `retries` of the timeouts it sees come too soon. */
  method AwaitHeader(rx: IoBuffer, retries: nat) returns (status: Status)
    requires rx.Valid() && rx.data.Length >= HDR_SIZE
    modifies rx`writePos, rx`incoming, rx`events, rx`failed, rx.data
    ensures rx.Valid() && rx.readPos == old(rx.readPos) && rx.Received() == old(rx.Received())
    ensures old(rx.failed) ==> rx.failed
    ensures status == OK ==> HDR_SIZE <= rx.Avail()
    ensures status == OK || status == ErrInterrupted || rx.failed
  {
    status := OK;
    var left := retries;
    while rx.Avail() < HDR_SIZE
      invariant rx.Valid() && rx.readPos == old(rx.readPos) && rx.Received() == old(rx.Received())
      invariant old(rx.failed) ==> rx.failed
      decreases |rx.events|, left
    {
      status := rx.Recv();
      if status != OK {
        if status == ErrTimeout && left > 0 {
          left := left - 1;
          continue;
        }
        return;
      }
    }
    status := OK;
  }

  /**
   AJ_UnmarshalMsg.  `identify` is what AJ_IdentifyMessage says of the message.  `framed` is
   whether a whole header arrived; if not, nothing has been taken from the stream.
   */
  method UnmarshalMsg(msg: Message, retries: nat, identify: Status, ghost fs: seq<Field>)
    returns (status: Status, ghost framed: bool)
    requires msg.rx.Valid() && msg.rx.data.Length >= HDR_SIZE
    requires |msg.rx.Unread()| >= HDR_SIZE ==>
               var h := HeaderOf(msg.rx.Unread()); h.endian != 66 && h.flags < 128
    modifies msg, msg.rx, msg.rx.data
    ensures msg.rx.InBounds() && (old(msg.rx.failed) ==> msg.rx.failed)
    ensures !framed ==> msg.rx.Valid() && msg.rx.Unread() == old(msg.rx.Unread()) && status != OK
    ensures framed ==> |old(msg.rx.Unread())| >= HDR_SIZE
    ensures framed && Framed(old(msg.rx.Unread()), msg.rx.data.Length) ==>
      var s := old(msg.rx.Unread()); var h := HeaderOf(s);
      && (status == OK ==> msg.rx.Valid() && msg.open && msg.bodyBytes == h.bodyLen % 0x1_0000)
      && (status == OK ==> BodyStart(h) <= |s| && msg.rx.Unread() == s[BodyStart(h)..])
      && (status == OK ==> msg.rx.readPos == BodyStart(h) && msg.rx.Received() == s)
      && (status != OK ==> msg.rx.failed || Discarded(msg, s, Taken(h)))
    ensures status == OK ==> msg.sigOffset == 0 && msg.outer == null && msg.scalarAsElement == old(msg.scalarAsElement)
    ensures framed && Framed(old(msg.rx.Unread()), msg.rx.data.Length) ==>
      var s := old(msg.rx.Unread()); var h := HeaderOf(s); FieldsAt(s, HDR_SIZE, HDR_SIZE + h.headerLen, fs) ==>
      var verdict := HeaderVerdict(h.msgType, fs);
      && (status == (if verdict == OK then identify else verdict) || msg.rx.failed)
      && (status == OK ==>
           (msg.fields, msg.signature) == WithFields(NO_FIELDS, [], fs) && msg.varOffset == 0
           && msg.hdr == Some(h.(flags := Toggled(h.flags))))
    ensures status == OK ==> identify == OK && msg.hdr.Some? && Complete(msg.hdr.value.msgType, msg.fields)
    ensures !framed ==> status == ErrInterrupted || msg.rx.failed
  {
    hide HeaderOf, HdrPad, FieldsAt, WithFields, HeaderVerdict, Complete, Toggled, Discarded, IoBuffer.Received,
         IoBuffer.Unread;
    var h;
    status, framed, h := TakeFixed(msg, retries);
    if status != OK {
      return;
    }
    status := LoadHeader(msg, h, msg.rx.Received(), identify, fs);
  }

  /** The fixed part of a header; nothing is taken if it does not come. */
  method TakeFixed(msg: Message, retries: nat) returns (status: Status, framed: bool, h: Header)
    requires msg.rx.Valid() && msg.rx.data.Length >= HDR_SIZE
    modifies msg, msg.rx, msg.rx.data
    ensures msg.rx.Valid() && msg.rx.Received() == old(msg.rx.Unread()) && (old(msg.rx.failed) ==> msg.rx.failed)
    ensures !framed ==>
      msg.rx.Unread() == old(msg.rx.Unread()) && (status == ErrInterrupted || (status != OK && msg.rx.failed))
    ensures framed ==>
      |old(msg.rx.Unread())| >= HDR_SIZE && h == HeaderOf(old(msg.rx.Unread())) && msg.rx.readPos == HDR_SIZE
    ensures framed ==>
      status == if (h.endian == 108 || h.endian == 66)
      && HDR_SIZE + h.headerLen <= msg.rx.data.Length then OK else ErrRead
    ensures status == OK ==> framed && msg.open && msg.hdr == Some(h) && msg.bodyBytes == h.bodyLen % 0x1_0000
    ensures status == OK ==>
      && msg.fields == NO_FIELDS && msg.signature == [] && msg.sigOffset == msg.varOffset == 0
      && msg.outer == null
    ensures msg.scalarAsElement == old(msg.scalarAsElement)
  {
    hide ReadU32;
    framed := false;
    h := Header(0, 0, 0, 0, 0, 0, 0);
    ghost var s := msg.rx.Unread();
    status := Begin(msg, retries);
    if status != OK {
      return;
    }
    framed := true;
    h := HeaderOf(msg.rx.data[0..HDR_SIZE]);
    HeaderAhead(msg.rx.data[0..HDR_SIZE], s);
    msg.hdr := Some(h);
    msg.rx.readPos := HDR_SIZE;
    if h.endian != LITTLE_ENDIAN && h.endian != BIG_ENDIAN {
      return ErrRead, true, h;
    }
    msg.bodyBytes := h.bodyLen % 0x1_0000;
    if h.headerLen > msg.rx.data.Length - HDR_SIZE {
      return ErrRead, true, h;
    }
  }

  /**
   A message that is received and closed without looking at its body.  If it is all there, the
   stream stands at the next message if and only if its body is below 2^16 octets; otherwise in
   the middle of its body.
   */
  method ReceiveAndClose(msg: Message, retries: nat, identify: Status) returns (status: Status)
    requires
      && msg.rx.Valid() && Framed(msg.rx.Unread(), msg.rx.data.Length)
      && MessageLen(HeaderOf(msg.rx.Unread())) <= |msg.rx.Unread()|
    requires HDR_SIZE <= msg.rx.data.Length
    modifies msg, msg.rx, msg.rx.data
    ensures msg.rx.InBounds()
    ensures status != ErrInterrupted && !msg.rx.failed ==>
      var s := old(msg.rx.Unread()); var h := HeaderOf(s);
      && Discarded(msg, s, Taken(h))
      && (msg.rx.Unread() == s[MessageLen(h)..] <==> h.bodyLen < 0x1_0000)
  {
    hide HeaderOf, BodyStart, FieldsAt;
    ghost var s := msg.rx.Unread();
    ghost var framed;
    NextMessage(s, HeaderOf(s));
    status, framed := UnmarshalMsg(msg, retries, identify, []);
    if status == OK {
      DropDrop(s, BodyStart(HeaderOf(s)), msg.bodyBytes);
      status := CloseMsg(msg);
    }
  }

  /** Up to the point where the fixed part of a header is at the start of the buffer. */
  method Begin(msg: Message, retries: nat) returns (status: Status)
    requires msg.rx.Valid() && msg.rx.data.Length >= HDR_SIZE
    modifies msg, msg.rx, msg.rx.data
    ensures msg.rx.Valid() && msg.rx.readPos == 0 && (old(msg.rx.failed) ==> msg.rx.failed)
    ensures msg.rx.Unread() == old(msg.rx.Unread()) && msg.rx.Unread() == msg.rx.Received()
    ensures status == OK ==> HDR_SIZE <= msg.rx.writePos
    ensures
      && msg.open && msg.sigOffset == 0 && msg.varOffset == 0 && msg.outer == null
      && msg.fields == NO_FIELDS && msg.signature == []
    ensures
      && msg.scalarAsElement == old(msg.scalarAsElement)
      && (status == OK || status == ErrInterrupted || msg.rx.failed)
  {
    Clear(msg);
    msg.open := true;
    msg.rx.Rebase(0);
    status := AwaitHeader(msg.rx, retries);
  }

  lemma HeaderAhead(a: seq<byte>, s: seq<byte>)
    requires |a| == HDR_SIZE && a <= s
    ensures HeaderOf(a) == HeaderOf(s)
  {
    assert a[4..8] == s[4..8] && a[8..12] == s[8..12] && a[12..16] == s[12..16];
  }

  /** Moves the read position to an offset that has been loaded. */
  method Position(rx: IoBuffer, at: nat, ghost s: seq<byte>)
    requires rx.InBounds() && at <= rx.writePos && s == rx.Received()
    modifies rx`readPos
    ensures rx.Valid() && rx.readPos == at <= |s| && rx.Received() == s && rx.Unread() == s[at..]
  {
    rx.readPos := at;
  }

  /** The header fields, once the fixed part of the header has been taken, if all of the header can be loaded. */
  method ReadHeader(msg: Message, h: Header, ghost s: seq<byte>, ghost fs: seq<Field>)
    returns (status: Status, loaded: bool)
    requires msg.fields == NO_FIELDS && msg.signature == [] && msg.varOffset == 0
    requires
      && msg.rx.Valid() && msg.rx.readPos == HDR_SIZE && s == msg.rx.Received()
      && HDR_SIZE + h.headerLen <= msg.rx.data.Length
    modifies msg`fields, msg`signature, msg`varOffset, msg.rx, msg.rx.data
    ensures msg.rx.InBounds() && (old(msg.rx.failed) ==> msg.rx.failed)
    ensures !loaded ==> status != OK && (BodyStart(h) <= msg.rx.data.Length ==> msg.rx.failed)
    ensures loaded ==> s == msg.rx.Received() && BodyStart(h) <= msg.rx.writePos
    ensures loaded && FieldsAt(s, HDR_SIZE, HDR_SIZE + h.headerLen, fs) ==>
              ((status == HeaderVerdict(h.msgType, fs) || msg.rx.failed)
               && (status == OK ==> (msg.fields, msg.signature) == WithFields(NO_FIELDS, [], fs) && msg.varOffset == 0))
    ensures status == OK ==> Complete(h.msgType, msg.fields) && msg.rx.readPos == HDR_SIZE + h.headerLen
  {
    hide Complete, ValidateHeader, CStr, ReadU32, HdrPad, IoBuffer.Received, IoBuffer.Unread, FieldsAt, WithFields;
    var hdrPad := HdrPad(h.headerLen);
    loaded := false;
    status := msg.rx.LoadBytes((h.headerLen + hdrPad) % 0x1_0000, 0);
    if status != OK {
      return;
    }
    loaded := true;
    var endOfHeader := HDR_SIZE + h.headerLen;
    status := ReadFields(msg, endOfHeader, s, fs);
    if status == OK {
      status := ValidateHeader(h, msg.fields);
      Validated(h, msg.fields);
    }
    if msg.rx.readPos != endOfHeader {
      status := ErrHdrCorrupt;
    }
  }

  /** The rest of AJ_UnmarshalMsg, once the fixed part of the header has been taken. */
  method LoadHeader(msg: Message, h: Header, ghost s: seq<byte>, identify: Status, ghost fs: seq<Field>)
    returns (status: Status)
    requires msg.fields == NO_FIELDS && msg.signature == [] && msg.varOffset == 0
    requires msg.rx.Valid() && msg.rx.readPos == HDR_SIZE && msg.open && msg.bodyBytes == h.bodyLen % 0x1_0000
    requires s == msg.rx.Received() && HDR_SIZE + h.headerLen <= msg.rx.data.Length
    modifies msg, msg.rx, msg.rx.data
    ensures msg.rx.InBounds() && (old(msg.rx.failed) ==> msg.rx.failed)
    ensures BodyStart(h) <= msg.rx.data.Length && status == OK ==>
      msg.rx.Valid() && msg.open && msg.bodyBytes == old(msg.bodyBytes)
    ensures BodyStart(h) <= msg.rx.data.Length && status == OK ==>
      BodyStart(h) <= |s| && msg.rx.Unread() == s[BodyStart(h)..]
    ensures BodyStart(h) <= msg.rx.data.Length && status == OK ==>
      msg.rx.readPos == BodyStart(h) && msg.rx.Received() == s
    ensures BodyStart(h) <= msg.rx.data.Length && status != OK ==>
      msg.rx.failed || Discarded(msg, s, BodyStart(h) + old(msg.bodyBytes))
    ensures status == OK ==>
      && msg.sigOffset == old(msg.sigOffset) && msg.outer == old(msg.outer)
      && msg.scalarAsElement == old(msg.scalarAsElement)
    ensures BodyStart(h) <= msg.rx.data.Length && FieldsAt(s, HDR_SIZE, HDR_SIZE + h.headerLen, fs) ==>
              (var verdict := HeaderVerdict(h.msgType, fs);
               && (status == (if verdict == OK then identify else verdict) || msg.rx.failed)
               && (status == OK ==> (msg.fields, msg.signature) == WithFields(NO_FIELDS, [], fs) && msg.varOffset == 0))
    ensures status == OK ==> Complete(h.msgType, msg.fields) && msg.hdr == Some(h.(flags := Toggled(h.flags)))
    ensures status == OK ==> identify == OK
  {
    hide HdrPad, Toggled, IoBuffer.Received, IoBuffer.Unread, FieldsAt, WithFields, HeaderVerdict, Complete;
    var loaded;
    status, loaded := ReadHeader(msg, h, s, fs);
    if loaded {
      status := LeaveHeader(msg, h, s, status, identify);
    }
  }

  /** The end of AJ_UnmarshalMsg: behind the header, the message is identified or discarded. */
  method LeaveHeader(msg: Message, h: Header, ghost s: seq<byte>, fieldStatus: Status, identify: Status)
    returns (status: Status)
    requires msg.rx.InBounds() && BodyStart(h) <= msg.rx.writePos && s == msg.rx.Received() && msg.rx.data.Length > 0
    requires msg.open && msg.bodyBytes < 0x1_0000
    modifies msg, msg.rx, msg.rx.data
    ensures msg.rx.InBounds() && (old(msg.rx.failed) ==> msg.rx.failed)
    ensures status == if fieldStatus == OK then identify else fieldStatus
    ensures status == OK ==>
      && msg.rx.Valid() && msg.rx.readPos == BodyStart(h) <= |s| && msg.rx.Received() == s
      && msg.rx.Unread() == s[BodyStart(h)..]
    ensures status == OK ==>
      msg.hdr == Some(h.(flags := Toggled(h.flags))) && msg.open && msg.bodyBytes == old(msg.bodyBytes)
    ensures status == OK ==>
      msg.fields == old(msg.fields) && msg.signature == old(msg.signature) && msg.varOffset == old(msg.varOffset)
    ensures status == OK ==>
      && msg.sigOffset == old(msg.sigOffset) && msg.outer == old(msg.outer)
      && msg.scalarAsElement == old(msg.scalarAsElement)
    ensures status != OK ==> msg.rx.failed || Discarded(msg, s, BodyStart(h) + old(msg.bodyBytes))
  {
    hide HdrPad, Toggled, IoBuffer.Received, IoBuffer.Unread;
    status := fieldStatus;
    Position(msg.rx, HDR_SIZE + h.headerLen + HdrPad(h.headerLen), s);
    if status == OK {
      msg.hdr := Some(h.(flags := Toggled(h.flags)));
      status := identify;
    }
    if status != OK {
      CloseBad(msg, s, BodyStart(h));
    }
  }

  /** A message whose header is no good is closed at once; its body goes unread. */
  method CloseBad(msg: Message, ghost s: seq<byte>, ghost n: nat)
    requires msg.rx.Valid() && msg.rx.data.Length > 0 && msg.open && msg.bodyBytes < 0x1_0000
    requires n <= |s| && msg.rx.Unread() == s[n..]
    modifies msg, msg.rx, msg.rx.data
    ensures msg.rx.InBounds() && (old(msg.rx.failed) ==> msg.rx.failed)
    ensures msg.rx.failed || Discarded(msg, s, n + old(msg.bodyBytes))
  {
    DropDrop(s, n, msg.bodyBytes);
    var status := CloseMsg(msg);
  }

  lemma DropDrop(s: seq<byte>, m: nat, n: nat)
    requires m <= |s|
    ensures n <= |s[m..]| ==> m + n <= |s| && s[m..][n..] == s[m + n..]
  {
  }

  // ---- What MarshalMsg wrote ----

  /** What is received of a message's description: two pairs of fields share their place. */
  function Described(msgType: byte, f: HdrFields): (Fields, seq<byte>) {
    (Fields(
      if msgType == MSG_METHOD_CALL || msgType == MSG_SIGNAL
        then (if f.objPath.Some? then ObjPath(f.objPath.value) else NoPath)
      else if msgType == MSG_METHOD_RET || msgType == MSG_ERROR then ReplySerial(f.replySerial) else NoPath,
      if msgType == MSG_ERROR then f.error else if f.member.Some? then Some(NameOf(f.member.value)) else None,
      f.iface, f.sender, f.destination, f.sessionId),
     if f.signature.Some? then f.signature.value else [])
  }

  /** A member's name as it goes over the wire. */
  function NameOf(member: seq<byte>): seq<byte> {
    ArgData(ARG_STRING, false, MemberLen(member), member).StrVal()
  }

  /** What has been received, in the words of what was sent. */
  predicate Says(msgType: byte, f: HdrFields, g: Fields, signature: seq<byte>) {
    && g.iface == f.iface && g.sender == f.sender && g.destination == f.destination && g.sessionId == f.sessionId
    && (msgType in {1, 4} ==>
          g.pathOrSerial == if f.objPath.Some? then ObjPath(f.objPath.value) else NoPath)
    && (msgType in {2, 3} ==> g.pathOrSerial == ReplySerial(f.replySerial))
    && (msgType == 3 ==> g.memberOrError == f.error)
    && (msgType != 3 ==> (g.memberOrError.Some? <==> f.member.Some?))
    && (msgType != 3 && f.member.Some? ==> IsName(g.memberOrError.value, f.member.value))
    && signature == if f.signature.Some? then f.signature.value else []
  }

  /** That says all there is, and the fields a description must have are those a message must have. */
  lemma DescribedSays(msgType: byte, f: HdrFields, g: Fields, signature: seq<byte>)
    requires msgType in {1, 2, 3, 4}
    ensures Says(msgType, f, g, signature) <==> (g, signature) == Described(msgType, f)
    ensures Required(msgType, f) <==> Complete(msgType, Described(msgType, f).0)
  {
    hide NameOf;
    if msgType != 3 && f.member.Some? {
      NameIs(f.member.value);
      if g.memberOrError.Some? {
        NameUnique(g.memberOrError.value, f.member.value);
      }
    }
  }

  lemma NameIs(member: seq<byte>)
    ensures IsName(NameOf(member), member)
  {
    NameSent(member, NameOf(member));
  }

  lemma NameUnique(n: seq<byte>, member: seq<byte>)
    ensures IsName(n, member) ==> n == NameOf(member)
  {
    NameSent(member, n);
  }

  /** One field id's part in it. */
  lemma StepField(msgType: byte, f: HdrFields, id: byte, g: Fields, signature: seq<byte>)
    returns (g': Fields, signature': seq<byte>)
    requires f.Ok() && id < 0x14
    ensures FieldValue(msgType, f, id).Some? ==>
      (g', signature') == WithField(g, signature, id, Octets(FieldValue(msgType, f, id).value))
    ensures FieldValue(msgType, f, id).None? ==> (g', signature') == (g, signature)
    ensures FieldValue(msgType, f, id).Some? ==>
      FieldValue(msgType, f, id).value.Scalar? || FieldValue(msgType, f, id).value.Str?
    ensures WithFields(g, signature, FieldList(msgType, f, id))
      == WithFields(g', signature', FieldList(msgType, f, id as nat + 1))
  {
    hide WithField, MemberLen;
    var v := FieldValue(msgType, f, id);
    var rest := FieldList(msgType, f, id as nat + 1);
    if v.Some? {
      var next := WithField(g, signature, id, Octets(v.value));
      g', signature' := next.0, next.1;
      assert ([Field(id, v.value)] + rest)[1..] == rest;
    } else {
      g', signature' := g, signature;
      assert [] + rest == rest;
    }
  }

  /** The path, the interface and the member or error. */
  lemma FirstFields(msgType: byte, f: HdrFields) returns (g: Fields)
    requires f.Ok()
    ensures WithFields(NO_FIELDS, [], FieldList(msgType, f, 1)) == WithFields(g, [], FieldList(msgType, f, 5))
    ensures var d := Described(msgType, f).0;
      g == Fields(if d.pathOrSerial.ObjPath? then d.pathOrSerial else NoPath, d.memberOrError, f.iface, None, None, 0)
  {
    hide FieldList, WithFields, MemberLen;
    var g1, s1 := StepField(msgType, f, 1, NO_FIELDS, []);
    var g2, s2 := StepField(msgType, f, 2, g1, s1);
    var g3, s3 := StepField(msgType, f, 3, g2, s2);
    var g4, s4 := StepField(msgType, f, 4, g3, s3);
    g := g4;
  }

  /** The fields MarshalMsg writes say exactly what the message was described by. */
  lemma FieldsBack(msgType: byte, f: HdrFields)
    requires f.Ok()
    ensures WithFields(NO_FIELDS, [], FieldList(msgType, f, 1)) == Described(msgType, f)
  {
    hide FieldList, WithFields, NameOf, U32, ReadU32;
    U32RoundTrip(f.replySerial);
    U32RoundTrip(f.sessionId);
    var g4 := FirstFields(msgType, f);
    var g5, s5 := StepField(msgType, f, 5, g4, []);
    var g6, s6 := StepField(msgType, f, 6, g5, s5);
    var g7, s7 := StepField(msgType, f, 7, g6, s6);
    var g8, s8 := StepField(msgType, f, 8, g7, s7);
    UnusedFields(msgType, f, g8, s8);
  }

  /** Of the fields behind the signature only the session id is written. */
  lemma UnusedFields(msgType: byte, f: HdrFields, g: Fields, signature: seq<byte>)
    requires f.Ok()
    ensures WithFields(g, signature, FieldList(msgType, f, 9))
         == (if f.sessionId != 0 then WithField(g, signature, 0x13, U32(f.sessionId)) else (g, signature))
  {
    hide FieldList, WithFields, WithField, U32;
    var g', s' := g, signature;
    for id := 9 to 0x13
      invariant (g', s') == (g, signature)
      invariant WithFields(g', s', FieldList(msgType, f, id)) == WithFields(g, signature, FieldList(msgType, f, 9))
    {
      g', s' := StepField(msgType, f, id, g', s');
    }
    var g2, s2 := StepField(msgType, f, 0x13, g', s');
    NothingLeft(msgType, f, g2, s2);
  }

  lemma NothingLeft(msgType: byte, f: HdrFields, g: Fields, signature: seq<byte>)
    ensures WithFields(g, signature, FieldList(msgType, f, 0x14)) == (g, signature)
  {
  }

  /** All fields MarshalMsg writes are good ones. */
  lemma {:induction false} ListOk(msgType: byte, f: HdrFields, id: nat)
    requires f.Ok() && id <= 0x14
    ensures forall i :: 0 <= i < |FieldList(msgType, f, id)| ==> FieldList(msgType, f, id)[i].Ok()
    decreases 0x14 - id
  {
    hide Field.Ok, FieldValue, FieldArg;
    if id < 0x14 {
      ListOk(msgType, f, id + 1);
      FieldArgIs(msgType, f, id, 0);
    }
  }
}
