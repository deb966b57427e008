/**
 Message headers: the fields of a header as an array of structs of an id and a variant, and
 MarshalMsg, which writes a header whose fields are known.
 */
module Headers {
  import opened Common
  import opened Wire
  import opened Args
  import opened IoBuf
  import opened Marshaling
  import MarshalClient

  const HDR_SIZE := 16
  const ARG_BYTE: byte := 121 // 'y'
  const LITTLE_ENDIAN: byte := 108 // 'l'
  const BIG_ENDIAN: byte := 66     // 'B'
  const MSG_METHOD_CALL: byte := 1
  const MSG_METHOD_RET: byte := 2
  const MSG_ERROR: byte := 3
  const MSG_SIGNAL: byte := 4
  const FLAG_AUTO_START: byte := 2
  const HDR_SESSION_ID: byte := 0x13
  const HDR_TOKEN: byte := 0x12 // of compressed headers

  /** Padding that brings a header length to a multiple of 8. */
  function HdrPad(headerLen: nat): (p: nat)
    ensures p < 8
  {
    (8 - headerLen % 8) % 8
  }

  /** The type each header field must have; ARG_INVALID for ids that are not in use. */
  function TypeForHdr(fieldId: byte): byte {
    match fieldId
    case 1 => ARG_OBJ_PATH
    case 2 => ARG_STRING
    case 3 => ARG_STRING
    case 4 => ARG_STRING
    case 5 => ARG_UINT32
    case 6 => ARG_STRING
    case 7 => ARG_STRING
    case 8 => ARG_SIGNATURE
    case 9 => ARG_UINT32
    case 0x10 => ARG_UINT32
    case 0x11 => ARG_UINT16
    case 0x12 => ARG_UINT32
    case 0x13 => ARG_UINT32
    case _ => ARG_INVALID
  }

  /** The flags with the meaning of the auto-start bit turned round. */
  function Toggled(flags: byte): byte {
    if flags / FLAG_AUTO_START % 2 == 1 then flags - FLAG_AUTO_START else (flags + FLAG_AUTO_START) % 256
  }

  lemma ToggledTwice(flags: byte)
    ensures Toggled(Toggled(flags)) == flags
    ensures flags < FLAG_ENCRYPTED ==> Toggled(flags) < FLAG_ENCRYPTED
  {
    hide Toggled;
    var q, r := flags / 4, flags % 4;
    ToggledIs(q, r);
    ToggledIs(q, if r < 2 then r + 2 else r - 2);
  }

  lemma ToggledIs(q: nat, r: nat)
    requires q < 64 && r < 4
    ensures Toggled(4 * q + r) == 4 * q + if r < 2 then r + 2 else r - 2
  {
    if r == 0 {
      assert 4 * q + 0 == 2 * (2 * q) + 0;
    } else if r == 1 {
      assert 4 * q + 1 == 2 * (2 * q) + 1;
    } else if r == 2 {
      assert 4 * q + 2 == 2 * (2 * q + 1) + 0;
    } else {
      assert 4 * q + 3 == 2 * (2 * q + 1) + 1;
    }
  }

  // ---- Fields on the wire ----

  /** A header field: its id and its value. */
  datatype Field = Field(id: byte, v: Value) {
    /** The field as the struct of an octet and a variant that it is on the wire. */
    function AsValue(): Value {
      Struct(false, [Scalar(ARG_BYTE, [id]), Variant(v)])
    }

    /** A number or a string that is not too long. */
    ghost predicate Readable() {
      (v.Scalar? || v.Str?) && WellFormed(v) && (v.Str? ==> |v.s| < 0x1_0000)
    }

    /** The value has the type its id asks for; unknown ids ask for nothing. */
    predicate Typed() {
      (v.Scalar? || v.Str?) && (id > HDR_SESSION_ID || TypeForHdr(id) == v.t)
    }

    /** A field with the type its id asks for, and none this peer refuses or does not know. */
    ghost predicate Ok() {
      Readable() && Typed() && id <= HDR_SESSION_ID && id != HDR_TOKEN
    }
  }

  /** The type that each id asks for: a path, strings, a signature, numbers; none has the id 0. */
  lemma FieldTypes(id: byte, t: byte, s: seq<byte>)
    ensures Field(id, Str(t, s)).Typed() <==>
      (match id
       case 0 => t == 0
       case 1 => t == 111
       case 2 => t == 115
       case 3 => t == 115
       case 4 => t == 115
       case 5 => t == 117
       case 6 => t == 115
       case 7 => t == 115
       case 8 => t == 103
       case 9 => t == 117
       case 0x10 => t == 117
       case 0x11 => t == 113
       case 0x12 => t == 117
       case 0x13 => t == 117
       case _ => id <= 0x13 ==> t == 0)
    ensures Field(id, Scalar(t, s)).Typed() <==> Field(id, Str(t, s)).Typed()
  {
  }

  function AsValues(fs: seq<Field>): (vs: seq<Value>)
    ensures |vs| == |fs|
  {
    if fs == [] then [] else [fs[0].AsValue()] + AsValues(fs[1..])
  }

  /** The octets of the fields, from offset `off` on. */
  function FieldOctets(fs: seq<Field>, off: nat): seq<byte> {
    EncAll(AsValues(fs), off)
  }

  /** The four octets in front of a field's value. */
  function FieldHead(id: byte, t: byte): seq<byte> {
    [id, 1, t, 0]
  }

  /** The hand-made form of a field is the encoding of the struct. */
  lemma FieldEnc(f: Field, off: nat)
    requires f.v.Scalar? || f.v.Str?
    ensures var p := PadFor(STRUCT_OPEN, off);
      Enc(f.AsValue(), off) == Zeros(p) + FieldHead(f.id, f.v.t) + Enc(f.v, off + p + 4)
  {
    hide PadTo, KindOf;
    var p := PadFor(STRUCT_OPEN, off);
    var at := off + p;
    var fields := f.AsValue().fields;
    assert SigOf(f.v) == [f.v.t];
    ByteEnc(f.id, at);
    var e := Enc(f.v, at + 4);
    assert Enc(Variant(f.v), at + 1) == [1] + [f.v.t] + [0] + e;
    assert fields[1..] == [Variant(f.v)] && fields[1..][1..] == [];
    assert EncAll(fields[1..][1..], at + 1 + |Enc(Variant(f.v), at + 1)|) == [];
    assert EncAll(fields[1..], at + 1) == [1] + [f.v.t] + [0] + e;
    assert EncAll(fields, at) == [f.id] + ([1] + [f.v.t] + [0] + e) == FieldHead(f.id, f.v.t) + e;
    Assoc(Zeros(p), FieldHead(f.id, f.v.t), e);
  }

  lemma ByteEnc(b: byte, off: nat)
    ensures Enc(Scalar(ARG_BYTE, [b]), off) == [b]
  {
    assert PadFor(ARG_BYTE, off) == 0;
    assert Zeros(0) + [b] == [b];
  }

  /** The first field and the rest of them. */
  lemma FieldsHead(fs: seq<Field>, off: nat)
    ensures fs == [] ==> FieldOctets(fs, off) == []
    ensures fs != [] ==>
      FieldOctets(fs, off) == Enc(fs[0].AsValue(), off) + FieldOctets(fs[1..], off + |Enc(fs[0].AsValue(), off)|)
  {
    hide Enc;
    if fs != [] {
      assert AsValues(fs)[1..] == AsValues(fs[1..]);
    }
  }

  // ---- What a message says of itself ----

  /** What AJ_Message holds when MarshalMsg comes to the fields; there is no time to live. */
  datatype HdrFields = HdrFields(
    objPath: Option<seq<byte>>, iface: Option<seq<byte>>, member: Option<seq<byte>>,
      error: Option<seq<byte>>, replySerial: nat,
    destination: Option<seq<byte>>, sender: Option<seq<byte>>, signature: Option<seq<byte>>, sessionId: nat) {

    /** Strings are C strings, and numbers are 32 bits wide. */
    predicate Ok() {
      && TextOk(objPath) && TextOk(iface) && TextOk(member) && TextOk(error) && TextOk(destination) && TextOk(sender)
      && TextOk(signature) && (signature.Some? ==> |signature.value| < 256)
      && replySerial < 0x1_0000_0000 && sessionId < 0x1_0000_0000
    }
  }

  /** The description has the fields that a message of its type must have. */
  predicate Required(msgType: byte, f: HdrFields) {
    && f.sender.Some?
    && match msgType
       case 1 => f.objPath.Some? && f.destination.Some? && f.iface.Some? && f.member.Some?
       case 2 => f.replySerial != 0 && f.destination.Some?
       case 3 => f.replySerial != 0 && f.destination.Some? && f.error.Some?
       case 4 => f.objPath.Some? && f.iface.Some? && f.member.Some?
       case _ => false
  }

  predicate TextOk(s: Option<seq<byte>>) {
    s.Some? ==> |s.value| < 0x1_0000 && forall i :: 0 <= i < |s.value| ==> s.value[i] != 0
  }

  const SPACE: byte := 32

  /** A member's name ends at the first space, unless that is its first character. */
  function MemberLen(member: seq<byte>): nat {
    FindSpace(member, 0)
  }

  function FindSpace(s: seq<byte>, from: nat): (n: nat)
    requires from <= |s|
    ensures n <= |s|
    decreases |s| - from
  {
    if from == |s| then 0 else if s[from] == SPACE then from else FindSpace(s, from + 1)
  }

  /** `n` is the name that `member` starts with: all of it, or what stands in front of its first space. */
  predicate IsName(n: seq<byte>, member: seq<byte>) {
    && n <= member
    && (member != [] && member[0] == 32 ==> n == member)
    && (member == [] || member[0] != 32 ==> 32 !in n && (n == member || member[|n|] == 32))
  }

  lemma {:induction false} SpaceIs(s: seq<byte>, from: nat)
    requires from <= |s|
    ensures 32 !in s[from..] ==> FindSpace(s, from) == 0
    ensures 32 in s[from..] ==>
      var n := FindSpace(s, from);
      from <= n < |s| && s[n] == 32 && 32 !in s[from..n]
    decreases |s| - from
  {
    if from < |s| && s[from] != SPACE {
      SpaceIs(s, from + 1);
      assert s[from..] == [s[from]] + s[from + 1..];
      if 32 in s[from..] {
        var n := FindSpace(s, from + 1);
        assert s[from..n] == [s[from]] + s[from + 1..n];
      }
    }
  }

  /** What is sent of a member is its name. */
  lemma NameSent(member: seq<byte>, n: seq<byte>)
    ensures IsName(n, member) <==> n == ArgData(ARG_STRING, false, MemberLen(member), member).StrVal()
  {
    SpaceIs(member, 0);
    hide MemberLen;
    var k := MemberLen(member);
    assert member[0..] == member && k == FindSpace(member, 0);
    if IsName(n, member) && member != [] && member[0] != 32 {
      if |n| < |member| {
        FirstSpace(member, k, |n|);
      } else {
        assert n == member;
      }
    }
  }

  lemma FirstSpace(s: seq<byte>, a: nat, b: nat)
    requires a < |s| && b < |s| && s[a] == s[b] == 32
    ensures a < b ==> 32 in s[..b]
    ensures b < a ==> 32 in s[..a]
  {
    if a < b {
      assert s[..b][a] == 32;
    } else if b < a {
      assert s[..a][b] == 32;
    }
  }

  function Text(t: byte, s: Option<seq<byte>>): Option<Value> {
    if s.None? then None else Some(Str(t, s.value))
  }

  /** The value of a field, or none if the message has none for it. */
  function FieldValue(msgType: byte, f: HdrFields, id: byte): Option<Value> {
    match id
    case 1 => if msgType == MSG_METHOD_CALL || msgType == MSG_SIGNAL then Text(ARG_OBJ_PATH, f.objPath) else None
    case 2 => Text(ARG_STRING, f.iface)
    case 3 =>
      if msgType == MSG_ERROR || f.member.None? then None
      else Some(Str(ARG_STRING, ArgData(ARG_STRING, false, MemberLen(f.member.value), f.member.value).StrVal()))
    case 4 => if msgType == MSG_ERROR then Text(ARG_STRING, f.error) else None
    case 5 => if msgType == MSG_METHOD_RET || msgType == MSG_ERROR then Some(Scalar(ARG_UINT32, U32(f.replySerial)))
      else None
    case 6 => Text(ARG_STRING, f.destination)
    case 7 => Text(ARG_STRING, f.sender)
    case 8 => Text(ARG_SIGNATURE, f.signature)
    case 0x13 => if f.sessionId != 0 then Some(Scalar(ARG_UINT32, U32(f.sessionId))) else None
    case _ => None
  }

  /** The field with id 3 is the member's name; errors have none. */
  lemma MemberField(msgType: byte, f: HdrFields)
    ensures var v := FieldValue(msgType, f, 3);
      if msgType == 3 || f.member.None? then v == None
      else v.Some? && v.value.Str? && v.value.t == 115 && IsName(v.value.s, f.member.value)
  {
    hide MemberLen;
    if f.member.Some? {
      NameSent(f.member.value, ArgData(ARG_STRING, false, MemberLen(f.member.value), f.member.value).StrVal());
    }
  }

  /** The fields a message has, from id `id` on, in order. */
  function FieldList(msgType: byte, f: HdrFields, id: nat): seq<Field>
    requires id <= 0x14
    decreases 0x14 - id
  {
    if id == 0x14 then []
    else
      var v := FieldValue(msgType, f, id);
      (if v.Some? then [Field(id, v.value)] else []) + FieldList(msgType, f, id + 1)
  }

  /** The whole header, its padding included. */
  function HeaderOctets(msgType: byte, flags: byte, bodyLen: nat, serial: nat, fs: seq<Field>): seq<byte> {
    var fields := FieldOctets(fs, HDR_SIZE);
    Fixed(msgType, flags, bodyLen, serial, |fields|) + fields + Zeros(HdrPad(|fields|))
  }

  /** AJ_MsgHeader. */
  function Fixed(msgType: byte, flags: byte, bodyLen: nat, serial: nat, headerLen: nat): (s: seq<byte>)
    ensures |s| == HDR_SIZE
  {
    [LITTLE_ENDIAN, msgType, Toggled(flags), 0] + U32(bodyLen) + U32(serial) + U32(headerLen)
  }

  /**
   A header in numbers: 'l', the type, the flags with one bit turned round, a zero, three numbers of which the
   last counts the octets of the fields, the fields, and zeros up to the next multiple of 8.
   */
  lemma HeaderLayout(msgType: byte, flags: byte, bodyLen: nat, serial: nat, fs: seq<Field>)
    requires bodyLen < 0x1_0000_0000 && serial < 0x1_0000_0000 && |FieldOctets(fs, 16)| < 0x1_0000_0000
    ensures var h := HeaderOctets(msgType, flags, bodyLen, serial, fs); var n := |FieldOctets(fs, 16)|;
      && 16 + n <= |h| < 16 + n + 8 && |h| % 8 == 0
      && h[..4] == [108, msgType, if flags % 4 < 2 then flags + 2 else flags - 2, 0]
      && ReadU32(h[4..8]) == bodyLen && ReadU32(h[8..12]) == serial && ReadU32(h[12..16]) == n
      && h[16..] == FieldOctets(fs, 16) + Zeros(|h| - 16 - n)
  {
    hide FieldOctets, U32, ReadU32, Toggled, HdrPad, Fixed;
    var n := |FieldOctets(fs, 16)|;
    ToggledIs(flags / 4, flags % 4);
    U32RoundTrip(bodyLen);
    U32RoundTrip(serial);
    U32RoundTrip(n);
    var fixed, rest := Fixed(msgType, flags, bodyLen, serial, n), FieldOctets(fs, 16) + Zeros(HdrPad(n));
    Assoc(fixed, FieldOctets(fs, 16), Zeros(HdrPad(n)));
    FixedParts(msgType, flags, bodyLen, serial, n, rest);
    HdrPadIs(n);
  }

  lemma HdrPadIs(n: nat)
    ensures (16 + n + HdrPad(n)) % 8 == 0
  {
    ModSum(n, HdrPad(n), 8);
  }

  lemma FixedParts(msgType: byte, flags: byte, bodyLen: nat, serial: nat, n: nat, rest: seq<byte>)
    ensures var h := Fixed(msgType, flags, bodyLen, serial, n) + rest;
      && h[..4] == [108, msgType, Toggled(flags), 0] && h[16..] == rest
      && h[4..8] == U32(bodyLen) && h[8..12] == U32(serial) && h[12..16] == U32(n)
  {
    hide U32, Toggled;
  }

  /** The argument MarshalMsg makes of a field; only a member's name is cut off. */
  function FieldArg(msgType: byte, f: HdrFields, id: byte): Option<ArgData> {
    if id == 3 && msgType != MSG_ERROR && f.member.Some? then
      Some(ArgData(ARG_STRING, false, MemberLen(f.member.value), f.member.value))
    else
      var v := FieldValue(msgType, f, id);
      if v.None? || !(v.value.Scalar? || v.value.Str?) then None else Some(MarshalClient.BasicArg(v.value))
  }

  /** The argument is written as the field's value. */
  lemma FieldArgIs(msgType: byte, f: HdrFields, id: byte, off: nat)
    requires f.Ok()
    ensures FieldArg(msgType, f, id).Some? <==> FieldValue(msgType, f, id).Some?
    ensures FieldValue(msgType, f, id).Some? ==>
      (var v, d := FieldValue(msgType, f, id).value, FieldArg(msgType, f, id).value;
       && Field(id, v).Ok() && d.Points() && d.typeId == v.t && d.Accepted([v.t]) && d.VarOffset() == 0
       && d.Octets([v.t], off) == Enc(v, off))
  {
    hide Enc, MemberLen;
    var v := FieldValue(msgType, f, id);
    if v.Some? {
      assert SigOf(v.value) == [v.value.t] && [v.value.t] + [] == [v.value.t];
      MarshalClient.BasicArgOctets(v.value, [v.value.t], [], off);
      if id == 3 {
        MemberOctets(f.member.value, v.value.s, off);
      }
    }
  }

  lemma MemberOctets(member: seq<byte>, name: seq<byte>, off: nat)
    requires |member| < 0x1_0000
    requires name == ArgData(ARG_STRING, false, MemberLen(member), member).StrVal()
    ensures var d := ArgData(ARG_STRING, false, MemberLen(member), member);
      d.Points()
        && d.Octets([ARG_STRING], off) == MarshalClient.BasicArg(Str(ARG_STRING, name)).Octets([ARG_STRING], off)
  {
    assert MarshalClient.BasicArg(Str(ARG_STRING, name)).StrVal() == name;
  }

  /** One field: what MarshalMsg writes for it, whatever the results, which it does not look at. */
  method WriteField(msg: Message, id: byte, d: ArgData, ghost v: Value)
    requires
      && Field(id, v).Ok() && msg.tx.InBounds() && msg.hdr && d.Points() && d.typeId == v.t
      && d.Accepted([v.t]) && d.VarOffset() == 0
    requires d.Octets([v.t], msg.tx.writePos + PadFor(STRUCT_OPEN, msg.tx.writePos) + 4)
          == Enc(v, msg.tx.writePos + PadFor(STRUCT_OPEN, msg.tx.writePos) + 4)
    modifies msg`varOffset, msg.tx`readPos, msg.tx`writePos, msg.tx`sent, msg.tx`sends, msg.tx`failed, msg.tx.data
    ensures msg.tx.InBounds() && old(msg.tx.writePos) <= msg.tx.writePos && msg.tx.sent == old(msg.tx.sent)
    ensures |Enc(Field(id, v).AsValue(), old(msg.tx.writePos))| <= old(msg.tx.Space()) ==>
              (msg.tx.Bytes() == old(msg.tx.Bytes()) + Enc(Field(id, v).AsValue(), old(msg.tx.writePos))
               && (old(msg.varOffset) == 0 ==> msg.varOffset == 0))
  {
    hide Enc, ArgData.Octets, ArgData.Accepted, ArgData.Consumed, ArgData.VarOffset, PadFor, Field.Ok;
    BasicOf(Field(id, v));
    FieldEnc(Field(id, v), msg.tx.writePos);
    ghost var b, p := msg.tx.Bytes(), PadFor(STRUCT_OPEN, msg.tx.writePos);
    var pad := PadFor(STRUCT_OPEN, msg.tx.writePos);
    var status := msg.tx.WriteBytes(true, FieldHead(id, d.typeId), pad);
    var arg := new Arg(d);
    var rest;
    status, rest := msg.Marshal([d.typeId], arg);
    if status == OK {
      Assoc(b, Zeros(p) + FieldHead(id, v.t), Enc(v, |b| + p + 4));
    }
  }

  lemma BasicOf(f: Field)
    requires f.Ok()
    ensures f.v.Scalar? || f.v.Str?
  {
  }

  /** The fields from one id on. */
  lemma ListStep(msgType: byte, f: HdrFields, id: byte, off: nat)
    requires f.Ok() && id < 0x14
    ensures var v := FieldValue(msgType, f, id); var rest := FieldList(msgType, f, id as nat + 1);
      FieldOctets(FieldList(msgType, f, id), off)
      == if v.None? then FieldOctets(rest, off)
         else Enc(Field(id, v.value).AsValue(), off) + FieldOctets(rest, off + |Enc(Field(id, v.value).AsValue(), off)|)
  {
    hide Enc, FieldOctets, FieldValue;
    var v := FieldValue(msgType, f, id);
    var rest := FieldList(msgType, f, id as nat + 1);
    if v.Some? {
      assert ([Field(id, v.value)] + rest)[1..] == rest;
      FieldsHead([Field(id, v.value)] + rest, off);
    } else {
      assert [] + rest == rest;
    }
  }

  /**
   MarshalMsg, once the message has been initialised: if the header fits the buffer, the buffer
   holds exactly the header, padded, with a body length still to be set.
   */
  method MarshalMsg(tx: IoBuffer, msgType: byte, flags: byte, serial: nat, f: HdrFields)
    returns (status: Status, msg: Message)
    requires tx.InBounds() && tx.data.Length >= HDR_SIZE && f.Ok()
    modifies tx, tx.data
    ensures fresh(msg) && msg.tx == tx && tx.InBounds() && tx.sent == old(tx.sent)
    ensures |HeaderOctets(msgType, flags, 0, serial, FieldList(msgType, f, 1))| <= tx.data.Length ==>
              (status == OK && msg.ValidTx()
                && tx.Bytes() == HeaderOctets(msgType, flags, 0, serial, FieldList(msgType, f, 1))
               && msg.signature == (if f.signature.Some? then f.signature.value else [])
               && msg.sigOffset == 0 && msg.varOffset == 0 && msg.bodyBytes == 0 && msg.outer == null
               && msg.bodyStart == tx.writePos)
  {
    hide FieldOctets, FieldList, Fixed, HdrPad, U32, HdrFields.Ok, CStr, KindOf;
    SignatureFits(f);
    tx.Reset();
    tx.Append(Fixed(msgType, flags, 0, serial, 0));
    msg := new Message(tx, if f.signature.Some? then f.signature.value else []);
    ghost var fields := FieldOctets(FieldList(msgType, f, 1), HDR_SIZE);
    WriteFields(msg, msgType, f);
    var headerLen := tx.writePos - HDR_SIZE;
    ghost var b := tx.Bytes();
    msg.Patch(12, U32(headerLen));
    FixedPatched(msgType, flags, 0, serial, headerLen, fields, b, tx.Bytes());
    status := msg.WritePad(HdrPad(headerLen));
    msg.bodyStart := tx.writePos;
  }

  lemma SignatureFits(f: HdrFields)
    requires f.Ok()
    ensures f.signature.Some? ==> |f.signature.value| < 256
  {
  }

  /** The loop over the field ids. */
  method WriteFields(msg: Message, msgType: byte, f: HdrFields)
    requires msg.tx.InBounds() && msg.hdr && f.Ok() && msg.varOffset == 0
    modifies msg`varOffset, msg.tx`readPos, msg.tx`writePos, msg.tx`sent, msg.tx`sends, msg.tx`failed, msg.tx.data
    ensures msg.tx.InBounds() && old(msg.tx.writePos) <= msg.tx.writePos && msg.tx.sent == old(msg.tx.sent)
    ensures |FieldOctets(FieldList(msgType, f, 1), old(msg.tx.writePos))| <= old(msg.tx.Space()) ==>
              (msg.tx.Bytes() == old(msg.tx.Bytes()) + FieldOctets(FieldList(msgType, f, 1), old(msg.tx.writePos))
                && msg.varOffset == 0)
  {
    hide FieldOctets, FieldList, FieldValue, FieldArg, Enc, ArgData.Octets, ArgData.Accepted, ArgData.Points,
         ArgData.VarOffset, Field.Ok;
    ghost var fields := FieldOctets(FieldList(msgType, f, 1), msg.tx.writePos);
    ghost var fits := |fields| <= msg.tx.Space();
    for fieldId := 1 to 0x14
      invariant msg.tx.InBounds() && old(msg.tx.writePos) <= msg.tx.writePos && msg.tx.sent == old(msg.tx.sent)
      invariant fits ==>
                  (msg.tx.Bytes() + FieldOctets(FieldList(msgType, f, fieldId), msg.tx.writePos)
                    == old(msg.tx.Bytes()) + fields && msg.varOffset == 0)
    {
      ghost var w := msg.tx.writePos;
      ListStep(msgType, f, fieldId, w);
      FieldArgIs(msgType, f, fieldId, w + PadFor(STRUCT_OPEN, w) + 4);
      var d := FieldArg(msgType, f, fieldId);
      if d.Some? {
        ghost var v := FieldValue(msgType, f, fieldId).value;
        Assoc(msg.tx.Bytes(), Enc(Field(fieldId, v).AsValue(), w),
          FieldOctets(FieldList(msgType, f, fieldId as nat + 1), w + |Enc(Field(fieldId, v).AsValue(), w)|));
        WriteField(msg, fieldId, d.value, v);
      }
    }
    NoFields(msgType, f, msg.tx.writePos);
  }

  lemma NoFields(msgType: byte, f: HdrFields, off: nat)
    ensures FieldOctets(FieldList(msgType, f, 0x14), off) == []
  {
  }

  lemma FixedPatched(msgType: byte, flags: byte, bodyLen: nat, serial: nat, headerLen: nat, fields: seq<byte>,
                     b: seq<byte>, b': seq<byte>)
    requires |b| >= HDR_SIZE && b' == b[..12] + U32(headerLen) + b[16..]
    ensures b == Fixed(msgType, flags, bodyLen, serial, 0) + fields ==>
      b' == Fixed(msgType, flags, bodyLen, serial, headerLen) + fields
  {
    hide U32;
    if b == Fixed(msgType, flags, bodyLen, serial, 0) + fields {
      assert b[..12] == [LITTLE_ENDIAN, msgType, Toggled(flags), 0] + U32(bodyLen) + U32(serial);
      assert b[16..] == fields;
    }
  }
}
