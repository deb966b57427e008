/**
 Argument-level unmarshaling: AJ_UnmarshalArg, AJ_UnmarshalContainer,
 AJ_UnmarshalCloseContainer, AJ_UnmarshalVariant and AJ_SkipArg, for messages in the host's
 byte order.  `ParseArg` says, on octets alone, what one argument is; the methods are measured
 against it whatever way recv hands the octets over.
 */
module Unmarshaling {
  import opened Common
  import opened Wire
  import opened IoBuf
  import opened Args

  // ---- What one argument is ----

  /**
   One argument found at some offset: the offset behind it, how far the buffer must be filled
   for it, and what AJ_Arg and the signature pointer become.
   */
  datatype Parsed = Parsed(end: nat, loaded: nat, d: ArgData, pos: nat, inner: seq<byte>, used: nat)

  function Slice(r: seq<byte>, from: nat, to: nat): (s: seq<byte>) {
    if from <= to <= |r| then r[from..to] else []
  }

  /** The length field at `at`: one octet for signatures, four for everything else. */
  function LenAt(t: byte, r: seq<byte>, at: nat): (n: nat)
    ensures n < 0x1_0000_0000
    requires at + LenSize(t) <= |r|
  {
    if AlignOf(t) == 4 then ReadU32(r[at..at + 4]) else r[at]
  }

  function LenSize(t: byte): nat {
    if AlignOf(t) == 4 then 4 else 1
  }

  function ParseScalar(t: byte, r: seq<byte>, at: nat): (p: Option<Parsed>)
    requires KindOf(t).ScalarKind?
    ensures p.Some? ==> p.value.d.typeId == t && p.value.used == 1
  {
    var start := at + PadFor(t, at);
    var end := start + ScalarSize(t);
    if end > |r| then None else Some(Parsed(end, end, ArgData(t, false, 0, r[start..end]), start, [], 1))
  }

  function ParseString(t: byte, r: seq<byte>, at: nat): (p: Option<Parsed>)
    requires KindOf(t).StringKind? || KindOf(t).VariantKind?
    ensures p.Some? ==> p.value.d.typeId == t && p.value.used == 1 && p.value.d.len < p.value.end
  {
    var lenAt := at + PadFor(t, at);
    var start := lenAt + LenSize(t);
    if start > |r| then None else
      var n := LenAt(t, r, lenAt);
      if n + 1 >= 0x1_0000 || start + n + 1 > |r| then None
      else Some(Parsed(start + n + 1, start + n + 1, ArgData(t, false, n, r[start..start + n]), start, [], 1))
  }

  function ParseArray(elemSig: seq<byte>, asElements: bool, r: seq<byte>, at: nat): (p: Option<Parsed>)
    ensures p.Some? ==> p.value.d.typeId != ARG_VARIANT && p.value.used == 1 + CompleteTypeSigLen(elemSig)
  {
    var lenAt := at + PadFor(ARG_ARRAY, at);
    if lenAt + 4 > |r| || elemSig == [] || KindOf(elemSig[0]) == NoKind then None else
      var n := LenAt(ARG_ARRAY, r, lenAt);
      var q := ElemPad(elemSig, lenAt + 4);
      var start := lenAt + 4 + q;
      if n + q >= 0x1_0000 || start + n > |r| then None
      else if !asElements && KindOf(elemSig[0]).ScalarKind? then
        Some(Parsed(start + n, start + n, ArgData(elemSig[0], true, n, r[start..start + n]),
          start, elemSig, 1 + CompleteTypeSigLen(elemSig)))
      else
        Some(Parsed(start, start + n, ArgData(ARG_ARRAY, false, n, []), start, elemSig, 1
          + CompleteTypeSigLen(elemSig)))
  }

  function ParseStruct(sig: seq<byte>, r: seq<byte>, at: nat): (p: Option<Parsed>)
    requires sig != [] && IsOpen(sig[0])
    ensures p.Some? ==> p.value.d.typeId == sig[0] && p.value.used == CompleteTypeSigLen(sig)
  {
    var start := at + PadFor(sig[0], at);
    if start > |r| then None
    else Some(Parsed(start, start, ArgData(sig[0], false, 0, []), start, sig[1..], CompleteTypeSigLen(sig)))
  }

  /** A length that does not fit the 16 bits in which what is to be loaded is counted. */
  predicate LongString(t: byte, r: seq<byte>, at: nat) {
    var lenAt := at + PadFor(t, at);
    lenAt + LenSize(t) <= |r| && LenAt(t, r, lenAt) + 1 >= 0x1_0000
  }

  predicate LongArray(elemSig: seq<byte>, r: seq<byte>, at: nat) {
    var lenAt := at + PadFor(ARG_ARRAY, at);
    && lenAt + 4 <= |r|
    && (elemSig == [] || KindOf(elemSig[0]) == NoKind
        || LenAt(ARG_ARRAY, r, lenAt) + ElemPad(elemSig, lenAt + 4) >= 0x1_0000)
  }

  /** What is taken for an argument although the parser finds none: only such lengths, or an array of nothing. */
  predicate Overlong(sig: seq<byte>, r: seq<byte>, at: nat) {
    && sig != []
    && if sig[0] == ARG_ARRAY then LongArray(sig[1..], r, at)
       else (KindOf(sig[0]).StringKind? || KindOf(sig[0]).VariantKind?) && LongString(sig[0], r, at)
  }

  /** The first argument of signature `sig` in the octets `r` at offset `at`. */
  function ParseArg(sig: seq<byte>, asElements: bool, r: seq<byte>, at: nat): (p: Option<Parsed>)
    ensures p.Some? && p.value.d.typeId == ARG_VARIANT ==> p.value.d.len < p.value.end
    ensures p.Some? ==> at <= p.value.end
  {
    if sig == [] then None else
      match KindOf(sig[0])
      case ScalarKind => ParseScalar(sig[0], r, at)
      case StringKind => ParseString(sig[0], r, at)
      case VariantKind => ParseString(sig[0], r, at)
      case ContainerKind =>
        if sig[0] == ARG_ARRAY then ParseArray(sig[1..], asElements, r, at) else ParseStruct(sig, r, at)
      case NoKind => None
  }

  lemma DropTwice(sig: seq<byte>, n: nat)
    requires sig != []
    ensures Drop(sig[1..], n) == Drop(sig, 1 + n)
  {
  }

  lemma ParsedUsed(sig: seq<byte>, asElements: bool, r: seq<byte>, at: nat)
    ensures ParseArg(sig, asElements, r, at).Some? ==> ParseArg(sig, asElements, r, at).value.used <= |sig|
  {
    SigLenBound(sig);
    if sig != [] {
      SigLenBound(sig[1..]);
    }
  }

  lemma NotVariant(t: byte)
    requires t in {40, 97, 123}
    ensures KindOf(t).ContainerKind? && t != ARG_VARIANT
  {
  }

  // ---- The code ----

  /** AJ_MsgHeader. */
  datatype Header = Header(endian: byte, msgType: byte, flags: byte, version: byte, bodyLen: nat,
    serial: nat, headerLen: nat)

  /** Two unions of AJ_Message: an object path or a reply serial, a member or an error name. */
  datatype PathOrSerial = NoPath | ObjPath(path: seq<byte>) | ReplySerial(serial: nat)

  /** What the header fields say. */
  datatype Fields = Fields(pathOrSerial: PathOrSerial, memberOrError: Option<seq<byte>>, iface: Option<seq<byte>>,
                           sender: Option<seq<byte>>, destination: Option<seq<byte>>, sessionId: nat)

  const NO_FIELDS := Fields(NoPath, None, None, None, None, 0)

  /** The half of AJ_Message that unmarshaling uses. */
  class Message {
    const rx: IoBuffer
    /** msg->bus is set: the message has not been closed. */
    var open: bool
    var hdr: Option<Header>
    var fields: Fields
    var signature: seq<byte>
    var sigOffset: nat
    var varOffset: nat
    var bodyBytes: nat
    var outer: Arg?
    /** The static flag that makes scalar arrays be unmarshaled element by element. */
    var scalarAsElement: bool

    constructor (rx: IoBuffer, signature: seq<byte>, bodyBytes: nat)
      ensures this.rx == rx && this.signature == signature && this.bodyBytes == bodyBytes
      ensures sigOffset == varOffset == 0 && outer == null && !scalarAsElement
    {
      this.rx, this.signature, this.bodyBytes := rx, signature, bodyBytes;
      open, hdr, fields := true, None, NO_FIELDS;
      sigOffset, varOffset, outer, scalarAsElement := 0, 0, null, false;
    }

    ghost predicate ValidRx()
      reads this, rx
    {
      && rx.Valid()
      && |signature| < 256 && sigOffset <= |signature|
      && varOffset < 256 && varOffset <= rx.readPos
      && bodyBytes < 0x1_0000
    }

    ghost function OuterSet(): set<Arg>
      reads this
    {
      if outer == null then {} else {outer}
    }

    /** AJ_NextArgSig. */
    function NextArgSig(): seq<byte>
      requires ValidRx()
      reads this, rx, rx.data, outer
    {
      if varOffset != 0 then CStr(rx.data[..rx.writePos], rx.readPos - varOffset)
      else if outer != null then outer.sigPtr
      else signature[sigOffset..]
    }

    /** The `n` octets at the read position; what lies beyond the buffer is not modelled. */
    method Take(n: nat) returns (s: seq<byte>)
      requires rx.InBounds()
      modifies rx`readPos
      ensures rx.readPos == old(rx.readPos) + n
      ensures s == Slice(rx.data[..rx.writePos], old(rx.readPos), old(rx.readPos) + n)
      ensures old(rx.readPos) + n <= rx.writePos ==> s == rx.Received()[old(rx.readPos)..old(rx.readPos) + n]
    {
      s := Slice(rx.data[..rx.writePos], rx.readPos, rx.readPos + n);
      rx.readPos := rx.readPos + n;
    }

    /** Unmarshal, for scalars. */
    method UnmarshalScalar(t: byte, ghost r: seq<byte>) returns (status: Status, d: ArgData)
      requires rx.Valid() && KindOf(t).ScalarKind? && r == rx.Received()
      modifies rx, rx.data
      ensures rx.InBounds() && r == rx.Received() && old(rx.writePos) <= rx.writePos && old(rx.readPos) <= rx.readPos
      ensures old(rx.failed) ==> rx.failed
      ensures status == OK ==> rx.Valid()
      ensures var p := ParseScalar(t, r, old(rx.readPos));
        && (p.Some? && p.value.loaded <= rx.data.Length ==> status == OK || rx.failed)
        && (status == OK ==> p.Some? && rx.readPos == p.value.end && d == p.value.d)
    {
      var at := rx.readPos;
      d := ArgData(ARG_INVALID, false, 0, []);
      status := rx.LoadBytes(ScalarSize(t), PadFor(t, rx.readPos));
      if status == OK {
        var val := Take(ScalarSize(t));
        d := ArgData(t, false, 0, val);
      }
    }

    /** A padded length field. */
    method ReadLength(t: byte, ghost r: seq<byte>) returns (status: Status, n: nat)
      requires rx.Valid() && r == rx.Received() && (AlignOf(t) == 1 || AlignOf(t) == 4)
      modifies rx, rx.data
      ensures rx.InBounds() && r == rx.Received() && old(rx.writePos) <= rx.writePos && old(rx.readPos) <= rx.readPos
      ensures old(rx.failed) ==> rx.failed
      ensures var at := old(rx.readPos) + PadFor(t, old(rx.readPos));
        && (at + LenSize(t) <= rx.data.Length ==> status == OK || rx.failed)
        && (status == OK ==>
             rx.Valid() && at + LenSize(t) <= |r| && n == LenAt(t, r, at) && rx.readPos == at + LenSize(t))
    {
      hide PadFor, ReadU32;
      n := 0;
      status := rx.LoadBytes(LenSize(t), PadFor(t, rx.readPos) % 0x100);
      if status == OK {
        var field := Take(LenSize(t));
        n := if LenSize(t) == 4 then ReadU32(field) else field[0];
      }
    }

    /** Unmarshal, for strings and for the signature in front of a variant. */
    method UnmarshalString(t: byte, ghost r: seq<byte>) returns (status: Status, d: ArgData)
      requires rx.Valid() && r == rx.Received()
      requires KindOf(t).StringKind? || KindOf(t).VariantKind?
      modifies this`varOffset, rx, rx.data
      ensures rx.InBounds() && r == rx.Received() && old(rx.writePos) <= rx.writePos && old(rx.readPos) <= rx.readPos
      ensures old(rx.failed) ==> rx.failed
      ensures varOffset == old(varOffset) || (t == ARG_VARIANT && varOffset < 256)
      ensures var p := ParseString(t, r, old(rx.readPos));
        && (p.Some? && p.value.loaded <= rx.data.Length ==> status == OK || rx.failed)
        && (status == OK ==> p.Some? || LongString(t, r, old(rx.readPos)))
        && (status == OK && p.Some? ==> rx.Valid() && rx.readPos == p.value.end && d == p.value.d)
        && (status == OK && p.Some? && t == ARG_VARIANT ==> varOffset == (p.value.d.len + 1) % 256)
    {
      hide LenAt, PadFor, ReadU32;
      d := ArgData(ARG_INVALID, false, 0, []);
      ghost var lenAt := rx.readPos + PadFor(t, rx.readPos);
      var sz;
      status, sz := ReadLength(t, r);
      if status != OK {
        return;
      }
      assert sz == LenAt(t, r, lenAt) && rx.readPos == lenAt + LenSize(t);
      var val;
      status, val := TakeString(sz, r);
      if status != OK {
        return;
      }
      d := ArgData(t, false, sz % 0x1_0000, val);
      if t == ARG_VARIANT {
        varOffset := (sz + 1) % 256;
      }
    }

    /** The octets of a string and the NUL behind them; the size is 32 bits wide, what is loaded 16. */
    method TakeString(sz: nat, ghost r: seq<byte>) returns (status: Status, val: seq<byte>)
      requires rx.Valid() && r == rx.Received() && sz < 0x1_0000_0000
      modifies rx, rx.data
      ensures rx.InBounds() && r == rx.Received() && old(rx.writePos) <= rx.writePos && old(rx.readPos) <= rx.readPos
      ensures old(rx.failed) ==> rx.failed
      ensures sz + 1 < 0x1_0000 && old(rx.readPos) + sz + 1 <= rx.data.Length ==> status == OK || rx.failed
      ensures sz + 1 < 0x1_0000 && status == OK ==> rx.Valid() && rx.readPos == old(rx.readPos) + sz + 1 <= |r|
      ensures sz + 1 < 0x1_0000 && status == OK ==> val == r[old(rx.readPos)..old(rx.readPos) + sz]
    {
      val := [];
      var size1 := (sz + 1) % 0x1_0000_0000;
      status := rx.LoadBytes(size1 % 0x1_0000, 0);
      if status == OK {
        val := Slice(rx.data[..rx.writePos], rx.readPos, rx.readPos + sz);
        rx.readPos := rx.readPos + size1;
      }
    }

    /** Loads all of an array's elements; a flat array's are consumed as well. */
    method LoadElements(numBytes: nat, pad: nat, flat: bool, ghost r: seq<byte>)
      returns (status: Status, pos: nat, val: seq<byte>)
      requires rx.Valid() && r == rx.Received() && pad < 0x100
      modifies rx, rx.data
      ensures rx.InBounds() && r == rx.Received() && old(rx.writePos) <= rx.writePos && old(rx.readPos) <= rx.readPos
      ensures old(rx.failed) ==> rx.failed
      ensures numBytes + pad < 0x1_0000 && old(rx.readPos) + pad + numBytes <= rx.data.Length ==>
        status == OK || rx.failed
      ensures numBytes + pad < 0x1_0000 && status == OK ==>
        rx.Valid() && pos == old(rx.readPos) + pad && pos + numBytes <= |r|
      ensures numBytes + pad < 0x1_0000 && status == OK ==> rx.readPos == if flat then pos + numBytes else pos
      ensures numBytes + pad < 0x1_0000 && status == OK && flat ==> val == r[pos..pos + numBytes]
    {
      val := [];
      status := rx.LoadBytes(numBytes % 0x1_0000, pad);
      pos := rx.readPos;
      if status == OK && flat {
        val := Take(numBytes);
      }
    }

    /** UnmarshalArray. */
    method UnmarshalArray(sig: seq<byte>, arg: Arg, ghost r: seq<byte>) returns (status: Status, rest: seq<byte>)
      requires rx.Valid() && r == rx.Received()
      modifies arg, rx, rx.data
      ensures rx.InBounds() && r == rx.Received() && old(rx.writePos) <= rx.writePos && old(rx.readPos) <= rx.readPos
      ensures old(rx.failed) ==> rx.failed
      ensures arg.container == old(arg.container)
      ensures |rest| <= |sig|
      ensures var p := ParseArray(sig, scalarAsElement, r, old(rx.readPos));
        && (p.Some? && p.value.loaded <= rx.data.Length ==> status == OK || rx.failed)
        && (status == OK ==> p.Some? || LongArray(sig, r, old(rx.readPos)))
        && (status == OK && p.Some? ==> rx.Valid() && rx.readPos == p.value.end && arg.d == p.value.d)
        && (status == OK && p.Some? ==> arg.pos == p.value.pos && arg.sigPtr == p.value.inner)
        && (status == OK && p.Some? ==> rest == Drop(sig, p.value.used - 1))
    {
      hide LenAt, PadFor, ReadU32, CompleteTypeSigLen;
      rest := sig;
      var numBytes;
      status, numBytes := ReadLength(ARG_ARRAY, r);
      if status != OK {
        return;
      }
      var elem := if sig == [] then ARG_INVALID else sig[0];
      status := ReadElements(sig, elem, numBytes, arg, r);
      SigLenBound(sig);
      rest := sig[CompleteTypeSigLen(sig)..];
    }

    /** The elements of an array whose length has been read. */
    method ReadElements(sig: seq<byte>, elem: byte, numBytes: nat, arg: Arg, ghost r: seq<byte>)
      returns (status: Status)
      requires rx.Valid() && r == rx.Received() && elem == (if sig == [] then ARG_INVALID else sig[0])
      modifies arg, rx, rx.data
      ensures rx.InBounds() && r == rx.Received() && old(rx.writePos) <= rx.writePos && old(rx.readPos) <= rx.readPos
      ensures old(rx.failed) ==> rx.failed
      ensures arg.container == old(arg.container)
      ensures var q := PadFor(elem, old(rx.readPos)); var start := old(rx.readPos) + q;
        var flat := !scalarAsElement && KindOf(elem).ScalarKind?;
        KindOf(elem) != NoKind && numBytes + q < 0x1_0000 ==>
        && (start + numBytes <= rx.data.Length ==> status == OK || rx.failed)
        && (status == OK ==> rx.Valid() && start + numBytes <= |r| && arg.pos == start && arg.sigPtr == sig)
        && (status == OK ==> rx.readPos == if flat then start + numBytes else start)
        && (status == OK ==>
             arg.d == if flat then ArgData(elem, true, numBytes, r[start..start + numBytes])
             else ArgData(ARG_ARRAY, false, numBytes, []))
    {
      hide PadFor;
      var flat := !scalarAsElement && KindOf(elem).ScalarKind?;
      var pos, val;
      status, pos, val := LoadElements(numBytes, PadFor(elem, rx.readPos) % 0x100, flat, r);
      if status == OK {
        arg.pos, arg.sigPtr := pos, sig;
        arg.d := if flat then ArgData(elem, true, numBytes % 0x1_0000, val)
          else ArgData(ARG_ARRAY, false, numBytes % 0x1_0000, []);
      }
    }

    /** UnmarshalStruct: the padding in front of a struct or a dictionary entry. */
    method UnmarshalStruct(sig: seq<byte>, arg: Arg, ghost r: seq<byte>) returns (status: Status, rest: seq<byte>)
      requires rx.Valid() && r == rx.Received() && sig != [] && IsOpen(sig[0])
      modifies arg, rx, rx.data
      ensures rx.InBounds() && r == rx.Received() && old(rx.writePos) <= rx.writePos && old(rx.readPos) <= rx.readPos
      ensures old(rx.failed) ==> rx.failed
      ensures arg.container == old(arg.container)
      ensures |rest| <= |sig| && rest == Drop(sig, CompleteTypeSigLen(sig))
      ensures status == OK ==> rx.Valid()
      ensures var p := ParseStruct(sig, r, old(rx.readPos));
        && (p.Some? && p.value.loaded <= rx.data.Length ==> status == OK || rx.failed)
        && (status == OK ==> p.Some? && rx.readPos == p.value.end && arg.d == p.value.d)
        && (status == OK ==> arg.pos == p.value.pos && arg.sigPtr == p.value.inner)
    {
      status := rx.LoadBytes(0, PadFor(sig[0], rx.readPos));
      arg.d := ArgData(sig[0], false, 0, []);
      arg.pos := rx.readPos;
      arg.sigPtr := sig[1..];
      SigLenBound(sig);
      rest := sig[CompleteTypeSigLen(sig)..];
    }

    /** Unmarshal. */
    method Unmarshal(sig: seq<byte>, arg: Arg, ghost r: seq<byte>) returns (status: Status, rest: seq<byte>)
      requires rx.Valid() && r == rx.Received()
      modifies this`varOffset, arg, rx, rx.data
      ensures rx.InBounds() && r == rx.Received() && old(rx.writePos) <= rx.writePos && old(rx.readPos) <= rx.readPos
      ensures old(rx.failed) ==> rx.failed
      ensures |rest| <= |sig|
      ensures varOffset == old(varOffset) || varOffset < 256
      ensures sig == [] ==> status == ErrEndOfData
      ensures arg.container == null
      ensures var p := ParseArg(sig, scalarAsElement, r, old(rx.readPos));
        && (p.Some? && p.value.loaded <= rx.data.Length ==> status == OK || rx.failed)
        && (status == OK ==> p.Some? || Overlong(sig, r, old(rx.readPos)))
        && (status == OK && p.Some? ==> rx.Valid() && rx.readPos == p.value.end && arg.d == p.value.d)
        && (status == OK && p.Some? && KindOf(arg.d.typeId).ContainerKind? ==>
             arg.pos == p.value.pos && arg.sigPtr == p.value.inner)
        && (status == OK && p.Some? ==> rest == Drop(sig, p.value.used))
        && (status == OK && p.Some? ==>
             varOffset == if arg.d.typeId == ARG_VARIANT then (arg.d.len + 1) % 256 else old(varOffset))
    {
      hide ParseScalar, ParseString, ParseArray, ParseStruct, Scan, CompleteTypeSigLen, LongString, LongArray;
      arg.d, arg.pos, arg.sigPtr, arg.container := ArgData(ARG_INVALID, false, 0, []), 0, [], null;
      if sig == [] {
        return ErrEndOfData, sig;
      }
      var t := sig[0];
      rest := sig[1..];
      var d;
      match KindOf(t) {
        case ScalarKind =>
          status, d := UnmarshalScalar(t, r);
          arg.d := d;
        case StringKind =>
          status, d := UnmarshalString(t, r);
          arg.d := d;
        case VariantKind =>
          status, d := UnmarshalString(t, r);
          arg.d := d;
        case ContainerKind =>
          if t == ARG_ARRAY {
            status, rest := UnmarshalArray(rest, arg, r);
            DropTwice(sig, CompleteTypeSigLen(sig[1..]));
          } else {
            status, rest := UnmarshalStruct(sig, arg, r);
          }
        case NoKind =>
          status := ErrUnmarshal;
      }
    }

    /** All elements of the innermost container, an array, have been unmarshaled. */
    predicate AtEnd()
      reads this, rx, outer
    {
      varOffset == 0 && outer != null && outer.d.typeId == ARG_ARRAY
        && (rx.readPos - outer.pos) % 0x1_0000 == outer.d.len
    }

    /** The signature arguments are read against has moved on by `n` octets; `o` was the innermost container. */
    twostate predicate Moved(o: Arg?, n: nat)
      reads this, o
    {
      && signature == old(signature) && scalarAsElement == old(scalarAsElement) && hdr == old(hdr) && open == old(open)
      && sigOffset == old(sigOffset) + (if old(varOffset) == 0 && o == null then n else 0)
      && (o != null ==>
            o.sigPtr == if old(varOffset) == 0 && o.d.typeId != ARG_ARRAY then Drop(old(o.sigPtr), n)
              else old(o.sigPtr))
    }

    /** As Moved, the innermost container having stayed the same. */
    twostate predicate SigMoved(n: nat)
      reads this, outer
    {
      outer == old(outer) && Moved(outer, n)
    }

    /** Only a struct's or the message's own signature moves on; all elements of an array share theirs. */
    method AdvanceRx(rest: seq<byte>)
      requires outer == null ==> |rest| <= |signature| < 256
      modifies this`sigOffset, OuterSet()`sigPtr
      ensures outer == null ==> sigOffset == |signature| - |rest|
      ensures outer != null ==> sigOffset == old(sigOffset)
      ensures outer != null ==> outer.sigPtr == if outer.d.typeId != ARG_ARRAY then rest else old(outer.sigPtr)
    {
      if outer != null {
        if outer.d.typeId != ARG_ARRAY {
          outer.sigPtr := rest;
        }
      } else {
        sigOffset := (|signature| - |rest|) % 256;
      }
    }

    /** AJ_UnmarshalArg. */
    method UnmarshalArg(arg: Arg, ghost sig: seq<byte>, ghost r: seq<byte>) returns (status: Status)
      requires ValidRx() && arg != outer && sig == NextArgSig() && r == rx.Received()
      modifies this`varOffset, this`sigOffset, this`bodyBytes, arg, OuterSet()`sigPtr, rx, rx.data
      ensures rx.InBounds() && r == rx.Received() && (old(rx.failed) ==> rx.failed)
      ensures status == OK ==>
        old(rx.readPos) <= rx.readPos && bodyBytes == old(bodyBytes) - (rx.readPos - old(rx.readPos))
      ensures sig == [] ==> status != OK
      ensures old(AtEnd()) ==>
        && status == ErrNoMore && arg.d == ArgData(ARG_INVALID, false, 0, []) && arg.sigPtr == []
        && ValidRx() && rx.readPos == old(rx.readPos)
        && bodyBytes == old(bodyBytes) && SigMoved(0) && varOffset == 0
      ensures status == OK && ParseArg(sig, scalarAsElement, r, old(rx.readPos)).None? ==>
        Overlong(sig, r, old(rx.readPos))
      ensures var p := ParseArg(sig, scalarAsElement, r, old(rx.readPos)); p.Some? && !old(AtEnd()) ==>
        && (p.value.loaded <= rx.data.Length && p.value.end - old(rx.readPos) <= old(bodyBytes) ==>
             status == OK || rx.failed)
        && (status == OK ==>
             ValidRx() && rx.readPos == p.value.end && bodyBytes == old(bodyBytes) - (p.value.end - old(rx.readPos)))
        && (status == OK ==> arg.d == p.value.d && SigMoved(p.value.used))
        && (status == OK ==> varOffset == if arg.d.typeId == ARG_VARIANT then (arg.d.len + 1) % 256 else 0)
        && (status == OK && KindOf(arg.d.typeId).ContainerKind? ==>
             arg.pos == p.value.pos && arg.sigPtr == p.value.inner)
    {
      hide ParseArg, CStr, KindOf, Drop, Overlong;
      if AtEnd() {
        arg.d, arg.pos, arg.sigPtr, arg.container := ArgData(ARG_INVALID, false, 0, []), 0, [], null;
        return ErrNoMore;
      }
      status := UnmarshalNext(arg, sig, r);
    }

    /** AJ_UnmarshalArg when there is a next argument. */
    method UnmarshalNext(arg: Arg, ghost sig: seq<byte>, ghost r: seq<byte>) returns (status: Status)
      requires ValidRx() && arg != outer && sig == NextArgSig() && r == rx.Received()
      modifies this`varOffset, this`sigOffset, this`bodyBytes, arg, OuterSet()`sigPtr, rx, rx.data
      ensures rx.InBounds() && r == rx.Received() && (old(rx.failed) ==> rx.failed)
      ensures status == OK ==>
        old(rx.readPos) <= rx.readPos && bodyBytes == old(bodyBytes) - (rx.readPos - old(rx.readPos))
      ensures sig == [] ==> status != OK
      ensures status == OK && ParseArg(sig, scalarAsElement, r, old(rx.readPos)).None? ==>
        Overlong(sig, r, old(rx.readPos))
      ensures var p := ParseArg(sig, scalarAsElement, r, old(rx.readPos)); p.Some? ==>
        && (p.value.loaded <= rx.data.Length && p.value.end - old(rx.readPos) <= old(bodyBytes) ==>
             status == OK || rx.failed)
        && (status == OK ==>
             ValidRx() && rx.readPos == p.value.end && bodyBytes == old(bodyBytes) - (p.value.end - old(rx.readPos)))
        && (status == OK ==> arg.d == p.value.d && SigMoved(p.value.used))
        && (status == OK ==> varOffset == if arg.d.typeId == ARG_VARIANT then (arg.d.len + 1) % 256 else 0)
        && (status == OK && KindOf(arg.d.typeId).ContainerKind? ==>
             arg.pos == p.value.pos && arg.sigPtr == p.value.inner)
    {
      hide ParseArg, CStr, KindOf, Scan, PadTo, Overlong, IoBuffer.Received, CompleteTypeSigLen;
      ParsedUsed(sig, scalarAsElement, r, rx.readPos);
      var argStart := rx.readPos;
      var argSig := NextArgSig();
      var ofVariant := varOffset != 0;
      varOffset := 0;
      var rest;
      status, rest := Unmarshal(argSig, arg, r);
      if !ofVariant {
        AdvanceRx(rest);
      }
      var charged := Charge(rx.readPos - argStart);
      if !charged {
        status := ErrRead;
      }
    }

    /** Takes what an argument consumed off the body, if the body has that much left. */
    method Charge(consumed: nat) returns (ok: bool)
      requires bodyBytes < 0x1_0000
      modifies this`bodyBytes
      ensures ok <==> consumed <= old(bodyBytes)
      ensures bodyBytes == if ok then old(bodyBytes) - consumed else old(bodyBytes)
    {
      ok := consumed <= bodyBytes;
      if ok {
        bodyBytes := bodyBytes - consumed % 0x1_0000;
      }
    }

    /** AJ_UnmarshalContainer. */
    method UnmarshalContainer(arg: Arg, typeId: byte, ghost sig: seq<byte>, ghost r: seq<byte>) returns (status: Status)
      requires ValidRx() && arg != outer && sig == NextArgSig() && r == rx.Received()
      requires typeId in {40, 97, 123} && !scalarAsElement
      modifies this, arg, OuterSet()`sigPtr, rx, rx.data
      ensures rx.InBounds() && r == rx.Received() && (old(rx.failed) ==> rx.failed)
      ensures if status == OK then arg.d.typeId == typeId && outer == arg else outer == old(outer)
      ensures old(AtEnd()) ==> status == ErrNoMore && ValidRx()
      ensures old(AtEnd()) ==>
        && rx.readPos == old(rx.readPos) && bodyBytes == old(bodyBytes) && SigMoved(0)
        && varOffset == 0
      ensures var p := ParseArg(sig, true, r, old(rx.readPos));
        p.Some? && !old(AtEnd()) && p.value.d.typeId == typeId ==>
        && (p.value.loaded <= rx.data.Length && p.value.end - old(rx.readPos) <= old(bodyBytes) ==>
             status == OK || rx.failed)
        && (status == OK ==>
             ValidRx() && rx.readPos == p.value.end && bodyBytes == old(bodyBytes) - (p.value.end - old(rx.readPos)))
        && (status == OK ==> arg.d == p.value.d && arg.pos == p.value.pos && arg.sigPtr == p.value.inner)
        && (status == OK ==>
             outer == arg && arg.container == old(outer) && Moved(old(outer), p.value.used) && varOffset == 0)
    {
      hide ParseArg, CStr, KindOf, Drop, Overlong;
      NotVariant(typeId);
      scalarAsElement := true;
      status := UnmarshalArg(arg, sig, r);
      scalarAsElement := false;
      if status == OK {
        if arg.d.typeId == typeId {
          arg.container := outer;
          outer := arg;
        } else {
          status := ErrUnmarshal;
        }
      }
    }

    /** AJ_UnmarshalCloseContainer. */
    method UnmarshalCloseContainer(arg: Arg) returns (status: Status)
      requires outer == arg && KindOf(arg.d.typeId).ContainerKind?
      modifies this`outer
      ensures outer == arg.container
      ensures arg.d.typeId == ARG_ARRAY ==> (status == OK <==> (rx.readPos - arg.pos) % 0x1_0000 == arg.d.len)
      ensures arg.d.typeId != ARG_ARRAY ==>
        (status == OK <==> arg.sigPtr != [] && arg.sigPtr[0] == Close(arg.d.typeId == DICT_OPEN))
    {
      outer := arg.container;
      if arg.d.typeId == ARG_ARRAY {
        if (rx.readPos - arg.pos) % 0x1_0000 != arg.d.len {
          return ErrUnmarshal;
        }
      } else {
        var next := if arg.sigPtr == [] then ARG_INVALID else arg.sigPtr[0];
        if arg.d.typeId == STRUCT_OPEN && next != STRUCT_CLOSE {
          return ErrSignature;
        }
        if arg.d.typeId == DICT_OPEN && next != DICT_CLOSE {
          return ErrSignature;
        }
      }
      status := OK;
    }
  }
}
