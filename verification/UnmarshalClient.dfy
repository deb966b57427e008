/**
 A client that unmarshals whatever value comes next by calling the API argument by argument:
 it looks at the next type with AJ_NextArgSig, opens containers, and reads an array until
 the next call would report, and
   then does report, AJ_ERR_NO_MORE.  Its contract is the unmarshaler's main result: if the octets to come are the
 wire format of a value, that value is what it returns, however recv splits them.
 */
module UnmarshalClient {
  import opened Common
  import opened Wire
  import opened Args
  import opened IoBuf
  import opened Unmarshaling
  import opened MarshalClient
  import opened Decoding

  /** What is unread is the value `v`, which is wanted next, and it fits the buffer and the body. */
  ghost predicate Ready(msg: Message, v: Value, sig: seq<byte>, rest: seq<byte>, r: seq<byte>)
    reads msg, msg.rx, msg.rx.data, msg.outer
  {
    && msg.ValidRx() && !msg.scalarAsElement && !msg.AtEnd()
    && sig == msg.NextArgSig() && sig == SigOf(v) + rest
    && r == msg.rx.Received()
    && Waiting(v, r, msg.rx.readPos, msg.rx.data.Length, msg.bodyBytes)
  }

  /** The value stands at `at` in full, within the buffer's size and the body's. */
  ghost predicate Waiting(v: Value, r: seq<byte>, at: nat, size: nat, body: nat) {
    && WellFormed(v) && |SigOf(v)| < 256
    && At(r, at, Enc(v, at)) && at + |Enc(v, at)| <= size < 0x1_0000 && |Enc(v, at)| <= body
  }

  /** `v` has been consumed: all of it, and nothing else. */
  twostate predicate Consumed(msg: Message, v: Value, r: seq<byte>)
    reads msg, msg.rx, msg.rx.data, msg.outer
  {
    && msg.ValidRx() && r == msg.rx.Received() && msg.varOffset == 0
    && msg.rx.readPos == old(msg.rx.readPos) + |Enc(v, old(msg.rx.readPos))|
    && msg.bodyBytes == old(msg.bodyBytes) - |Enc(v, old(msg.rx.readPos))|
    && msg.SigMoved(|SigOf(v)|)
  }

  method GetScalar(msg: Message, ghost v: Value, ghost sig: seq<byte>, ghost rest: seq<byte>, ghost r: seq<byte>)
    returns (status: Status, got: Value)
    requires v.Scalar? && Ready(msg, v, sig, rest, r)
    modifies msg, msg.OuterSet()`sigPtr, msg.rx, msg.rx.data
    ensures status == OK || msg.rx.failed
    ensures status == OK ==> got == v && Consumed(msg, v, r)
  {
    hide ParseArg, CStr, Enc, SigOf;
    ScalarParsed(v, rest, msg.scalarAsElement, r, msg.rx.readPos);
    SigParts(v);
    var arg := new Arg(ArgData(ARG_INVALID, false, 0, []));
    status := msg.UnmarshalArg(arg, sig, r);
    got := Scalar(arg.d.typeId, arg.d.val);
  }

  method GetString(msg: Message, ghost v: Value, ghost sig: seq<byte>, ghost rest: seq<byte>, ghost r: seq<byte>)
    returns (status: Status, got: Value)
    requires v.Str? && Ready(msg, v, sig, rest, r)
    modifies msg, msg.OuterSet()`sigPtr, msg.rx, msg.rx.data
    ensures status == OK || msg.rx.failed
    ensures status == OK ==> got == v && Consumed(msg, v, r)
  {
    hide ParseArg, CStr, Enc, SigOf;
    StrParsed(v, rest, msg.scalarAsElement, r, msg.rx.readPos);
    SigParts(v);
    var arg := new Arg(ArgData(ARG_INVALID, false, 0, []));
    status := msg.UnmarshalArg(arg, sig, r);
    got := Str(arg.d.typeId, arg.d.val);
  }

  /** Cuts an array of scalars that was returned in one piece into its elements. */
  function Chop(t: byte, mem: seq<byte>): seq<Value>
    requires KindOf(t).ScalarKind?
  {
    if |mem| < ScalarSize(t) then [] else [Scalar(t, mem[..ScalarSize(t)])] + Chop(t, mem[ScalarSize(t)..])
  }

  lemma {:induction false} ChopMemory(t: byte, vs: seq<Value>)
    requires KindOf(t).ScalarKind? && Elements([t], vs)
    ensures Chop(t, Memory(vs)) == vs
    decreases vs
  {
    if vs != [] {
      ElementIsScalar(t, vs[0]);
      assert Memory(vs)[..|vs[0].bytes|] == vs[0].bytes && Memory(vs)[|vs[0].bytes|..] == Memory(vs[1..]);
      ChopMemory(t, vs[1..]);
    }
  }

  /** A scalar array in one piece: its octets are its elements'. */
  lemma FlatIsMemory(v: Value, off: nat)
    requires v.Arr? && WellFormed(v) && KindOf(v.elemSig[0]).ScalarKind?
    requires off % 4 == 0
    ensures v.elemSig == [v.elemSig[0]] && Elements(v.elemSig, v.elems)
    ensures EncAll(v.elems, off + ElemPad(v.elemSig, off)) == Memory(v.elems)
  {
    ScalarSigIsOne(v.elemSig);
    PadAligns(AlignOf(v.elemSig[0]), off, 0);
    FlatElements(v.elemSig[0], v.elems, off + ElemPad(v.elemSig, off));
  }

  method GetFlat(msg: Message, ghost v: Value, ghost sig: seq<byte>, ghost rest: seq<byte>, ghost r: seq<byte>)
    returns (status: Status, got: Value)
    requires v.Arr? && Ready(msg, v, sig, rest, r) && KindOf(v.elemSig[0]).ScalarKind?
    modifies msg, msg.OuterSet()`sigPtr, msg.rx, msg.rx.data
    ensures status == OK || msg.rx.failed
    ensures status == OK ==> got == v && Consumed(msg, v, r)
  {
    hide CStr, Enc, SigOf, ParseArray, WellFormed, EncAll, PadTo, ElemPad;
    ghost var at := msg.rx.readPos;
    ArrayParsed(v, rest, r, at);
    ArraySig(v, sig, rest);
    PadAligns(4, at, 0);
    FlatIsMemory(v, at + PadFor(ARG_ARRAY, at) + 4);
    ChopMemory(v.elemSig[0], v.elems);
    var arg := new Arg(ArgData(ARG_INVALID, false, 0, []));
    status := msg.UnmarshalArg(arg, sig, r);
    got := if status == OK && KindOf(arg.d.typeId).ScalarKind? then Arr([arg.d.typeId], Chop(arg.d.typeId, arg.d.val))
      else Variant(Scalar(ARG_INVALID, []));
  }

  /** The values `vs` stand at the read position, one after the other. */
  ghost predicate AllWaiting(msg: Message, vs: seq<Value>, r: seq<byte>)
    reads msg, msg.rx, msg.rx.data
  {
    && msg.ValidRx() && !msg.scalarAsElement && msg.varOffset == 0 && r == msg.rx.Received()
    && (forall i :: 0 <= i < |vs| ==> WellFormed(vs[i]) && |SigOf(vs[i])| < 256)
    && At(r, msg.rx.readPos, EncAll(vs, msg.rx.readPos))
    && msg.rx.readPos + |EncAll(vs, msg.rx.readPos)| <= msg.rx.data.Length
    && |EncAll(vs, msg.rx.readPos)| <= msg.bodyBytes
  }

  twostate predicate AllConsumed(msg: Message, vs: seq<Value>, r: seq<byte>)
    reads msg, msg.rx, msg.rx.data, msg.outer
  {
    && msg.ValidRx() && r == msg.rx.Received() && msg.varOffset == 0
    && msg.rx.readPos == old(msg.rx.readPos) + |EncAll(vs, old(msg.rx.readPos))|
    && msg.bodyBytes == old(msg.bodyBytes) - |EncAll(vs, old(msg.rx.readPos))|
    && msg.SigMoved(|SigsOf(vs)|)
  }

  lemma DropSum(a: seq<byte>, b: seq<byte>)
    ensures Drop(a + b, |a|) == b
  {
  }

  predicate InArray(msg: Message)
    reads msg, msg.outer
  {
    msg.outer != null && msg.outer.d.typeId == ARG_ARRAY
  }

  /** The fields of a struct or the arguments of a message, as long as there is a signature left. */
  method GetFields(msg: Message, flat: bool, ghost vs: seq<Value>, ghost rest: seq<byte>, ghost r: seq<byte>)
    returns (status: Status, got: seq<Value>)
    requires AllWaiting(msg, vs, r) && !InArray(msg) && msg.NextArgSig() == SigsOf(vs) + rest
    requires rest == [] || IsClose(rest[0])
    modifies msg, msg.OuterSet()`sigPtr, msg.rx, msg.rx.data
    ensures status == OK || msg.rx.failed
    ensures status == OK ==> got == vs && AllConsumed(msg, vs, r)
    decreases vs, 2
  {
    hide ParseArg, CStr, Enc, EncAll, SigOf, SigsOf, WellFormed, KindOf, Drop, At;
    HeadAndRest(vs, msg.rx.readPos, rest);
    if vs != [] {
      SigNotClose(vs[0]);
    }
    if msg.outer != null {
      DropNone(msg.outer.sigPtr);
    }
    var next := msg.NextArgSig();
    if next == [] || IsClose(next[0]) {
      return OK, [];
    }
    status, got := GetMore(msg, flat, vs, next, rest, r);
  }

  /** The next field, and the rest of them. */
  method GetMore(msg: Message, flat: bool, ghost vs: seq<Value>, next: seq<byte>, ghost rest: seq<byte>,
                 ghost r: seq<byte>)
    returns (status: Status, got: seq<Value>)
    requires AllWaiting(msg, vs, r) && !InArray(msg) && next == msg.NextArgSig() == SigsOf(vs) + rest
    requires vs != [] && (rest == [] || IsClose(rest[0]))
    modifies msg, msg.OuterSet()`sigPtr, msg.rx, msg.rx.data
    ensures status == OK || msg.rx.failed
    ensures status == OK ==> got == vs && AllConsumed(msg, vs, r)
    decreases vs, 1
  {
    hide ParseArg, CStr, Enc, EncAll, SigOf, SigsOf, WellFormed, KindOf, Drop, At, IsClose;
    ghost var at := msg.rx.readPos;
    ghost var ptr := if msg.outer != null then msg.outer.sigPtr else [];
    HeadAndRest(vs, at, rest);
    var head;
    status, head := GetHead(msg, flat, vs, next, rest, r);
    got := [];
    if status == OK {
      DropMore(ptr, |SigOf(vs[0])|, |SigsOf(vs[1..])|);
      var tail;
      status, tail := GetFields(msg, flat, vs[1..], rest, r);
      got := [head] + tail;
    }
  }

  /** The next field; the rest of them is then next. */
  method GetHead(msg: Message, flat: bool, ghost vs: seq<Value>, next: seq<byte>, ghost rest: seq<byte>,
                 ghost r: seq<byte>)
    returns (status: Status, head: Value)
    requires AllWaiting(msg, vs, r) && !InArray(msg) && next == msg.NextArgSig() == SigsOf(vs) + rest
    requires vs != [] && (rest == [] || IsClose(rest[0]))
    modifies msg, msg.OuterSet()`sigPtr, msg.rx, msg.rx.data
    ensures status == OK || msg.rx.failed
    ensures status == OK ==> head == vs[0] && Consumed(msg, vs[0], r)
    ensures status == OK ==> AllWaiting(msg, vs[1..], r) && !InArray(msg) && msg.NextArgSig() == SigsOf(vs[1..]) + rest
    decreases vs, 0
  {
    hide ParseArg, CStr, Enc, EncAll, SigOf, SigsOf, WellFormed, KindOf, Drop, At, IsClose;
    ghost var at := msg.rx.readPos;
    HeadAndRest(vs, at, rest);
    AtSplit(r, at, Enc(vs[0], at), EncAll(vs[1..], at + |Enc(vs[0], at)|));
    status, head := Get(msg, flat, vs[0], next, SigsOf(vs[1..]) + rest, r);
    if status == OK {
      DropSum(SigOf(vs[0]), SigsOf(vs[1..]) + rest);
      assert msg.NextArgSig() == Drop(next, |SigOf(vs[0])|);
    }
  }

  /** The value that comes next. */
  method Get(msg: Message, flat: bool, ghost v: Value, ghost sig: seq<byte>, ghost rest: seq<byte>, ghost r: seq<byte>)
    returns (status: Status, got: Value)
    requires Ready(msg, v, sig, rest, r)
    modifies msg, msg.OuterSet()`sigPtr, msg.rx, msg.rx.data
    ensures status == OK || msg.rx.failed
    ensures status == OK ==> got == v && Consumed(msg, v, r)
    decreases v, 3
  {
    hide ParseArg, CStr, Enc, SigOf, WellFormed;
    SigParts(v);
    SigStart(v, sig, rest);
    var next := msg.NextArgSig();
    var t := next[0];
    match KindOf(t) {
      case ScalarKind => status, got := GetScalar(msg, v, sig, rest, r);
      case StringKind => status, got := GetString(msg, v, sig, rest, r);
      case VariantKind => status, got := GetVariant(msg, flat, v, sig, rest, r);
      case ContainerKind =>
        if t != ARG_ARRAY {
          status, got := GetStruct(msg, t, flat, v, sig, rest, r);
        } else if flat && |next| > 1 && KindOf(next[1]).ScalarKind? {
          status, got := GetFlat(msg, v, sig, rest, r);
        } else {
          status, got := GetArray(msg, flat, v, sig, rest, r);
        }
      case NoKind =>
        assert false;
    }
  }

  lemma SigStart(v: Value, sig: seq<byte>, rest: seq<byte>)
    requires WellFormed(v) && sig == SigOf(v) + rest
    ensures sig[0] == SigOf(v)[0]
    ensures v.Arr? ==> |sig| > 1 && sig[1] == v.elemSig[0]
  {
    if v.Arr? {
      ArrayElemKind(v.elemSig);
    }
  }

  method GetVariant(msg: Message, flat: bool, ghost v: Value, ghost sig: seq<byte>, ghost rest: seq<byte>,
                    ghost r: seq<byte>)
    returns (status: Status, got: Value)
    requires v.Variant? && Ready(msg, v, sig, rest, r)
    modifies msg, msg.OuterSet()`sigPtr, msg.rx, msg.rx.data
    ensures status == OK || msg.rx.failed
    ensures status == OK ==> got == v && Consumed(msg, v, r)
    decreases v, 2
  {
    hide ParseArg, CStr, Enc, EncAll, SigOf, SigsOf, WellFormed, KindOf, Scan, PadTo, At;
    ghost var at := msg.rx.readPos;
    ghost var vsig := SigOf(v.inner);
    VariantParsed(v, rest, msg.scalarAsElement, r, at);
    VariantShape(v, at, sig, rest);
    got := v0();
    var arg := new Arg(ArgData(ARG_INVALID, false, 0, []));
    status := msg.UnmarshalArg(arg, sig, r);
    if status == OK {
      VariantSigAt(msg.rx.data[..msg.rx.writePos], msg.rx.incoming, at + 1, v.inner);
      assert vsig + [] == vsig;
      var inner;
      status, inner := Get(msg, flat, v.inner, vsig, [], r);
      got := Variant(inner);
    }
  }

  function v0(): Value { Variant(Scalar(ARG_INVALID, [])) }

  /** A variant's signature, read back out of the part of the octets that has arrived. */
  lemma VariantSigAt(have: seq<byte>, more: seq<byte>, at: nat, w: Value)
    requires WellFormed(w) && At(have + more, at, SigOf(w) + [0]) && at + |SigOf(w)| + 1 <= |have|
    ensures CStr(have, at) == SigOf(w)
  {
    hide CStr, SigOf, WellFormed;
    var s := SigOf(w);
    var end := at + |s| + 1;
    SigNoNul(w);
    assert have[at..end] == (have + more)[at..end];
    assert have == have[..at] + s + [0] + have[end..] by {
      assert have == have[..at] + have[at..end] + have[end..];
    }
    CStrAt(have[..at], s, have[end..]);
  }

  method GetStruct(msg: Message, t: byte, flat: bool, ghost v: Value, ghost sig: seq<byte>, ghost rest: seq<byte>,
                   ghost r: seq<byte>)
    returns (status: Status, got: Value)
    requires v.Struct? && Ready(msg, v, sig, rest, r) && t == sig[0]
    modifies msg, msg.OuterSet()`sigPtr, msg.rx, msg.rx.data
    ensures status == OK || msg.rx.failed
    ensures status == OK ==> got == v && Consumed(msg, v, r)
    decreases v, 2
  {
    hide ParseArg, CStr, Enc, EncAll, SigOf, SigsOf, WellFormed, Scan, CompleteTypeSigLen, PadTo;
    ghost var at := msg.rx.readPos;
    StructParsed(v, rest, true, r, at);
    StructSig(v, sig, rest);
    StructShape(v, sig, at);
    got := v0();
    var arg := new Arg(ArgData(ARG_INVALID, false, 0, []));
    status := msg.UnmarshalContainer(arg, t, sig, r);
    if status == OK {
      status, got := TakeFields(msg, arg, flat, v, rest, r);
    }
  }

  /** The fields of a struct that has been opened, and its end. */
  method TakeFields(msg: Message, arg: Arg, flat: bool, ghost v: Value, ghost rest: seq<byte>, ghost r: seq<byte>)
    returns (status: Status, got: Value)
    requires v.Struct? && AllWaiting(msg, v.fields, r) && msg.outer == arg && arg.d.typeId == Open(v.dict)
    requires arg.sigPtr == SigsOf(v.fields) + ([Close(v.dict)] + rest)
    modifies msg, arg`sigPtr, msg.rx, msg.rx.data
    ensures status == OK || msg.rx.failed
    ensures status == OK ==>
      && got == v && msg.ValidRx() && r == msg.rx.Received() && msg.varOffset == 0
      && msg.outer == arg.container
    ensures status == OK ==> msg.rx.readPos == old(msg.rx.readPos) + |EncAll(v.fields, old(msg.rx.readPos))|
    ensures status == OK ==> msg.bodyBytes == old(msg.bodyBytes) - |EncAll(v.fields, old(msg.rx.readPos))|
    ensures status == OK ==> msg.sigOffset == old(msg.sigOffset) && msg.signature == old(msg.signature)
    ensures status == OK ==> !msg.scalarAsElement && msg.hdr == old(msg.hdr) && msg.open == old(msg.open)
    decreases v, 1
  {
    hide ParseArg, CStr, EncAll, SigOf, SigsOf, WellFormed;
    got := v0();
    DropSum(SigsOf(v.fields), [Close(v.dict)] + rest);
    var fields;
    status, fields := GetFields(msg, flat, v.fields, [Close(v.dict)] + rest, r);
    if status == OK {
      got := Struct(arg.d.typeId == DICT_OPEN, fields);
      status := msg.UnmarshalCloseContainer(arg);
    }
  }

  /** The elements `vs` of the innermost container, an array, are what is left of it. */
  ghost predicate ElemsWaiting(msg: Message, es: seq<byte>, rest: seq<byte>, vs: seq<Value>, r: seq<byte>)
    reads msg, msg.rx, msg.rx.data, msg.outer
  {
    && AllWaiting(msg, vs, r) && InArray(msg) && msg.outer.sigPtr == es + rest && Elements(es, vs)
    && msg.outer.pos <= msg.rx.readPos
    && msg.rx.readPos + |EncAll(vs, msg.rx.readPos)| == msg.outer.pos + msg.outer.d.len
  }

  /** The end of an array is reported, and nothing changes. */
  method ReportEnd(msg: Message, ghost sig: seq<byte>, ghost r: seq<byte>)
    requires msg.ValidRx() && msg.AtEnd() && sig == msg.NextArgSig() && r == msg.rx.Received()
    modifies msg`varOffset, msg`sigOffset, msg`bodyBytes, msg.OuterSet()`sigPtr, msg.rx, msg.rx.data
    ensures msg.ValidRx() && r == msg.rx.Received() && msg.rx.readPos == old(msg.rx.readPos)
    ensures msg.bodyBytes == old(msg.bodyBytes) && msg.SigMoved(0) && msg.varOffset == 0
  {
    hide ParseArg, CStr, KindOf, Drop, Overlong;
    var arg := new Arg(ArgData(ARG_INVALID, false, 0, []));
    var status := msg.UnmarshalArg(arg, sig, r);
    assert status == ErrNoMore;
  }

  /** The elements of an array, until there are no more. */
  method GetElems(msg: Message, flat: bool, ghost es: seq<byte>, ghost rest: seq<byte>, ghost vs: seq<Value>,
                  ghost r: seq<byte>)
    returns (status: Status, got: seq<Value>)
    requires ElemsWaiting(msg, es, rest, vs, r)
    modifies msg, msg.OuterSet()`sigPtr, msg.rx, msg.rx.data
    ensures status == OK || msg.rx.failed
    ensures status == OK ==> got == vs && AllConsumed(msg, vs, r)
    decreases vs, 0
  {
    hide ParseArg, CStr, Enc, EncAll, SigOf, SigsOf, WellFormed, KindOf, Drop, At, IsClose;
    ghost var at := msg.rx.readPos;
    ghost var ptr := if msg.outer != null then msg.outer.sigPtr else [];
    DropNone(ptr);
    HeadAndRest(vs, at, rest);
    var next := msg.NextArgSig();
    if vs != [] {
      EncNonEmpty(vs[0], at);
      AtSplit(r, at, Enc(vs[0], at), EncAll(vs[1..], at + |Enc(vs[0], at)|));
    }
    assert msg.AtEnd() <==> vs == [];
    if msg.AtEnd() {
      ReportEnd(msg, next, r);
      return OK, [];
    }
    var head;
    status, head := Get(msg, flat, vs[0], next, rest, r);
    got := [];
    if status == OK {
      var tail;
      status, tail := GetElems(msg, flat, es, rest, vs[1..], r);
      got := [head] + tail;
    }
  }

  method GetArray(msg: Message, flat: bool, ghost v: Value, ghost sig: seq<byte>, ghost rest: seq<byte>,
                  ghost r: seq<byte>)
    returns (status: Status, got: Value)
    requires v.Arr? && Ready(msg, v, sig, rest, r)
    modifies msg, msg.OuterSet()`sigPtr, msg.rx, msg.rx.data
    ensures status == OK || msg.rx.failed
    ensures status == OK ==> got == v && Consumed(msg, v, r)
    decreases v, 2
  {
    hide ParseArray, CStr, Enc, EncAll, SigOf, SigsOf, WellFormed, CompleteTypeSigLen, PadTo, ElemPad;
    ghost var at := msg.rx.readPos;
    ArrayParsed(v, rest, r, at);
    ArraySig(v, sig, rest);
    ArrayParts(v, rest);
    got := v0();
    var arg := new Arg(ArgData(ARG_INVALID, false, 0, []));
    status := msg.UnmarshalContainer(arg, ARG_ARRAY, sig, r);
    if status == OK {
      status, got := FinishArray(msg, arg, flat, v, rest, r);
    }
  }

  /** Everything of an array after its length. */
  method FinishArray(msg: Message, arg: Arg, flat: bool, ghost v: Value, ghost rest: seq<byte>, ghost r: seq<byte>)
    returns (status: Status, got: Value)
    requires v.Arr? && WellFormed(v) && |SigOf(v)| < 256
    requires ElemsWaiting(msg, v.elemSig, rest, v.elems, r) && msg.outer == arg && arg.pos == msg.rx.readPos
    modifies msg, arg`sigPtr, msg.rx, msg.rx.data
    ensures status == OK || msg.rx.failed
    ensures status == OK ==> got == v && msg.outer == arg.container
    ensures status == OK ==> msg.ValidRx() && r == msg.rx.Received() && msg.varOffset == 0
    ensures status == OK ==> msg.rx.readPos == old(msg.rx.readPos) + |EncAll(v.elems, old(msg.rx.readPos))|
    ensures status == OK ==> msg.bodyBytes == old(msg.bodyBytes) - |EncAll(v.elems, old(msg.rx.readPos))|
    ensures status == OK ==>
      && msg.sigOffset == old(msg.sigOffset) && msg.signature == old(msg.signature)
      && !msg.scalarAsElement && msg.hdr == old(msg.hdr) && msg.open == old(msg.open)
    decreases v, 1
  {
    hide CStr, Enc, EncAll, SigOf, SigsOf, WellFormed, CompleteTypeSigLen;
    ArrayParts(v, rest);
    SigLenBound(arg.sigPtr);
    var elemSig := arg.sigPtr[..CompleteTypeSigLen(arg.sigPtr)];
    var elems;
    status, elems := GetElems(msg, flat, v.elemSig, rest, v.elems, r);
    got := Arr(elemSig, elems);
    if status == OK {
      status := msg.UnmarshalCloseContainer(arg);
    }
  }

  lemma ArrayParts(v: Value, rest: seq<byte>)
    requires v.Arr? && WellFormed(v) && |SigOf(v)| < 256
    ensures CompleteTypeSigLen(v.elemSig + rest) == |v.elemSig| && (v.elemSig + rest)[..|v.elemSig|] == v.elemSig
    ensures Elements(v.elemSig, v.elems) && |v.elemSig| < 255
  {
    CompleteSigLen(v.elemSig, rest);
  }
}
