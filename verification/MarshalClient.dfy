/**
 A client that marshals a whole value by calling the API argument by argument, in the way the
 API asks to be called.  Its contract is the marshaler's main result: what ends up in the
 buffer is the wire format of the value, and the only thing that can go wrong is lack of room.
 */
module MarshalClient {
  import opened Common
  import opened Wire
  import opened IoBuf
  import opened Args
  import Layout
  import opened Marshaling

  /** The octets of a sequence of scalars as the caller holds them in memory. */
  function Memory(vs: seq<Value>): seq<byte> {
    if vs == [] then [] else (match vs[0] case Scalar(_, bs) => bs case _ => []) + Memory(vs[1..])
  }

  /** Aligned scalars need no padding between them, so their wire form is their memory. */
  lemma {:induction false} FlatElements(t: byte, vs: seq<Value>, off: nat)
    requires KindOf(t).ScalarKind? && Elements([t], vs) && Aligned(AlignOf(t), off)
    ensures EncAll(vs, off) == Memory(vs)
    decreases vs
  {
    hide Enc, SigOf, WellFormed, Aligned, KindOf;
    if vs != [] {
      AlignedScalar(t, vs[0], off);
      FlatElements(t, vs[1..], off + |vs[0].bytes|);
    }
  }

  lemma AlignedScalar(t: byte, v: Value, off: nat)
    requires KindOf(t).ScalarKind? && WellFormed(v) && SigOf(v) == [t] && Aligned(AlignOf(t), off)
    ensures v.Scalar? && Enc(v, off) == v.bytes && Aligned(AlignOf(t), off + |v.bytes|)
  {
    ElementIsScalar(t, v);
    assert Zeros(0) + v.bytes == v.bytes;
  }

  lemma ElementIsScalar(t: byte, v: Value)
    requires KindOf(t).ScalarKind? && WellFormed(v) && SigOf(v) == [t]
    ensures v.Scalar? && v.t == t && |v.bytes| == AlignOf(t)
  {
    assert SigOf(v)[0] == t;
  }

  /** A scalar array written in one piece is the same octets as one written element by element. */
  lemma FlatArrayIsArray(t: byte, vs: seq<Value>, off: nat)
    requires KindOf(t).ScalarKind? && Elements([t], vs)
    ensures FlatArrayOctets(t, Memory(vs), off) == Enc(Arr([t], vs), off)
  {
    var p := PadFor(ARG_ARRAY, off);
    var q := PadFor(t, off + p + 4);
    PadAligns(AlignOf(t), off + p + 4, 0);
    FlatElements(t, vs, off + p + 4 + q);
    Assoc(Zeros(p) + U32(|Memory(vs)|), Zeros(q), Memory(vs));
  }

  /** Marshals the value `v`; `flat` says whether scalar arrays are passed in one piece. */
  method Put(msg: Message, v: Value, flat: bool, ghost sig: seq<byte>, ghost rest: seq<byte>) returns (status: Status)
    requires msg.ValidTx() && WellFormed(v) && |SigOf(v)| < 256
    requires sig == msg.TxSig() && sig == SigOf(v) + rest
    modifies msg`varOffset, msg`sigOffset, msg`bodyBytes, msg`outer, msg.OuterSet()`sigPtr
    modifies msg.tx`readPos, msg.tx`writePos, msg.tx`sent, msg.tx`sends, msg.tx`failed, msg.tx.data
    ensures msg.tx.sent == old(msg.tx.sent)
    ensures status == OK <==> |Enc(v, old(msg.tx.writePos))| <= old(msg.tx.Space())
    ensures status == OK ==> msg.ValidTx() && msg.tx.Bytes() == old(msg.tx.Bytes()) + Enc(v, old(msg.tx.writePos))
    ensures status == OK ==> msg.SigMoved(|SigOf(v)|) && msg.varOffset == 0
    decreases v, 3
  {
    match v {
      case Scalar(t, bs) => status := PutBasic(msg, v, sig, rest);
      case Str(t, s) => status := PutBasic(msg, v, sig, rest);
      case Arr(es, vs) =>
        if flat && KindOf(es[0]).ScalarKind? && |Memory(vs)| < 0x1_0000 {
          status := PutFlat(msg, v, sig, rest);
        } else {
          status := PutArray(msg, v, flat, sig, rest);
        }
      case Struct(_, _) => status := PutStruct(msg, v, flat, sig, rest);
      case Variant(_) => status := PutVariant(msg, v, flat, sig, rest);
    }
  }

  function BasicArg(v: Value): ArgData
    requires v.Scalar? || v.Str?
  {
    match v
    case Scalar(t, bs) => ArgData(t, false, 0, bs)
    case Str(t, s) => ArgData(t, false, 0, s)
  }

  lemma BasicArgOctets(v: Value, sig: seq<byte>, rest: seq<byte>, off: nat)
    requires (v.Scalar? || v.Str?) && WellFormed(v) && sig == SigOf(v) + rest
    ensures BasicArg(v).Points() && BasicArg(v).Accepted(sig)
    ensures BasicArg(v).Octets(sig, off) == Enc(v, off)
    ensures BasicArg(v).Consumed(sig) == 1 && BasicArg(v).VarOffset() == 0
  {
    var d := BasicArg(v);
    if v.Scalar? {
      assert d.val[..ScalarSize(d.typeId)] == d.val;
    } else {
      assert d.StrVal() == d.val;
      assert v.t == ARG_SIGNATURE ==> Zeros(0) + [|v.s| % 256] == [|v.s| % 256];
    }
  }

  method PutBasic(msg: Message, v: Value, ghost sig: seq<byte>, ghost rest: seq<byte>) returns (status: Status)
    requires v.Scalar? || v.Str?
    requires msg.ValidTx() && WellFormed(v)
    requires sig == msg.TxSig() && sig == SigOf(v) + rest
    modifies msg`varOffset, msg`sigOffset, msg`bodyBytes, msg.OuterSet()`sigPtr
    modifies msg.tx`readPos, msg.tx`writePos, msg.tx`sent, msg.tx`sends, msg.tx`failed, msg.tx.data
    ensures msg.tx.sent == old(msg.tx.sent)
    ensures status == OK <==> |Enc(v, old(msg.tx.writePos))| <= old(msg.tx.Space())
    ensures status == OK ==> msg.ValidTx() && msg.tx.Bytes() == old(msg.tx.Bytes()) + Enc(v, old(msg.tx.writePos))
    ensures status == OK ==> msg.SigMoved(|SigOf(v)|) && msg.varOffset == 0
  {
    hide ArgData.Octets, ArgData.Accepted, ArgData.Consumed, ArgData.VarOffset, Enc;
    BasicArgOctets(v, sig, rest, msg.tx.writePos);
    var arg := new Arg(BasicArg(v));
    status := msg.MarshalArg(arg, sig);
  }

  method PutFlat(msg: Message, v: Value, ghost sig: seq<byte>, ghost rest: seq<byte>) returns (status: Status)
    requires v.Arr? && WellFormed(v) && KindOf(v.elemSig[0]).ScalarKind? && |Memory(v.elems)| < 0x1_0000
    requires msg.ValidTx() && sig == msg.TxSig() && sig == SigOf(v) + rest
    modifies msg`varOffset, msg`sigOffset, msg`bodyBytes, msg.OuterSet()`sigPtr
    modifies msg.tx`readPos, msg.tx`writePos, msg.tx`sent, msg.tx`sends, msg.tx`failed, msg.tx.data
    ensures msg.tx.sent == old(msg.tx.sent)
    ensures status == OK <==> |Enc(v, old(msg.tx.writePos))| <= old(msg.tx.Space())
    ensures status == OK ==> msg.ValidTx() && msg.tx.Bytes() == old(msg.tx.Bytes()) + Enc(v, old(msg.tx.writePos))
    ensures status == OK ==> msg.SigMoved(|SigOf(v)|) && msg.varOffset == 0
  {
    hide ArgData.Octets, ArgData.Accepted, ArgData.Consumed, ArgData.VarOffset, Enc;
    var mem := Memory(v.elems);
    var arg := new Arg(ArgData(v.elemSig[0], true, |mem|, mem));
    FlatArgOctets(v, sig, rest, msg.tx.writePos);
    status := msg.MarshalArg(arg, sig);
  }

  lemma FlatArgOctets(v: Value, sig: seq<byte>, rest: seq<byte>, off: nat)
    requires v.Arr? && WellFormed(v) && KindOf(v.elemSig[0]).ScalarKind?
    requires sig == SigOf(v) + rest
    ensures |SigOf(v)| == 2
    ensures var d := ArgData(v.elemSig[0], true, |Memory(v.elems)|, Memory(v.elems));
      d.Points() && d.Accepted(sig) && d.Octets(sig, off) == Enc(v, off) && d.Consumed(sig) == 2 && d.VarOffset() == 0
  {
    var t := v.elemSig[0];
    ScalarSigIsOne(v.elemSig);
    FlatArrayIsArray(t, v.elems, off);
    assert Memory(v.elems)[..|Memory(v.elems)|] == Memory(v.elems);
  }

  lemma ScalarSigIsOne(sig: seq<byte>)
    requires CompleteSig(sig) && KindOf(sig[0]).ScalarKind?
    ensures sig == [sig[0]]
  {
    CompleteSigLen(sig, []);
    NothingAfter(sig);
  }

  predicate InArray(msg: Message)
    reads msg, msg.outer
  {
    msg.outer != null && msg.outer.d.typeId == ARG_ARRAY
  }

  /** Marshals values one after the other: a struct's fields, an array's elements, a message's arguments. */
  method PutAll(msg: Message, vs: seq<Value>, flat: bool, ghost sig: seq<byte>, ghost rest: seq<byte>)
    returns (status: Status)
    requires msg.ValidTx() && msg.varOffset == 0 && sig == msg.TxSig()
    requires forall i :: 0 <= i < |vs| ==> WellFormed(vs[i]) && |SigOf(vs[i])| < 256
    requires InArray(msg) ==> forall i :: 0 <= i < |vs| ==> sig == SigOf(vs[i]) + rest
    requires !InArray(msg) ==> sig == SigsOf(vs) + rest
    modifies msg`varOffset, msg`sigOffset, msg`bodyBytes, msg`outer, msg.OuterSet()`sigPtr
    modifies msg.tx`readPos, msg.tx`writePos, msg.tx`sent, msg.tx`sends, msg.tx`failed, msg.tx.data
    ensures msg.tx.sent == old(msg.tx.sent)
    ensures status == OK <==> |EncAll(vs, old(msg.tx.writePos))| <= old(msg.tx.Space())
    ensures status == OK ==> msg.ValidTx() && msg.tx.Bytes() == old(msg.tx.Bytes()) + EncAll(vs, old(msg.tx.writePos))
    ensures status == OK ==> msg.SigMoved(|SigsOf(vs)|) && msg.varOffset == 0
    decreases vs, 0
  {
    hide Enc, EncAll, SigOf, SigsOf, WellFormed, CStr, KindOf, PadFor, Scan;
    HeadAndRest(vs, msg.tx.writePos, rest);
    if vs == [] {
      NothingAfter(msg.tx.Bytes());
      status := OK;
    } else {
      ghost var more := if InArray(msg) then rest else SigsOf(vs[1..]) + rest;
      status := Put(msg, vs[0], flat, sig, more);
      if status == OK {
        ghost var sig1 := if InArray(msg) then sig else more;
        assert sig1 == msg.TxSig();
        Assoc(old(msg.tx.Bytes()), Enc(vs[0], old(msg.tx.writePos)), EncAll(vs[1..], msg.tx.writePos));
        status := PutAll(msg, vs[1..], flat, sig1, rest);
      }
    }
  }

  lemma HeadAndRest(vs: seq<Value>, off: nat, rest: seq<byte>)
    ensures vs == [] ==> EncAll(vs, off) == [] && SigsOf(vs) == []
    ensures vs != [] ==> EncAll(vs, off) == Enc(vs[0], off) + EncAll(vs[1..], off + |Enc(vs[0], off)|)
    ensures vs != [] ==> SigsOf(vs) == SigOf(vs[0]) + SigsOf(vs[1..])
    ensures vs != [] ==> SigsOf(vs) + rest == SigOf(vs[0]) + (SigsOf(vs[1..]) + rest)
  {
    hide Enc, SigOf;
    if vs != [] {
      Assoc(SigOf(vs[0]), SigsOf(vs[1..]), rest);
    }
  }

  /** Opens a struct or a dictionary entry. */
  method OpenStruct(msg: Message, dict: bool, ghost sig: seq<byte>) returns (status: Status, a: Arg)
    requires msg.ValidTx() && sig == msg.TxSig() && sig != [] && sig[0] == Open(dict)
    modifies msg`varOffset, msg`sigOffset, msg`bodyBytes, msg`outer, msg.OuterSet()`sigPtr
    modifies msg.tx`readPos, msg.tx`writePos, msg.tx`sent, msg.tx`sends, msg.tx`failed, msg.tx.data
    ensures msg.tx.sent == old(msg.tx.sent) && fresh(a)
    ensures status == OK <==> |OpenOctets(sig, old(msg.tx.writePos))| <= old(msg.tx.Space())
    ensures status == OK ==>
      && msg.ValidTx() && msg.varOffset == 0 && msg.outer == a && a.container == old(msg.outer)
      && a.d.typeId == Open(dict) && a.sigPtr == sig[1..] && msg.Moved(old(msg.outer), CompleteTypeSigLen(sig))
      && msg.tx.Bytes() == old(msg.tx.Bytes()) + OpenOctets(sig, old(msg.tx.writePos))
  {
    hide CompleteTypeSigLen, OpenOctets, CStr, Layout.Opened, KindOf;
    a := new Arg(ArgData(Open(dict), false, 0, []));
    status := msg.MarshalContainer(a, Open(dict), sig);
  }

  method PutStruct(msg: Message, v: Value, flat: bool, ghost sig: seq<byte>, ghost rest: seq<byte>)
    returns (status: Status)
    requires v.Struct? && WellFormed(v) && |SigOf(v)| < 256
    requires msg.ValidTx() && sig == msg.TxSig() && sig == SigOf(v) + rest
    modifies msg`varOffset, msg`sigOffset, msg`bodyBytes, msg`outer, msg.OuterSet()`sigPtr
    modifies msg.tx`readPos, msg.tx`writePos, msg.tx`sent, msg.tx`sends, msg.tx`failed, msg.tx.data
    ensures msg.tx.sent == old(msg.tx.sent)
    ensures status == OK <==> |Enc(v, old(msg.tx.writePos))| <= old(msg.tx.Space())
    ensures status == OK ==> msg.ValidTx() && msg.tx.Bytes() == old(msg.tx.Bytes()) + Enc(v, old(msg.tx.writePos))
    ensures status == OK ==> msg.SigMoved(|SigOf(v)|) && msg.varOffset == 0
    decreases v, 2
  {
    hide Enc, EncAll, SigOf, SigsOf, WellFormed, Scan, CompleteTypeSigLen, CStr, PadFor, KindOf, OpenOctets, Close,
         Layout.Opened, PadTo, Zeros, U32, IsClose, ArgData.Points, ArgData.Accepted, ArgData.Octets, ElemPad,
         Message.ArrayStart;
    StructSig(v, sig, rest);
    StructWritten(msg.tx.Bytes(), v, sig);
    var a;
    status, a := OpenStruct(msg, v.dict, sig);
    if status == OK {
      status := PutAll(msg, v.fields, flat, a.sigPtr, [Close(v.dict)] + rest);
      if status == OK {
        status := msg.MarshalCloseContainer(a);
      }
    }
  }

  /** A struct's padding and its fields, behind whatever has been written. */
  lemma StructWritten(b: seq<byte>, v: Value, sig: seq<byte>)
    requires v.Struct? && WellFormed(v) && sig != [] && sig[0] == Open(v.dict)
    ensures var o := OpenOctets(sig, |b|); var e := EncAll(v.fields, |b| + |o|);
      b + o + e == b + Enc(v, |b|) && |Enc(v, |b|)| == |o| + |e|
    ensures KindOf(Open(v.dict)).ContainerKind?
    ensures forall i :: 0 <= i < |v.fields| ==> WellFormed(v.fields[i])
  {
    hide EncAll, PadFor, Enc, KindOf, WellFormed;
    StructShape(v, sig, |b|);
    Assoc(b, OpenOctets(sig, |b|), EncAll(v.fields, |b| + |OpenOctets(sig, |b|)|));
  }

  lemma StructShape(v: Value, sig: seq<byte>, off: nat)
    requires v.Struct? && WellFormed(v) && sig != [] && sig[0] == Open(v.dict)
    ensures OpenOctets(sig, off) == Zeros(PadFor(STRUCT_OPEN, off))
    ensures Enc(v, off) == Zeros(PadFor(STRUCT_OPEN, off)) + EncAll(v.fields, off + PadFor(STRUCT_OPEN, off))
    ensures KindOf(Open(v.dict)).ContainerKind?
    ensures forall i :: 0 <= i < |v.fields| ==> WellFormed(v.fields[i])
  {
  }

  /** Where a struct's own signature and its fields' lie in the signature in front of it. */
  lemma StructSig(v: Value, sig: seq<byte>, rest: seq<byte>)
    requires v.Struct? && WellFormed(v) && |SigOf(v)| < 256 && sig == SigOf(v) + rest
    ensures sig[0] == Open(v.dict) && CompleteTypeSigLen(sig) == |SigOf(v)|
    ensures sig[1..] == SigsOf(v.fields) + ([Close(v.dict)] + rest)
    ensures forall i :: 0 <= i < |v.fields| ==> |SigOf(v.fields[i])| < 256
  {
    SigComplete(v);
    CompleteSigLen(SigOf(v), rest);
    Assoc([Open(v.dict)] + SigsOf(v.fields), [Close(v.dict)], rest);
    Assoc([Open(v.dict)], SigsOf(v.fields), [Close(v.dict)] + rest);
    forall i | 0 <= i < |v.fields| ensures |SigOf(v.fields[i])| <= |SigsOf(v.fields)| {
      SigInSigs(v.fields, i);
    }
  }

  lemma {:induction false} SigInSigs(vs: seq<Value>, i: nat)
    requires i < |vs|
    ensures |SigOf(vs[i])| <= |SigsOf(vs)|
  {
    if i > 0 {
      SigInSigs(vs[1..], i - 1);
    }
  }

  method PutArray(msg: Message, v: Value, flat: bool, ghost sig: seq<byte>, ghost rest: seq<byte>)
    returns (status: Status)
    requires v.Arr? && WellFormed(v) && |SigOf(v)| < 256
    requires msg.ValidTx() && sig == msg.TxSig() && sig == SigOf(v) + rest
    modifies msg`varOffset, msg`sigOffset, msg`bodyBytes, msg`outer, msg.OuterSet()`sigPtr
    modifies msg.tx`readPos, msg.tx`writePos, msg.tx`sent, msg.tx`sends, msg.tx`failed, msg.tx.data
    ensures msg.tx.sent == old(msg.tx.sent)
    ensures status == OK <==> |Enc(v, old(msg.tx.writePos))| <= old(msg.tx.Space())
    ensures status == OK ==> msg.ValidTx() && msg.tx.Bytes() == old(msg.tx.Bytes()) + Enc(v, old(msg.tx.writePos))
    ensures status == OK ==> msg.SigMoved(|SigOf(v)|) && msg.varOffset == 0
    decreases v, 2
  {
    hide Enc, EncAll, SigOf, WellFormed, Scan, CompleteTypeSigLen, CStr, PadFor, KindOf, U32, ElemPad, OpenOctets, Drop;
    ArraySig(v, sig, rest);
    ArrayShape(v, sig, msg.tx.writePos);
    ghost var w := msg.tx.writePos;
    ghost var b := msg.tx.Bytes();
    var a := new Arg(ArgData(ARG_ARRAY, false, 0, []));
    status := msg.MarshalContainer(a, ARG_ARRAY, sig);
    if status == OK {
      status := FillArray(msg, a, v, flat, rest, b, PadFor(ARG_ARRAY, w));
    }
  }

  /** The elements of an array that has been opened, and its end. */
  method FillArray(msg: Message, a: Arg, v: Value, flat: bool, ghost rest: seq<byte>, ghost b: seq<byte>, ghost p: nat)
    returns (status: Status)
    requires v.Arr? && v.elemSig != [] && KindOf(v.elemSig[0]) != NoKind
    requires forall i :: 0 <= i < |v.elems| ==>
      WellFormed(v.elems[i]) && SigOf(v.elems[i]) == v.elemSig && |v.elemSig| < 256
    requires
      && msg.ValidTx() && msg.varOffset == 0 && msg.outer == a && a.d.typeId == ARG_ARRAY
      && a.sigPtr == v.elemSig + rest
    requires a.pos == |b| + p && a.pos % 4 == 0
    requires msg.tx.Bytes() == b + (Zeros(p + 4) + Zeros(ElemPad(v.elemSig, a.pos + 4)))
    modifies msg`varOffset, msg`sigOffset, msg`bodyBytes, msg`outer, a`sigPtr, a`d
    modifies msg.tx`readPos, msg.tx`writePos, msg.tx`sent, msg.tx`sends, msg.tx`failed, msg.tx.data
    ensures msg.tx.sent == old(msg.tx.sent)
    ensures status == OK <==> |EncAll(v.elems, old(msg.tx.writePos))| <= old(msg.tx.Space())
    ensures status == OK ==>
      && msg.ValidTx() && msg.outer == a.container && msg.varOffset == 0
      && msg.sigOffset == old(msg.sigOffset)
    ensures status == OK ==>
              msg.tx.Bytes() == b
                + (Zeros(p) + U32(|EncAll(v.elems, old(msg.tx.writePos))|) + Zeros(ElemPad(v.elemSig, a.pos + 4))
                + EncAll(v.elems, old(msg.tx.writePos)))
    decreases v, 1
  {
    hide Enc, EncAll, SigOf, WellFormed, Scan, CompleteTypeSigLen, CStr, KindOf, U32, ElemPad, Drop;
    ghost var start := msg.tx.writePos;
    status := PutAll(msg, v.elems, flat, v.elemSig + rest, rest);
    if status == OK {
      status := CloseArray(msg, a, v.elemSig, rest, b, p, EncAll(v.elems, start));
    }
  }

  /** Closing an array turns what is in the buffer into the array's octets. */
  method CloseArray(msg: Message, a: Arg, ghost es: seq<byte>, ghost rest: seq<byte>, ghost b: seq<byte>, ghost p: nat,
                    ghost body: seq<byte>)
    returns (status: Status)
    requires msg.ValidTx() && msg.outer == a && a.d.typeId == ARG_ARRAY && a.pos == |b| + p && a.pos % 4 == 0
    requires es != [] && KindOf(es[0]) != NoKind && a.sigPtr == es + rest
    requires msg.tx.Bytes() == b + (Zeros(p + 4) + Zeros(ElemPad(es, a.pos + 4))) + body
    modifies msg`outer, a`d, msg.tx.data
    ensures status == OK && msg.ValidTx() && msg.outer == a.container
    ensures msg.tx.Bytes() == b + (Zeros(p) + U32(|body|) + Zeros(ElemPad(es, a.pos + 4)) + body)
  {
    hide U32, ElemPad;
    ElemPadSame(es, rest, a.pos + 4);
    assert a.sigPtr[0] == es[0];
    assert |msg.tx.Bytes()| == a.pos + 4 + ElemPad(es, a.pos + 4) + |body|;
    ArrayPatched(b, p, ElemPad(es, a.pos + 4), body, U32(|body|));
    status := msg.MarshalCloseContainer(a);
  }

  lemma ElemPadSame(es: seq<byte>, rest: seq<byte>, off: nat)
    requires es != []
    ensures ElemPad(es + rest, off) == ElemPad(es, off)
  {
  }

  lemma ArrayShape(v: Value, sig: seq<byte>, off: nat)
    requires v.Arr? && WellFormed(v) && sig != [] && sig[0] == ARG_ARRAY && v.elemSig != [] && v.elemSig <= sig[1..]
    ensures var p := PadFor(ARG_ARRAY, off); var q := ElemPad(v.elemSig, off + p + 4);
      var body := EncAll(v.elems, off + p + 4 + q);
      && OpenOctets(sig, off) == Zeros(p + 4) + Zeros(q)
      && Enc(v, off) == Zeros(p) + U32(|body|) + Zeros(q) + body
      && (off + p) % 4 == 0
    ensures KindOf(ARG_ARRAY).ContainerKind?
    ensures Elements(v.elemSig, v.elems)
  {
    hide EncAll, SigOf, CompleteSig, U32;
    PadAligns(4, off, 0);
    assert sig[1] == sig[1..][0];
  }

  lemma ArraySig(v: Value, sig: seq<byte>, rest: seq<byte>)
    requires v.Arr? && WellFormed(v) && |SigOf(v)| < 256 && sig == SigOf(v) + rest
    ensures sig[0] == ARG_ARRAY && CompleteTypeSigLen(sig) == |SigOf(v)|
    ensures sig[1..] == v.elemSig + rest
    ensures v.elemSig != [] && KindOf(v.elemSig[0]) != NoKind
  {
    SigComplete(v);
    CompleteSigLen(SigOf(v), rest);
    Assoc([ARG_ARRAY], v.elemSig, rest);
  }

  /** Filling in the length field of an array gives the array's octets. */
  lemma ArrayPatched(b: seq<byte>, p: nat, q: nat, body: seq<byte>, len: seq<byte>)
    requires |len| == 4
    ensures var before := b + (Zeros(p + 4) + Zeros(q)) + body;
      before[..|b| + p] + len + before[|b| + p + 4..] == b + (Zeros(p) + len + Zeros(q) + body)
  {
    var before := b + (Zeros(p + 4) + Zeros(q)) + body;
    assert before[..|b| + p] == b + Zeros(p);
    assert before[|b| + p + 4..] == Zeros(q) + body;
    assert b + Zeros(p) + len + (Zeros(q) + body) == b + (Zeros(p) + len + Zeros(q) + body);
  }

  lemma VariantShape(v: Value, off: nat, sig: seq<byte>, rest: seq<byte>)
    requires v.Variant? && WellFormed(v) && sig == SigOf(v) + rest
    ensures var vsig := SigOf(v.inner); Enc(v, off) == [|vsig| % 256] + vsig + [0] + Enc(v.inner, off + |vsig| + 2)
    ensures WellFormed(v.inner) && |SigOf(v.inner)| <= 254 && sig[0] == ARG_VARIANT && |SigOf(v)| == 1
  {
  }

  method PutVariant(msg: Message, v: Value, flat: bool, ghost sig: seq<byte>, ghost rest: seq<byte>)
    returns (status: Status)
    requires v.Variant? && WellFormed(v)
    requires msg.ValidTx() && sig == msg.TxSig() && sig == SigOf(v) + rest
    modifies msg`varOffset, msg`sigOffset, msg`bodyBytes, msg`outer, msg.OuterSet()`sigPtr
    modifies msg.tx`readPos, msg.tx`writePos, msg.tx`sent, msg.tx`sends, msg.tx`failed, msg.tx.data
    ensures msg.tx.sent == old(msg.tx.sent)
    ensures status == OK <==> |Enc(v, old(msg.tx.writePos))| <= old(msg.tx.Space())
    ensures status == OK ==> msg.ValidTx() && msg.tx.Bytes() == old(msg.tx.Bytes()) + Enc(v, old(msg.tx.writePos))
    ensures status == OK ==> msg.SigMoved(|SigOf(v)|) && msg.varOffset == 0
    decreases v, 2
  {
    hide Enc, WellFormed, Scan, CStr, PadFor, KindOf;
    VariantShape(v, msg.tx.writePos, sig, rest);
    var vsig := SigOf(v.inner);
    SigNoNul(v.inner);
    SigComplete(v.inner);
    CompleteSigLen(vsig, []);
    NothingAfter(vsig);
    status := msg.MarshalVariant(vsig, sig);
    if status == OK {
      Assoc(old(msg.tx.Bytes()), [|vsig| % 256] + vsig + [0], Enc(v.inner, msg.tx.writePos));
      status := Put(msg, v.inner, flat, vsig, []);
    }
  }
}
