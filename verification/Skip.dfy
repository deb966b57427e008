/** AJ_SkipArg: passing over an argument without looking at it. */
module Skipping {
  import opened Common
  import opened Wire
  import opened Args
  import opened IoBuf
  import opened Unmarshaling
  import opened MarshalClient
  import opened Decoding
  import opened UnmarshalClient

  /**
   The values AJ_SkipArg skips: it unmarshals a variant's signature and then one argument, so
   a variant that holds a variant leaves the inner value unread.  Array elements are never
   looked at.
   */
  predicate Skippable(v: Value) {
    match v
    case Struct(_, fs) => forall i :: 0 <= i < |fs| ==> Skippable(fs[i])
    case Variant(w) => !w.Variant? && Skippable(w)
    case _ => true
  }

  /** A variant that holds a variant: an octet, twice wrapped. */
  lemma WrappedTwice()
    ensures var v := Variant(Variant(Scalar(121, [7]))); WellFormed(v) && |SigOf(v)| < 256 && !Skippable(v)
  {
  }

  /** What AJ_SkipArg leaves behind when it reports success. */
  twostate predicate Skipped(msg: Message, v: Value, r: seq<byte>)
    reads msg, msg.rx, msg.rx.data, msg.outer
  {
    && msg.ValidRx() && r == msg.rx.Received() && msg.SigMoved(|SigOf(v)|) && msg.bodyBytes <= old(msg.bodyBytes)
    && (msg.varOffset == 0 <==> Skippable(v))
    && (Skippable(v) ==> msg.rx.readPos == old(msg.rx.readPos) + |Enc(v, old(msg.rx.readPos))|)
    && (Skippable(v) ==> msg.bodyBytes == old(msg.bodyBytes) - |Enc(v, old(msg.rx.readPos))|)
    && (!Skippable(v) ==> msg.bodyBytes > old(msg.bodyBytes) - |Enc(v, old(msg.rx.readPos))|)
  }

  /** The next argument is waiting, or the signature is used up. */
  ghost predicate ReadyOrEnd(msg: Message, v: Value, sig: seq<byte>, rest: seq<byte>, r: seq<byte>)
    reads msg, msg.rx, msg.rx.data, msg.outer
  {
    if sig == [] then msg.ValidRx() && msg.outer == null && sig == msg.NextArgSig() && r == msg.rx.Received()
    else Ready(msg, v, sig, rest, r)
  }

  /**
   `arg` is what AJ_UnmarshalArg made of the first argument of `u`, which ends at `end`; the
   octets up to there are still counted in the body.
   */
  ghost predicate Opened(msg: Message, arg: Arg, u: Value, end: nat, bodyEnd: nat, r: seq<byte>)
    reads msg, msg.rx, msg.rx.data, arg
  {
    && msg.ValidRx() && !msg.scalarAsElement && r == msg.rx.Received()
    && WellFormed(u) && |SigOf(u)| < 256 && msg.rx.readPos <= end <= msg.rx.data.Length
    && msg.bodyBytes == bodyEnd + (end - msg.rx.readPos)
    && OpenedAs(arg, u, msg.rx.readPos, end, r)
  }

  ghost predicate OpenedAs(arg: Arg, u: Value, at: nat, end: nat, r: seq<byte>)
    reads arg
  {
    match u
    case Struct(d, fs) =>
      && arg.d.typeId == Open(d) && at + |EncAll(fs, at)| == end && At(r, at, EncAll(fs, at))
      && SigsOf(fs) + [Close(d)] <= arg.sigPtr
    case Arr(es, _) =>
      && es != []
      && (if KindOf(es[0]).ScalarKind? then arg.d.typeId == es[0] && at == end
          else arg.d.typeId == ARG_ARRAY && at + arg.d.len == end && arg.pos == at)
    case Variant(_) => arg.d.typeId == ARG_VARIANT
    case _ => arg.d.typeId == SigOf(u)[0] && at == end
  }

  /** What AJ_UnmarshalArg makes of the first argument of each kind of value. */
  lemma ReadFirst(v: Value, rest: seq<byte>, r: seq<byte>, at: nat)
    requires WellFormed(v) && |SigOf(v)| < 256 && At(r, at, Enc(v, at)) && |Enc(v, at)| < 0x1_0000
    ensures var p := ParseArg(SigOf(v) + rest, false, r, at); var end := at + |Enc(v, at)|;
      && p.Some? && p.value.end <= p.value.loaded <= end && p.value.used == |SigOf(v)|
      && (p.value.d.typeId == ARG_VARIANT <==> v.Variant?)
      && (match v
          case Struct(d, fs) => p.value.d.typeId == Open(d) && p.value.end + |EncAll(fs, p.value.end)| == end
            && At(r, p.value.end, EncAll(fs, p.value.end)) && SigsOf(fs) + [Close(d)] <= p.value.inner
          case Arr(es, _) => es != [] &&
            if KindOf(es[0]).ScalarKind? then p.value.d.typeId == es[0] && p.value.end == end
            else p.value.d.typeId == ARG_ARRAY && p.value.end + p.value.d.len == end && p.value.pos == p.value.end
          case Variant(w) => p.value.end == at + |SigOf(w)| + 2 && p.value.d.len == |SigOf(w)|
          case _ => p.value.d.typeId == SigOf(v)[0] && p.value.end == end)
  {
    hide ParseArray, ParseString, ParseScalar, ParseStruct, Scan, Enc, EncAll;
    SigParts(v);
    match v
    case Scalar(_, _) => ScalarParsed(v, rest, false, r, at);
    case Str(_, _) => StrParsed(v, rest, false, r, at);
    case Arr(es, _) =>
      ArrayParsed(v, rest, r, at);
      ArraySig(v, SigOf(v) + rest, rest);
    case Struct(d, fs) =>
      StructParsed(v, rest, false, r, at);
      Assoc(SigsOf(fs), [Close(d)], rest);
    case Variant(_) =>
      VariantParsed(v, rest, false, r, at);
      VariantShape(v, at, SigOf(v) + rest, rest);
  }

  /**
   AJ_SkipArg on a message that still has the value `v` to come.  It ends where unmarshaling
   `v` would have ended exactly if `v` is skippable.
   */
  method SkipArg(msg: Message, ghost v: Value, ghost sig: seq<byte>, ghost rest: seq<byte>, ghost r: seq<byte>)
    returns (status: Status)
    requires msg.ValidRx() && (msg.varOffset == 0 ==> ReadyOrEnd(msg, v, sig, rest, r))
    modifies msg, msg.OuterSet()`sigPtr, msg.rx, msg.rx.data
    ensures old(msg.varOffset) != 0 ==> status == ErrUnexpected
    ensures old(msg.varOffset) == 0 && sig == [] ==> status != OK
    ensures old(msg.varOffset) == 0 && sig != [] ==> status == OK || msg.rx.failed || !Skippable(v)
    ensures status == OK ==> Skipped(msg, v, r)
    decreases v, 4
  {
    if msg.varOffset != 0 {
      return ErrUnexpected;
    }
    hide ParseArg, CStr, Enc, EncAll, SigOf, SigsOf, WellFormed, KindOf, Scan, Skippable, Opened, PadTo, At,
         CompleteTypeSigLen, Waiting;
    ghost var at := msg.rx.readPos;
    ghost var end, bodyEnd := at + |Enc(v, at)|, msg.bodyBytes - |Enc(v, at)|;
    ghost var u := if v.Variant? then v.inner else v;
    var skippy := new Arg(ArgData(ARG_INVALID, false, 0, []));
    status := ReadThrough(msg, skippy, v, sig, rest, r);
    if status != OK {
      return;
    }
    SkippableCases(v);
    SkippableCases(u);
    status := SkipRest(msg, skippy, u, end, bodyEnd, r);
  }

  /** The first step of AJ_SkipArg: the argument, and if it is a variant what is in it. */
  method ReadThrough(msg: Message, skippy: Arg, ghost v: Value, ghost sig: seq<byte>, ghost rest: seq<byte>,
                     ghost r: seq<byte>)
    returns (status: Status)
    requires ReadyOrEnd(msg, v, sig, rest, r) && msg.varOffset == 0 && skippy != msg.outer
    modifies msg, msg.OuterSet()`sigPtr, skippy, msg.rx, msg.rx.data
    ensures if sig == [] then status != OK else status == OK || msg.rx.failed
    ensures status == OK ==> msg.SigMoved(|SigOf(v)|) && msg.bodyBytes <= old(msg.bodyBytes)
    ensures var u := if v.Variant? then v.inner else v; var at := old(msg.rx.readPos);
      var end := at + |Enc(v, at)|; status == OK ==>
      && Opened(msg, skippy, u, end, old(msg.bodyBytes) - |Enc(v, at)|, r) && (msg.varOffset == 0 <==> !u.Variant?)
      && (u.Variant? ==> msg.rx.readPos < end)
  {
    hide ParseArg, CStr, Enc, EncAll, SigOf, SigsOf, WellFormed, KindOf, Scan;
    ghost var at := msg.rx.readPos;
    status := ReadSkippy(msg, skippy, v, sig, rest, r);
    if status == OK && msg.varOffset != 0 {
      status := SkipVariant(msg, skippy, v, at, r);
    }
  }

  lemma SkippableCases(v: Value)
    ensures v.Variant? ==> (Skippable(v) <==> !v.inner.Variant? && Skippable(v.inner))
    ensures v.Scalar? || v.Str? || v.Arr? ==> Skippable(v)
  {
  }

  /** The rest of AJ_SkipArg: a container's contents are skipped as well. */
  method SkipRest(msg: Message, skippy: Arg, ghost u: Value, ghost end: nat, ghost bodyEnd: nat, ghost r: seq<byte>)
    returns (status: Status)
    requires Opened(msg, skippy, u, end, bodyEnd, r) && skippy != msg.outer && (msg.varOffset == 0 <==> !u.Variant?)
    modifies msg, skippy, msg.rx, msg.rx.data
    ensures status == OK || msg.rx.failed || !Skippable(u)
    ensures status == OK ==> msg.ValidRx() && r == msg.rx.Received() && msg.bodyBytes <= old(msg.bodyBytes)
    ensures status == OK ==>
      && msg.outer == old(msg.outer) && msg.signature == old(msg.signature) && !msg.scalarAsElement
      && msg.hdr == old(msg.hdr) && msg.open == old(msg.open)
    ensures status == OK ==>
      msg.sigOffset == old(msg.sigOffset) && (msg.varOffset == 0 <==> !u.Variant? && Skippable(u))
    ensures status == OK && !u.Variant? && Skippable(u) ==> msg.rx.readPos == end && msg.bodyBytes == bodyEnd
    ensures status == OK && !u.Variant? && !Skippable(u) ==> msg.bodyBytes > bodyEnd
    ensures status == OK && u.Variant? ==> msg.bodyBytes == old(msg.bodyBytes)
    decreases u, 3
  {
    hide ParseArg, CStr, Enc, EncAll, SigOf, SigsOf, WellFormed, KindOf, Skippable;
    KindOfFirst(u);
    SkippableCases(u);
    if KindOf(skippy.d.typeId) == NoKind {
      return ErrSignature;
    }
    status := OK;
    if KindOf(skippy.d.typeId).ContainerKind? {
      status := SkipContainer(msg, skippy, u, end, bodyEnd, r);
    }
  }

  /** The first AJ_UnmarshalArg of AJ_SkipArg. */
  method ReadSkippy(msg: Message, skippy: Arg, ghost v: Value, ghost sig: seq<byte>, ghost rest: seq<byte>,
                    ghost r: seq<byte>)
    returns (status: Status)
    requires ReadyOrEnd(msg, v, sig, rest, r) && msg.varOffset == 0 && skippy != msg.outer
    modifies msg, msg.OuterSet()`sigPtr, skippy, msg.rx, msg.rx.data
    ensures if sig == [] then status != OK else status == OK || msg.rx.failed
    ensures status == OK ==>
      msg.SigMoved(|SigOf(v)|) && (msg.varOffset == 0 <==> !v.Variant?) && msg.bodyBytes <= old(msg.bodyBytes)
    ensures var at := old(msg.rx.readPos); var end := at + |Enc(v, at)|; status == OK ==>
      && Opened(msg, skippy, v, end, old(msg.bodyBytes) - |Enc(v, at)|, r)
      && (v.Variant? ==> msg.rx.readPos == at + |SigOf(v.inner)| + 2 && msg.varOffset == |SigOf(v.inner)| + 1)
  {
    hide ParseArg, CStr, Enc, EncAll, SigOf, SigsOf, KindOf, Scan;
    ghost var at := msg.rx.readPos;
    if sig != [] {
      ReadFirst(v, rest, r, at);
    }
    status := msg.UnmarshalArg(skippy, sig, r);
    if status == OK {
      KindOfFirst(v);
    }
  }

  lemma KindOfFirst(u: Value)
    requires WellFormed(u)
    ensures KindOf(ARG_ARRAY).ContainerKind? && KindOf(STRUCT_OPEN).ContainerKind? && KindOf(DICT_OPEN).ContainerKind?
    ensures KindOf(ARG_VARIANT).VariantKind?
    ensures u.Scalar? ==> KindOf(SigOf(u)[0]).ScalarKind?
    ensures u.Str? ==> KindOf(SigOf(u)[0]).StringKind?
  {
    SigParts(u);
  }

  /** The first argument of a variant's value, after the variant's own. */
  method SkipVariant(msg: Message, skippy: Arg, ghost v: Value, ghost at: nat, ghost r: seq<byte>)
    returns (status: Status)
    requires v.Variant? && WellFormed(v) && At(r, at, Enc(v, at)) && |Enc(v, at)| < 0x1_0000
    requires msg.ValidRx() && !msg.scalarAsElement && skippy != msg.outer && r == msg.rx.Received()
    requires msg.rx.readPos == at + |SigOf(v.inner)| + 2 && msg.varOffset == |SigOf(v.inner)| + 1
    requires at + |Enc(v, at)| <= msg.rx.data.Length && at + |Enc(v, at)| - msg.rx.readPos <= msg.bodyBytes
    modifies msg, msg.OuterSet()`sigPtr, skippy, msg.rx, msg.rx.data
    ensures old(msg.rx.failed) ==> msg.rx.failed
    ensures status == OK || msg.rx.failed
    ensures status == OK ==>
      msg.SigMoved(0) && (msg.varOffset == 0 <==> !v.inner.Variant?) && msg.bodyBytes <= old(msg.bodyBytes)
    ensures status == OK && v.inner.Variant? ==> msg.rx.readPos < at + |Enc(v, at)|
    ensures status == OK ==>
      Opened(msg, skippy, v.inner, at + |Enc(v, at)|, old(msg.bodyBytes) - (at + |Enc(v, at)| - old(msg.rx.readPos)), r)
  {
    hide ParseArg, CStr, Enc, EncAll, SigOf, SigsOf, WellFormed, KindOf;
    ghost var vsig := SigOf(v.inner);
    VariantParsed(v, [], false, r, at);
    VariantShape(v, at, SigOf(v), []);
    VariantSigAt(msg.rx.data[..msg.rx.writePos], msg.rx.incoming, at + 1, v.inner);
    assert vsig + [] == vsig;
    ReadFirst(v.inner, [], r, msg.rx.readPos);
    if v.inner.Variant? {
      VariantShape(v.inner, msg.rx.readPos, vsig, []);
      EncNonEmpty(v.inner.inner, msg.rx.readPos + |SigOf(v.inner.inner)| + 2);
    }
    status := msg.UnmarshalArg(skippy, vsig, r);
    KindOfFirst(v.inner);
  }

  /** The container part of AJ_SkipArg. */
  method SkipContainer(msg: Message, skippy: Arg, ghost u: Value, ghost end: nat, ghost bodyEnd: nat,
                       ghost r: seq<byte>)
    returns (status: Status)
    requires Opened(msg, skippy, u, end, bodyEnd, r) && skippy != msg.outer && msg.varOffset == 0
    requires u.Struct? || (u.Arr? && !KindOf(u.elemSig[0]).ScalarKind?)
    modifies msg, skippy, msg.rx, msg.rx.data
    ensures status == OK || msg.rx.failed || !Skippable(u)
    ensures status == OK ==> msg.ValidRx() && r == msg.rx.Received() && msg.bodyBytes <= old(msg.bodyBytes)
    ensures status == OK ==>
      && msg.outer == old(msg.outer) && msg.signature == old(msg.signature) && !msg.scalarAsElement
      && msg.hdr == old(msg.hdr) && msg.open == old(msg.open)
    ensures status == OK ==> msg.sigOffset == old(msg.sigOffset) && (msg.varOffset == 0 <==> Skippable(u))
    ensures status == OK && Skippable(u) ==> msg.rx.readPos == end && msg.bodyBytes == bodyEnd
    ensures status == OK && !Skippable(u) ==> msg.bodyBytes > bodyEnd
    decreases u, 2
  {
    hide ParseArg, CStr, Enc, EncAll, SigOf, SigsOf, WellFormed, Skippable;
    Inside(u);
    skippy.container := msg.outer;
    msg.outer := skippy;
    if skippy.d.typeId == ARG_ARRAY {
      status := msg.rx.LoadBytes(skippy.d.len, 0);
      if status == OK {
        msg.rx.readPos := msg.rx.readPos + skippy.d.len;
        msg.bodyBytes := msg.bodyBytes - skippy.d.len;
      }
    } else {
      status := SkipFields(msg, skippy, u, end, bodyEnd, r);
    }
    if status == OK {
      status := msg.UnmarshalCloseContainer(skippy);
    }
    msg.outer := skippy.container;
  }

  lemma Inside(u: Value)
    requires WellFormed(u) && |SigOf(u)| < 256
    ensures u.Struct? ==> u.fields[0..] == u.fields && forall i :: 0 <= i < |u.fields| ==>
      WellFormed(u.fields[i]) && |SigOf(u.fields[i])| < 256
    ensures u.Struct? ==> (Skippable(u) <==> forall i :: 0 <= i < |u.fields| ==> Skippable(u.fields[i]))
    ensures u.Struct? ==> u.fields[|u.fields|..] == [] && SigsOf([]) == [] && forall at: nat :: EncAll([], at) == []
    ensures u.Arr? ==> Skippable(u)
  {
    if u.Struct? {
      StructSig(u, SigOf(u), []);
    }
  }

  /** The state in the middle of skipping a struct: the fields `vs` are left. */
  ghost predicate FieldsLeft(msg: Message, skippy: Arg, u: Value, k: nat, end: nat, bodyEnd: nat, r: seq<byte>)
    requires u.Struct? && k <= |u.fields|
    reads msg, msg.rx, msg.rx.data, msg.outer, skippy
  {
    var vs := u.fields[k..];
    && msg.ValidRx() && !msg.scalarAsElement && r == msg.rx.Received() && msg.outer == skippy
    && skippy.d.typeId == Open(u.dict) && SigsOf(vs) + [Close(u.dict)] <= skippy.sigPtr
    && (msg.varOffset == 0 <==> forall i :: 0 <= i < k ==> Skippable(u.fields[i]))
    && (msg.varOffset == 0 ==> AllWaiting(msg, vs, r))
    && (msg.varOffset == 0 ==> msg.rx.readPos + |EncAll(vs, msg.rx.readPos)| == end)
    && (msg.varOffset == 0 ==> msg.bodyBytes == bodyEnd + (end - msg.rx.readPos))
    && (msg.varOffset != 0 ==> msg.bodyBytes > bodyEnd)
  }

  /** The fields of a struct are skipped one by one, up to its closing bracket. */
  method SkipFields(msg: Message, skippy: Arg, ghost u: Value, ghost end: nat, ghost bodyEnd: nat, ghost r: seq<byte>)
    returns (status: Status)
    requires u.Struct? && FieldsLeft(msg, skippy, u, 0, end, bodyEnd, r) && msg.varOffset == 0
    modifies msg, skippy`sigPtr, msg.rx, msg.rx.data
    ensures status == OK || msg.rx.failed || !Skippable(u)
    ensures status == OK ==>
      FieldsLeft(msg, skippy, u, |u.fields|, end, bodyEnd, r) && msg.bodyBytes <= old(msg.bodyBytes)
    ensures status == OK ==>
      && msg.signature == old(msg.signature) && msg.sigOffset == old(msg.sigOffset)
      && msg.hdr == old(msg.hdr) && msg.open == old(msg.open)
    decreases u, 1
  {
    hide Skippable;
    status := OK;
    ghost var k := 0;
    var close := Close(skippy.d.typeId == DICT_OPEN);
    while skippy.sigPtr == [] || skippy.sigPtr[0] != close
      invariant status == OK && k <= |u.fields| && FieldsLeft(msg, skippy, u, k, end, bodyEnd, r)
      invariant msg.bodyBytes <= old(msg.bodyBytes)
      invariant
        && msg.signature == old(msg.signature) && msg.sigOffset == old(msg.sigOffset)
        && msg.hdr == old(msg.hdr) && msg.open == old(msg.open)
      decreases |u.fields| - k
    {
      status := SkipField(msg, skippy, u, k, end, bodyEnd, r);
      if status != OK {
        break;
      }
      k := k + 1;
    }
    AllFields(u);
  }

  lemma AllFields(u: Value)
    requires u.Struct?
    ensures Skippable(u) <==> forall i :: 0 <= i < |u.fields| ==> Skippable(u.fields[i])
  {
  }

  method SkipField(msg: Message, skippy: Arg, ghost u: Value, ghost k: nat, ghost end: nat, ghost bodyEnd: nat,
                   ghost r: seq<byte>)
    returns (status: Status)
    requires u.Struct? && k <= |u.fields| && FieldsLeft(msg, skippy, u, k, end, bodyEnd, r)
    requires skippy.sigPtr == [] || skippy.sigPtr[0] != Close(u.dict)
    modifies msg, skippy`sigPtr, msg.rx, msg.rx.data
    ensures status == OK || msg.rx.failed || exists i :: 0 <= i < |u.fields| && !Skippable(u.fields[i])
    ensures status == OK ==>
      k < |u.fields| && FieldsLeft(msg, skippy, u, k + 1, end, bodyEnd, r) && msg.bodyBytes <= old(msg.bodyBytes)
    ensures status == OK ==>
      && msg.signature == old(msg.signature) && msg.sigOffset == old(msg.sigOffset)
      && msg.hdr == old(msg.hdr) && msg.open == old(msg.open)
    decreases u, 0, 0
  {
    hide ParseArg, CStr, Enc, EncAll, SigOf, SigsOf, WellFormed, Skippable, KindOf, Scan, PadTo;
    ghost var vs := u.fields[k..];
    ghost var at := msg.rx.readPos;
    ghost var tail := Drop(skippy.sigPtr, |SigsOf(vs)|);
    HeadAndRest(vs, at, tail);
    assert k < |u.fields|;
    assert skippy.sigPtr == SigsOf(vs) + tail;
    assert u.fields[k + 1..] == vs[1..];
    if msg.varOffset == 0 {
      SigNotClose(vs[0]);
      AtSplit(r, at, Enc(vs[0], at), EncAll(vs[1..], at + |Enc(vs[0], at)|));
    }
    status := SkipArg(msg, vs[0], skippy.sigPtr, SigsOf(vs[1..]) + tail, r);
    if status == OK {
      DropSum(SigOf(vs[0]), SigsOf(vs[1..]) + tail);
    }
  }
}
