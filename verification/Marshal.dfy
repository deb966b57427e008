/**
 Argument-level marshaling: AJ_MarshalArg, AJ_MarshalContainer, AJ_MarshalCloseContainer and
 AJ_MarshalVariant.  A signature pointer is the rest of the string it points into; a pointer
 into the buffer is an offset; a pointer to a caller's value is the octets it points to.
 */
module Marshaling {
  import opened Common
  import opened Wire
  import opened IoBuf
  import opened Args
  import opened Layout

  /** The half of AJ_Message that marshaling uses. */
  class Message {
    const tx: IoBuffer
    /** The header is still in the transmit buffer. */
    var hdr: bool
    var signature: seq<byte>
    var sigOffset: nat
    var varOffset: nat
    var bodyBytes: nat
    var outer: Arg?
    /** Where the body starts in the buffer. */
    ghost var bodyStart: nat

    constructor (tx: IoBuffer, signature: seq<byte>)
      ensures this.tx == tx && hdr && this.signature == signature
      ensures sigOffset == varOffset == bodyBytes == 0 && outer == null && bodyStart == tx.writePos
    {
      this.tx, this.signature, hdr := tx, signature, true;
      sigOffset, varOffset, bodyBytes, outer := 0, 0, 0, null;
      bodyStart := tx.writePos;
    }

    /** A message being marshaled, its body length agreeing with the buffer. */
    ghost predicate ValidTx()
      reads this, tx
    {
      && tx.InBounds()
      && hdr
      && |signature| < 256 && sigOffset <= |signature| && varOffset < 256
      && (varOffset != 0 ==> varOffset <= tx.writePos)
      && bodyStart + bodyBytes == tx.writePos
    }

    ghost function OuterSet(): set<Arg>
      reads this
    {
      if outer == null then {} else {outer}
    }

    /** The signature the next argument is marshaled against. */
    function TxSig(): seq<byte>
      requires ValidTx()
      reads this, tx, tx.data, outer
    {
      if varOffset != 0 then CStr(tx.data[..tx.writePos], tx.writePos - varOffset)
      else if outer != null then outer.sigPtr
      else signature[sigOffset..]
    }

    /** The signature an argument is read against has moved on by `n` octets; `o` was the innermost container. */
    twostate predicate Moved(o: Arg?, n: nat)
      reads this, o
    {
      && signature == old(signature)
      && sigOffset == old(sigOffset) + (if old(varOffset) == 0 && o == null then n else 0)
      && (o != null ==>
            o.sigPtr == if old(varOffset) == 0 && o.d.typeId != ARG_ARRAY then Drop(old(o.sigPtr), n)
              else old(o.sigPtr))
    }

    /** As Moved, the innermost container having stayed the same. */
    twostate predicate SigMoved(n: nat)
      reads this, outer
    {
      outer == old(outer) && Moved(outer, n)
    }

    method MarshalScalar(arg: Arg, sig: seq<byte>) returns (status: Status, rest: seq<byte>)
      requires tx.InBounds() && hdr && arg.d.Points() && KindOf(arg.d.typeId).ScalarKind? && !arg.d.arrayFlag
      modifies tx`readPos, tx`writePos, tx`sent, tx`sends, tx`failed, tx.data
      ensures tx.InBounds() && old(tx.writePos) <= tx.writePos && tx.sent == old(tx.sent)
      ensures rest == sig[Min(1, |sig|)..]
      ensures var oct := ScalarOctets(arg.d.typeId, arg.d.val[..ScalarSize(arg.d.typeId)], old(tx.writePos));
        && (status == OK <==> sig != [] && sig[0] == arg.d.typeId && |oct| <= old(tx.Space()))
        && (status == OK ==> tx.Bytes() == old(tx.Bytes()) + oct)
      ensures status == OK ==>
        NumberSize(arg.d.typeId) <= |arg.d.val|
          && Placed(old(tx.Bytes()), arg.d.typeId, arg.d.val[..NumberSize(arg.d.typeId)], tx.Bytes())
    {
      var typeId := if sig == [] then ARG_INVALID else sig[0];
      var pad := PadFor(typeId, tx.writePos);
      rest := sig[Min(1, |sig|)..];
      if typeId != arg.d.typeId {
        return ErrMarshal, rest;
      }
      var sz := ScalarSize(typeId);
      KindsAre(typeId);
      PadStands(typeId, 0, 0);
      PlacedPad(tx.Bytes(), typeId, arg.d.val[..sz]);
      status := tx.WriteBytes(hdr, arg.d.val[..sz], pad);
    }

    method MarshalFlatArray(arg: Arg, sig: seq<byte>) returns (status: Status, rest: seq<byte>)
      requires tx.InBounds() && hdr && arg.d.Points() && KindOf(arg.d.typeId).ScalarKind? && arg.d.arrayFlag
      modifies tx`readPos, tx`writePos, tx`sent, tx`sends, tx`failed, tx.data
      ensures tx.InBounds() && old(tx.writePos) <= tx.writePos && tx.sent == old(tx.sent)
      ensures |rest| <= |sig| && (status == OK ==> |sig| >= 2 && rest == sig[2..])
      ensures var oct := FlatArrayOctets(arg.d.typeId, arg.d.val[..arg.d.len], old(tx.writePos));
        && (status == OK <==> |sig| >= 2 && sig[0] == ARG_ARRAY && sig[1] == arg.d.typeId && |oct| <= old(tx.Space()))
        && (status == OK ==> tx.Bytes() == old(tx.Bytes()) + oct)
      ensures status == OK ==>
        exists pre :: Placed(old(tx.Bytes()), 97, U32(arg.d.len), pre)
          && Placed(pre, arg.d.typeId, arg.d.val[..arg.d.len], tx.Bytes())
    {
      ghost var b := tx.Bytes();
      FlatStands(b, arg.d.typeId, U32(arg.d.len), arg.d.val[..arg.d.len]);
      hide PadFor, U32, Placed;
      var typeId := if sig == [] then ARG_INVALID else sig[0];
      var pad := PadFor(typeId, tx.writePos);
      rest := sig[Min(1, |sig|)..];
      if typeId != ARG_ARRAY || rest == [] || rest[0] != arg.d.typeId {
        return ErrMarshal, rest;
      }
      rest := rest[1..];
      status := tx.WriteBytes(hdr, U32(arg.d.len), pad);
      if status == OK {
        pad := PadFor(arg.d.typeId, tx.writePos);
        status := tx.WriteBytes(hdr, arg.d.val[..arg.d.len], pad);
      }
    }

    /** An array in one piece as it is written, in numbers. */
    lemma FlatStands(b: seq<byte>, t: byte, l: seq<byte>, s: seq<byte>)
      requires KindOf(t).ScalarKind? && |l| == 4
      ensures var pre := b + (Zeros(PadFor(97, |b|)) + l);
        && Placed(b, 97, l, pre) && Placed(pre, t, s, pre + (Zeros(PadFor(t, |pre|)) + s))
        && |pre| == |b| + PadFor(97, |b|) + 4
    {
      hide PadFor, Placed;
      PadStands(t, 0, 0);
      PlacedPad(b, 97, l);
      PlacedPad(b + (Zeros(PadFor(97, |b|)) + l), t, s);
    }

    /** A padded length field, the string, and the NUL the wire wants after it. */
    method WriteString(lenField: seq<byte>, pad: nat, s: seq<byte>) returns (status: Status, lenWritten: bool)
      requires tx.InBounds() && hdr
      modifies tx`readPos, tx`writePos, tx`sent, tx`sends, tx`failed, tx.data
      ensures tx.InBounds() && old(tx.writePos) <= tx.writePos && tx.sent == old(tx.sent)
      ensures status == OK <==> pad + |lenField| + |s| + 1 <= old(tx.Space())
      ensures status == OK ==> lenWritten && tx.Bytes() == old(tx.Bytes()) + (Zeros(pad) + lenField + s + [0])
    {
      status := tx.WriteBytes(hdr, lenField, pad);
      lenWritten := status == OK;
      if status == OK {
        status := tx.WriteBytes(hdr, s, 0);
        if status == OK {
          status := tx.WriteBytes(hdr, [], 1);
          if status == OK {
            ThreeWrites(old(tx.Bytes()), Zeros(pad) + lenField, s);
          }
        }
      }
    }

    lemma ThreeWrites(b: seq<byte>, l: seq<byte>, s: seq<byte>)
      ensures b + l + (Zeros(0) + s) + (Zeros(1) + []) == b + (l + s + [0])
    {
      assert Zeros(0) + s == s && Zeros(1) + [] == [0];
    }

    method MarshalString(arg: Arg, sig: seq<byte>) returns (status: Status, rest: seq<byte>)
      requires tx.InBounds() && hdr && arg.d.Points() && !KindOf(arg.d.typeId).ScalarKind?
      requires sig != [] && (KindOf(sig[0]).StringKind? || KindOf(sig[0]).VariantKind?)
      modifies this`varOffset, tx`readPos, tx`writePos, tx`sent, tx`sends, tx`failed, tx.data
      ensures tx.InBounds() && old(tx.writePos) <= tx.writePos && tx.sent == old(tx.sent)
      ensures rest == sig[1..]
      ensures var oct := StringOctets(sig[0], arg.d.StrVal(), old(tx.writePos));
        && (status == OK <==> sig[0] == arg.d.typeId && (AlignOf(sig[0]) == 1 ==>
             arg.d.StrLen() < 256) && |oct| <= old(tx.Space()))
        && (status == OK ==> tx.Bytes() == old(tx.Bytes()) + oct)
      ensures status == OK ==> StringPlaced(old(tx.Bytes()), sig[0], arg.d.StrVal(), tx.Bytes())
      ensures status == OK && sig[0] == ARG_VARIANT ==> varOffset <= tx.writePos
      ensures status == OK ==> varOffset == if sig[0] == ARG_VARIANT then (arg.d.StrLen() + 1) % 256 else old(varOffset)
    {
      var typeId := sig[0];
      StringStands(tx.Bytes(), typeId, arg.d.StrVal());
      hide StringPlaced;
      var pad := PadFor(typeId, tx.writePos);
      rest := sig[1..];
      if typeId != arg.d.typeId {
        return ErrMarshal, rest;
      }
      var sz := arg.d.StrLen();
      var lenWritten: bool;
      if AlignOf(typeId) == 1 {
        if sz > 255 {
          return ErrMarshal, rest;
        }
        status, lenWritten := WriteString([sz % 256], pad, arg.d.StrVal());
      } else {
        status, lenWritten := WriteString(U32(sz), pad, arg.d.StrVal());
      }
      if lenWritten && typeId == ARG_VARIANT {
        varOffset := (sz + 1) % 256;
      }
    }

    /** A string as it is written, in numbers. */
    lemma StringStands(b: seq<byte>, t: byte, s: seq<byte>)
      requires KindOf(t).StringKind? || KindOf(t).VariantKind?
      ensures |s| < 256 || AlignOf(t) != 1 ==> StringPlaced(b, t, s, b + StringOctets(t, s, |b|))
    {
      hide KindOf, PadFor, Placed, U32;
      KindsAre(t);
      var l := if AlignOf(t) == 1 then [|s| % 256] else U32(|s|);
      Assoc(Zeros(PadFor(t, |b|)), l, s);
      Assoc(Zeros(PadFor(t, |b|)), l + s, [0]);
      PlacedPad(b, t, l + s + [0]);
    }

    method WritePad(pad: nat) returns (status: Status)
      requires tx.InBounds() && hdr
      modifies tx`readPos, tx`writePos, tx`sent, tx`sends, tx`failed, tx.data
      ensures tx.InBounds() && old(tx.writePos) <= tx.writePos && tx.sent == old(tx.sent)
      ensures status == OK <==> pad <= old(tx.Space())
      ensures status == OK ==> tx.Bytes() == old(tx.Bytes()) + Zeros(pad)
    {
      status := tx.WriteBytes(hdr, [], pad);
      assert Zeros(pad) + [] == Zeros(pad);
    }

    /** Leaves room for an array's length and aligns the buffer for the first element. */
    method ReserveLength(pad: nat, elem: byte) returns (status: Status, lenPos: nat)
      requires tx.InBounds() && hdr
      modifies tx`readPos, tx`writePos, tx`sent, tx`sends, tx`failed, tx.data
      ensures tx.InBounds() && old(tx.writePos) <= tx.writePos && tx.sent == old(tx.sent)
      ensures status == OK <==> pad + 4 + PadFor(elem, old(tx.writePos) + pad + 4) <= old(tx.Space())
      ensures status == OK ==>
        tx.Bytes() == old(tx.Bytes()) + (Zeros(pad + 4) + Zeros(PadFor(elem, old(tx.writePos) + pad + 4)))
      ensures status == OK ==> lenPos == old(tx.writePos) + pad
    {
      lenPos := 0;
      status := WritePad(pad + 4);
      if status == OK {
        lenPos := tx.writePos - 4;
        status := WritePad(PadFor(elem, tx.writePos));
      }
    }

    /** MarshalContainer: room for an array's length, or the padding before a struct. */
    method MarshalContainerArg(arg: Arg, sig: seq<byte>) returns (status: Status, rest: seq<byte>)
      requires tx.InBounds() && hdr && sig != [] && KindOf(sig[0]).ContainerKind?
      modifies arg`sigPtr, arg`pos, tx`readPos, tx`writePos, tx`sent, tx`sends, tx`failed, tx.data
      ensures tx.InBounds() && old(tx.writePos) <= tx.writePos && tx.sent == old(tx.sent)
      ensures CompleteTypeSigLen(sig) <= |sig| && rest == sig[CompleteTypeSigLen(sig)..]
      ensures arg.sigPtr == sig[1..]
      ensures var oct := OpenOctets(sig, old(tx.writePos));
        && (status == OK <==> |oct| <= old(tx.Space()))
        && (status == OK ==> tx.Bytes() == old(tx.Bytes()) + oct)
      ensures status == OK && sig[0] == ARG_ARRAY ==> arg.pos == old(tx.writePos) + PadFor(ARG_ARRAY, old(tx.writePos))
    {
      hide Scan, PadFor;
      var pad := PadFor(sig[0], tx.writePos);
      arg.sigPtr := sig[1..];
      if sig[0] == ARG_ARRAY {
        var lenPos;
        status, lenPos := ReserveLength(pad, if arg.sigPtr == [] then ARG_INVALID else arg.sigPtr[0]);
        arg.pos := lenPos;
      } else {
        status := WritePad(pad);
      }
      SigLenBound(sig);
      rest := sig[CompleteTypeSigLen(sig)..];
    }

    /** Marshal: the argument's octets, if it is what the signature asks for. */
    method Marshal(sig: seq<byte>, arg: Arg) returns (status: Status, rest: seq<byte>)
      requires tx.InBounds() && hdr && arg.d.Points()
      modifies this`varOffset, arg`sigPtr, arg`pos, tx`readPos, tx`writePos, tx`sent, tx`sends, tx`failed, tx.data
      ensures tx.InBounds() && old(tx.writePos) <= tx.writePos && tx.sent == old(tx.sent)
      ensures var oct := arg.d.Octets(sig, old(tx.writePos));
        && (status == OK <==> arg.d.Accepted(sig) && |oct| <= old(tx.Space()))
        && (status == OK ==> tx.Bytes() == old(tx.Bytes()) + oct)
      ensures |rest| <= |sig|
      ensures status == OK ==> arg.d.Consumed(sig) <= |sig| && rest == sig[arg.d.Consumed(sig)..]
      ensures status == OK && varOffset != old(varOffset) ==> varOffset <= tx.writePos
      ensures status == OK && old(varOffset) == 0 ==> varOffset == arg.d.VarOffset()
      ensures status == OK && KindOf(arg.d.typeId).ContainerKind? ==> arg.sigPtr == sig[1..]
      ensures status == OK && arg.d.typeId == ARG_ARRAY ==>
        arg.pos == old(tx.writePos) + PadFor(ARG_ARRAY, old(tx.writePos))
    {
      var typeId := if sig == [] then ARG_INVALID else sig[0];
      rest := sig[Min(1, |sig|)..];
      if KindOf(arg.d.typeId).ScalarKind? {
        if arg.d.arrayFlag {
          status, rest := MarshalFlatArray(arg, sig);
        } else {
          status, rest := MarshalScalar(arg, sig);
        }
      } else if KindOf(typeId).StringKind? || KindOf(typeId).VariantKind? {
        status, rest := MarshalString(arg, sig);
      } else if KindOf(typeId).ContainerKind? {
        if typeId != arg.d.typeId {
          return ErrMarshal, rest;
        }
        status, rest := MarshalContainerArg(arg, sig);
      } else {
        status := ErrMarshal;
      }
    }

    /** AJ_MarshalArg; `sig` is the signature the argument is marshaled against. */
    method MarshalArg(arg: Arg, ghost sig: seq<byte>) returns (status: Status)
      requires ValidTx() && arg.d.Points() && arg != outer && sig == TxSig()
      modifies this`varOffset, this`sigOffset, this`bodyBytes, arg`sigPtr, arg`pos, OuterSet()`sigPtr
      modifies tx`readPos, tx`writePos, tx`sent, tx`sends, tx`failed, tx.data
      ensures tx.sent == old(tx.sent)
      ensures status == OK <==> arg.d.Accepted(sig) && |arg.d.Octets(sig, old(tx.writePos))| <= old(tx.Space())
      ensures status == OK ==> ValidTx() && tx.Bytes() == old(tx.Bytes()) + arg.d.Octets(sig, old(tx.writePos))
      ensures status == OK ==> SigMoved(arg.d.Consumed(sig)) && varOffset == arg.d.VarOffset()
      ensures status == OK && KindOf(arg.d.typeId).ContainerKind? ==> arg.sigPtr == sig[1..]
      ensures status == OK && arg.d.typeId == ARG_ARRAY ==>
        arg.pos == old(tx.writePos) + PadFor(ARG_ARRAY, old(tx.writePos))
    {
      hide ArgData.Octets, ArgData.Accepted, ArgData.Consumed, ArgData.VarOffset, CStr;
      var argStart := tx.writePos;
      var argSig := TxSig();
      var ofVariant := varOffset != 0;
      if !ofVariant && argSig == [] {
        return ErrEndOfData;
      }
      varOffset := 0;
      var rest;
      status, rest := Marshal(argSig, arg);
      if !ofVariant {
        AdvanceTx(rest);
      }
      if status == OK {
        bodyBytes := (bodyBytes + (tx.writePos - argStart)) % 0x1_0000;
      }
    }

    /** Only a struct's or the message's own signature moves on; all elements of an array share theirs. */
    method AdvanceTx(rest: seq<byte>)
      requires outer == null ==> |rest| <= |signature| < 256
      modifies this`sigOffset, OuterSet()`sigPtr
      ensures outer == null ==> sigOffset == |signature| - |rest|
      ensures outer != null ==> sigOffset == old(sigOffset)
      ensures outer != null ==> outer.sigPtr == if outer.d.typeId != ARG_ARRAY then rest else old(outer.sigPtr)
    {
      if outer != null {
        if outer.d.typeId != ARG_ARRAY {
          outer.sigPtr := rest;
        }
      } else {
        sigOffset := (|signature| - |rest|) % 256;
      }
    }

    /** AJ_MarshalContainer: opens a container and makes it the innermost one. */
    method MarshalContainer(arg: Arg, typeId: byte, ghost sig: seq<byte>) returns (status: Status)
      requires ValidTx() && typeId in {40, 97, 123} && arg != outer && sig == TxSig()
      modifies this`varOffset, this`sigOffset, this`bodyBytes, this`outer, arg, OuterSet()`sigPtr
      modifies tx`readPos, tx`writePos, tx`sent, tx`sends, tx`failed, tx.data
      ensures tx.sent == old(tx.sent)
      ensures status == OK <==> sig != [] && sig[0] == typeId && |OpenOctets(sig, old(tx.writePos))| <= old(tx.Space())
      ensures status == OK ==> ValidTx() && tx.Bytes() == old(tx.Bytes()) + OpenOctets(sig, old(tx.writePos))
      ensures status == OK ==> outer == arg && arg.container == old(outer) && arg.d == ArgData(typeId, false, 0, [])
      ensures status == OK ==> Moved(old(outer), CompleteTypeSigLen(sig)) && varOffset == 0 && arg.sigPtr == sig[1..]
      ensures status == OK && typeId == ARG_ARRAY ==> arg.pos == old(tx.writePos) + PadFor(ARG_ARRAY, old(tx.writePos))
      ensures status == OK ==> Opened(old(tx.Bytes()), sig, tx.Bytes(), arg.pos)
    {
      hide ArgData.Octets, ArgData.Accepted, ArgData.Consumed, ArgData.VarOffset, ArgData.Points, CStr, Scan, KindOf,
           PadTo, PadFor, Drop, Opened, OpenOctets, CompleteTypeSigLen, TxSig;
      var d := ArgData(typeId, false, 0, []);
      OpenAccepted(d, sig, tx.writePos);
      OpenPlaced(tx.Bytes(), sig);
      arg.d, arg.pos, arg.sigPtr, arg.container := d, 0, [], null;
      status := MarshalArg(arg, sig);
      if status == OK {
        arg.container := outer;
        outer := arg;
      }
    }

    /** What a container's argument asks for and writes. */
    lemma OpenAccepted(d: ArgData, sig: seq<byte>, off: nat)
      requires d.typeId in {40, 97, 123} && d == ArgData(d.typeId, false, 0, [])
      ensures KindOf(d.typeId).ContainerKind? && d.Points() && d.VarOffset() == 0
      ensures d.Accepted(sig) <==> sig != [] && sig[0] == d.typeId
      ensures d.Octets(sig, off) == OpenOctets(sig, off) && d.Consumed(sig) == CompleteTypeSigLen(sig)
    {
      hide OpenOctets, Scan;
    }

    /** What opening a container writes, in numbers. */
    lemma OpenPlaced(b: seq<byte>, sig: seq<byte>)
      ensures sig != [] && sig[0] in {40, 123} ==> forall pos :: Opened(b, sig, b + OpenOctets(sig, |b|), pos)
      ensures sig != [] && sig[0] == 97 ==> Opened(b, sig, b + OpenOctets(sig, |b|), |b| + PadFor(97, |b|))
    {
      hide StandsAt, PadTo, PadFor;
      if sig != [] && sig[0] in {40, 123} {
        PadStands(sig[0], |b|, |b| + PadFor(sig[0], |b|));
      } else if sig != [] && sig[0] == 97 {
        var pos := |b| + PadFor(97, |b|);
        PadStands(97, |b|, pos);
        if |sig| > 1 {
          PadStands(sig[1], pos + 4, pos + 4 + PadFor(sig[1], pos + 4));
        }
      }
    }

    /** Where the first element of an array goes. */
    function ArrayStart(arg: Arg): nat
      reads arg
    {
      arg.pos + 4 + ElemPad(arg.sigPtr, arg.pos + 4)
    }

    /** AJ_MarshalCloseContainer. */
    method MarshalCloseContainer(arg: Arg) returns (status: Status)
      requires ValidTx() && outer == arg && KindOf(arg.d.typeId).ContainerKind?
      requires arg.d.typeId == ARG_ARRAY ==> arg.pos % 4 == 0 && ArrayStart(arg) <= tx.writePos
      requires arg.d.typeId == ARG_ARRAY ==> arg.sigPtr != [] && KindOf(arg.sigPtr[0]) != NoKind
      modifies this`outer, arg`d, tx.data
      ensures ValidTx() && outer == arg.container
      ensures arg.d.typeId == old(arg.d.typeId)
      ensures arg.d == old(arg.d).(len := if arg.d.typeId == ARG_ARRAY then tx.writePos - ArrayStart(arg) else 0)
      ensures arg.d.typeId == ARG_ARRAY ==> status == OK
      ensures arg.d.typeId == ARG_ARRAY ==>
                (tx.Bytes() == old(tx.Bytes())[..arg.pos] + U32(tx.writePos - ArrayStart(arg))
                  + old(tx.Bytes())[arg.pos + 4..])
      ensures arg.d.typeId != ARG_ARRAY ==> tx.Bytes() == old(tx.Bytes())
      ensures arg.d.typeId != ARG_ARRAY ==>
                (status == OK <==> arg.sigPtr != [] && arg.sigPtr[0] == Close(arg.d.typeId == DICT_OPEN))
    {
      hide U32, ElemPad, ClosedLen;
      outer := arg.container;
      status := OK;
      if arg.d.typeId == ARG_ARRAY {
        var len := ClosedLen(arg.pos, tx.writePos, AlignOf(arg.sigPtr[0]));
        ClosedLenIsElements(arg.pos, tx.writePos, arg.sigPtr);
        arg.d := arg.d.(len := len);
        Patch(arg.pos, U32(len));
      } else {
        arg.d := arg.d.(len := 0);
        var next := if arg.sigPtr == [] then ARG_INVALID else arg.sigPtr[0];
        if arg.d.typeId == STRUCT_OPEN && next != STRUCT_CLOSE {
          return ErrSignature;
        }
        if arg.d.typeId == DICT_OPEN && next != DICT_CLOSE {
          return ErrSignature;
        }
      }
    }

    /** Overwrites four octets in the buffer. */
    method Patch(pos: nat, word: seq<byte>)
      requires tx.InBounds() && |word| == 4 && pos + 4 <= tx.writePos
      modifies tx.data
      ensures tx.Bytes() == old(tx.Bytes())[..pos] + word + old(tx.Bytes())[pos + 4..]
    {
      ghost var b := tx.Bytes();
      forall i | 0 <= i < 4 {
        tx.data[pos + i] := word[i];
      }
      assert tx.Bytes() == b[..pos] + word + b[pos + 4..];
    }

    /**
     AJ_MarshalVariant.  The length of the signature plus one is kept in 8 bits, so a signature
     of 255 octets, which the format allows, is forgotten as soon as it is written.
     */
    method MarshalVariant(vsig: seq<byte>, ghost sig: seq<byte>) returns (status: Status)
      requires ValidTx() && sig == TxSig() && (forall i :: 0 <= i < |vsig| ==> vsig[i] != 0)
      modifies this`varOffset, this`sigOffset, this`bodyBytes, OuterSet()`sigPtr
      modifies tx`readPos, tx`writePos, tx`sent, tx`sends, tx`failed, tx.data
      ensures tx.sent == old(tx.sent)
      ensures status == OK
        <==> CompleteTypeSigLen(vsig) == |vsig| && sig != [] && sig[0] == ARG_VARIANT && |vsig| + 2 <= old(tx.Space())
      ensures status == OK ==> ValidTx() && SigMoved(1) && tx.Bytes() == old(tx.Bytes()) + ([|vsig| % 256] + vsig + [0])
      ensures status == OK ==> (varOffset != 0 <==> |vsig| <= 254)
      ensures status == OK && |vsig| <= 254 ==> TxSig() == vsig
    {
      if CompleteTypeSigLen(vsig) != |vsig| {
        return ErrUnexpected;
      }
      hide ArgData.Octets, ArgData.Accepted, ArgData.Consumed, ArgData.VarOffset, CStr, Scan, KindOf, PadTo, PadFor,
           Drop, Message.Moved;
      var d := ArgData(ARG_VARIANT, false, 0, vsig);
      var arg := new Arg(d);
      ghost var b := tx.Bytes();
      VariantHeader(d, sig, |b|);
      status := MarshalArg(arg, sig);
      VariantSigBack(b, vsig);
    }

    // ---- Delivery ----

    /** Where MarshalMsg left the fixed header, whose second word is the body length. */
    const BODY_LEN_POS := 4

    /** The third octet of the fixed header. */
    const FLAGS_POS := 2

    /** The flags in the buffer, while the header is there, say that the body is to be encrypted. */
    predicate Encrypted()
      requires tx.InBounds() && tx.writePos > FLAGS_POS
      reads this, tx, tx.data
    {
      tx.data[FLAGS_POS] >= FLAG_ENCRYPTED
    }

    /** Nothing is left of the message. */
    predicate Cleared()
      reads this
    {
      !hdr && signature == [] && sigOffset == varOffset == bodyBytes == 0 && outer == null
    }

    /** AJ_DeliverMsg, for messages that are not encrypted. */
    method DeliverMsg() returns (status: Status)
      requires tx.InBounds() && (hdr ==> ValidTx() && bodyStart >= 16 && !Encrypted())
      modifies this`hdr, this`signature, this`sigOffset, this`varOffset, this`bodyBytes, this`outer, tx, tx.data
      ensures tx.InBounds() && Cleared()
      ensures status == OK || tx.failed || (!old(hdr) && old(bodyBytes) != 0)
      ensures !old(hdr) && old(bodyBytes) != 0 ==> status == ErrMarshal && tx.sent == old(tx.sent)
      ensures !old(hdr) && status == OK ==> tx.sent == old(tx.Written())
      ensures !old(hdr) && old(bodyBytes) == 0 && old(tx.sends) > 0 ==> status == OK
      ensures old(hdr) && status == OK ==>
        (var b := old(tx.Bytes());
          tx.sent == old(tx.sent) + (b[..BODY_LEN_POS] + U32(|b| - bodyStart) + b[BODY_LEN_POS + 4..]))
    {
      hide U32;
      status := OK;
      if hdr {
        Patch(BODY_LEN_POS, U32(bodyBytes));
      } else if bodyBytes != 0 {
        status := ErrMarshal;
      }
      if status == OK {
        status := tx.Send();
      }
      hdr, signature, sigOffset, varOffset, bodyBytes, outer := false, [], 0, 0, 0, null;
    }

    /**
     AJ_DeliverMsgPartial: announces that `bytesRemaining` more octets follow and gives up the
     header.  What is left to write is counted in 16 bits.  A message that is to be encrypted is
     refused.
     */
    method DeliverMsgPartial(bytesRemaining: nat) returns (status: Status)
      requires ValidTx() && outer == null && varOffset == 0 && bodyStart >= 16 && bytesRemaining < 0x1_0000_0000
      requires sigOffset < |signature| ==> KindOf(signature[sigOffset]) != NoKind
      modifies this, tx, tx.data
      ensures tx.InBounds() && tx.sends == old(tx.sends)
      ensures status == if bytesRemaining == 0 then ErrUnexpected
                        else if old(tx.data[2]) >= 128 then ErrSecurity
                        else if old(sigOffset == |signature|) then ErrSignature
                        else if old(PadFor(signature[sigOffset], tx.writePos) > tx.Space()) then ErrResources
                        else OK
      ensures status == OK ==> !hdr && bodyBytes == bytesRemaining % 0x1_0000 && signature == [] && sigOffset == 0
      ensures status != OK ==> hdr && tx.sent == old(tx.sent)
      ensures status == OK ==>
        (var b := old(tx.Bytes()); var pad := PadFor(old(signature)[old(sigOffset)], |b|);
         var whole := b + Zeros(pad);
         tx.sent == old(tx.sent)
         && tx.Bytes() == whole[..BODY_LEN_POS] + U32((|whole| - old(bodyStart) + bytesRemaining) % 0x1_0000_0000)
              + whole[BODY_LEN_POS + 4..])
    {
      hide U32, PadTo;
      var typeId := if sigOffset < |signature| then signature[sigOffset] else ARG_INVALID;
      if bytesRemaining == 0 {
        return ErrUnexpected;
      }
      if Encrypted() {
        return ErrSecurity;
      }
      if typeId == ARG_INVALID {
        return ErrSignature;
      }
      var pad := PadFor(typeId, tx.writePos);
      status := tx.WriteBytes(hdr, [], pad);
      if status != OK {
        return;
      }
      NothingAfter(Zeros(pad));
      Patch(BODY_LEN_POS, U32((bodyBytes + pad + bytesRemaining) % 0x1_0000_0000));
      hdr := false;
      bodyBytes := bytesRemaining % 0x1_0000;
      signature, sigOffset := [], 0;
    }

    /** AJ_MarshalRaw: refuses to write more than was announced. */
    method MarshalRaw(bytes: seq<byte>) returns (status: Status)
      requires tx.InBounds() && (!hdr ==> tx.data.Length > 0)
      modifies this`bodyBytes, tx, tx.data
      ensures tx.InBounds()
      ensures old(hdr) ==> status == ErrUnexpected
      ensures !hdr && |bytes| > old(bodyBytes) ==>
        status == ErrWrite && bodyBytes == old(bodyBytes) && tx.Written() == old(tx.Written())
      ensures !hdr && |bytes| <= old(bodyBytes) ==> status == OK || tx.failed
      ensures !old(hdr) && |bytes| <= old(bodyBytes) && |bytes| <= old(tx.Space()) ==>
        status == OK && tx.sends == old(tx.sends)
      ensures !hdr && status == OK ==>
        tx.InBounds() && bodyBytes == old(bodyBytes) - |bytes| && tx.Written() == old(tx.Written()) + bytes
    {
      if hdr {
        return ErrUnexpected;
      }
      if |bytes| > bodyBytes {
        return ErrWrite;
      }
      bodyBytes := bodyBytes - |bytes|;
      status := tx.WriteBytes(hdr, bytes, 0);
      assert Zeros(0) + bytes == bytes;
    }
  }

  /** The length AJ_MarshalCloseContainer stores for an array whose length field is at `pos`. */
  function ClosedLen(pos: nat, end: nat, align: nat): nat
  {
    var len := (end - pos) % 0x1_0000 - 4;
    if align == 8 && pos % 8 < 4 && len != 0 then (len - 4) % 0x1_0000 else len % 0x1_0000
  }

  /** It counts the elements' octets and nothing else, even when there are no elements. */
  lemma ClosedLenIsElements(pos: nat, end: nat, elemSig: seq<byte>)
    requires pos % 4 == 0 && elemSig != [] && KindOf(elemSig[0]) != NoKind
    requires pos + 4 + ElemPad(elemSig, pos + 4) <= end < 0x1_0000
    ensures ClosedLen(pos, end, AlignOf(elemSig[0])) == end - (pos + 4 + ElemPad(elemSig, pos + 4))
  {
  }

  lemma VariantHeader(d: ArgData, sig: seq<byte>, off: nat)
    requires d.typeId == ARG_VARIANT && d.len == 0 && |d.val| < 256
    ensures d.Octets(sig, off) == [|d.val| % 256] + d.val + [0]
    ensures d.Accepted(sig) <==> sig != [] && sig[0] == ARG_VARIANT
    ensures d.Consumed(sig) == 1 && d.VarOffset() == if |d.val| == 255 then 0 else |d.val| + 1
  {
    assert d.StrVal() == d.val;
    assert Zeros(0) + [|d.val| % 256] == [|d.val| % 256];
  }

  /** The signature is found again at the end of the buffer. */
  lemma VariantSigBack(b: seq<byte>, vsig: seq<byte>)
    requires |vsig| < 256 && forall i :: 0 <= i < |vsig| ==> vsig[i] != 0
    ensures var all := b + ([|vsig| % 256] + vsig + [0]);
      |all| == |b| + |vsig| + 2 && CStr(all, |all| - |vsig| - 1) == vsig
  {
    hide CStr;
    var l: seq<byte> := [|vsig| % 256];
    CStrAt(b + l, vsig, []);
    Assoc(b, l + vsig, [0]);
    Assoc(b, l, vsig);
    NothingAfter(b + l + vsig + [0]);
  }
}
