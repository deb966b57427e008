/**
 The wire format once more, in numbers: which octets are types, where a value of each type starts
 and what stands there (D-Bus Specification, section "Marshaling (Wire Format)").  The table of
 types and alignments that the code keeps is measured against it.
 */
module Layout {
  import opened Common
  import opened Wire

  /** The octets a type can start with. */
  predicate TypeCode(t: byte) {
    t in {40, 97, 98, 100, 103, 104, 105, 110, 111, 113, 115, 116, 117, 118, 120, 121, 123}
  }

  /**
   A value of type `t` that comes after `from` octets starts at `at`: at once (y g v), at the next even
   offset (n q), at the next multiple of 4 (a b h i o s u), or of 8 (d t x and structs).
   */
  predicate StandsAt(t: byte, from: nat, at: nat) {
    && from <= at
    && (t in {103, 118, 121} ==> at == from)
    && (t in {110, 113} ==> at < from + 2 && at % 2 == 0)
    && (t in {97, 98, 104, 105, 111, 115, 117} ==> at < from + 4 && at % 4 == 0)
    && (t in {40, 100, 116, 120, 123} ==> at < from + 8 && at % 8 == 0)
  }

  /** The size of a number on the wire. */
  function NumberSize(t: byte): nat {
    if t == 121 then 1 else if t in {110, 113} then 2 else if t in {98, 104, 105, 117} then 4
    else if t in {100, 116, 120} then 8 else 0
  }

  /** `s` is `pre`, zeros up to where a value of type `t` starts, and `octets`. */
  predicate Placed(pre: seq<byte>, t: byte, octets: seq<byte>, s: seq<byte>) {
    && |pre| + |octets| <= |s| && StandsAt(t, |pre|, |s| - |octets|)
    && s == pre + Zeros(|s| - |octets| - |pre|) + octets
  }

  /** `s` is `pre` and a string of type `t`; paths and strings have a length of four octets, the others one of one. */
  predicate StringPlaced(pre: seq<byte>, t: byte, text: seq<byte>, s: seq<byte>) {
    && t in {103, 111, 115, 118}
    && (t in {111, 115} ==> Placed(pre, t, U32(|text|) + text + [0], s))
    && (t in {103, 118} ==> |text| < 0x100 && s == pre + ([|text|] + text + [0]))
  }

  /**
   `s` is `pre` and what opening a container writes: for a struct its padding, for an array room for the
   length at `pos` and the padding of the first element.
   */
  predicate Opened(pre: seq<byte>, sig: seq<byte>, s: seq<byte>, pos: nat) {
    && sig != [] && sig[0] in {40, 97, 123} && |pre| <= |s| && s == pre + Zeros(|s| - |pre|)
    && (sig[0] != 97 ==> StandsAt(sig[0], |pre|, |s|))
    && (sig[0] == 97 ==> StandsAt(97, |pre|, pos) && pos + 4 <= |s|)
    && (sig[0] == 97 && |sig| > 1 && TypeCode(sig[1]) ==> StandsAt(sig[1], pos + 4, |s|))
  }

  /** What each octet is the type of: numbers, strings, containers and variants. */
  lemma KindsAre(t: byte)
    ensures KindOf(t).ScalarKind? <==> NumberSize(t) > 0
    ensures KindOf(t).ScalarKind? ==> ScalarSize(t) == NumberSize(t)
    ensures KindOf(t).StringKind? <==> t in {103, 111, 115}
    ensures KindOf(t).ContainerKind? <==> t in {40, 97, 123}
    ensures KindOf(t).VariantKind? <==> t == 118
  {
  }

  /** There is one such place, and the padding the code computes leads to it. */
  lemma PadStands(t: byte, off: nat, at: nat)
    ensures KindOf(t) != NoKind <==> TypeCode(t)
    ensures TypeCode(t) ==> (StandsAt(t, off, at) <==> at == off + PadFor(t, off))
  {
    if TypeCode(t) {
      var p := PadFor(t, off);
      PadReaches(t, off);
      if StandsAt(t, off, at) {
        OneMultiple(off, at, off + p, AlignOf(t));
      }
    }
  }

  lemma PadReaches(t: byte, off: nat)
    requires TypeCode(t)
    ensures StandsAt(t, off, off + PadFor(t, off))
  {
    PadAligns(AlignOf(t), off, 0);
  }

  lemma OneMultiple(off: nat, a: nat, b: nat, n: nat)
    requires n in {1, 2, 4, 8} && off <= a < off + n && off <= b < off + n
    requires Aligned(n, a) && Aligned(n, b)
    ensures a == b
  {
    if n == 8 {
      Eights(off, a / 8, b / 8);
    } else if n == 4 {
      Fours(off, a / 4, b / 4);
    } else if n == 2 {
      Twos(off, a / 2, b / 2);
    }
  }

  lemma Eights(off: nat, i: nat, j: nat)
    requires off <= 8 * i < off + 8 && off <= 8 * j < off + 8
    ensures i == j
  {
  }

  lemma Fours(off: nat, i: nat, j: nat)
    requires off <= 4 * i < off + 4 && off <= 4 * j < off + 4
    ensures i == j
  {
  }

  lemma Twos(off: nat, i: nat, j: nat)
    requires off <= 2 * i < off + 2 && off <= 2 * j < off + 2
    ensures i == j
  {
  }

  lemma PlacedPad(pre: seq<byte>, t: byte, octets: seq<byte>)
    requires TypeCode(t)
    ensures Placed(pre, t, octets, pre + (Zeros(PadFor(t, |pre|)) + octets))
  {
    hide PadFor;
    var p := PadFor(t, |pre|);
    PadStands(t, |pre|, |pre| + p);
    Assoc(pre, Zeros(p), octets);
  }

  /** The signatures: a basic type, `v`, `a` and a type, types in brackets or braces, and no others. */
  lemma SigOctets(v: Value)
    ensures match v
      case Scalar(t, _) => SigOf(v) == [t]
      case Str(t, _) => SigOf(v) == [t]
      case Arr(es, _) => SigOf(v) == [97] + es
      case Struct(d, fs) => SigOf(v) == (if d then [123] + SigsOf(fs) + [125] else [40] + SigsOf(fs) + [41])
      case Variant(_) => SigOf(v) == [118]
  {
  }

  /** The first octet of a signature says how its type is built. */
  lemma FirstOctet(ty: Type)
    requires TypeOk(ty)
    ensures match ty
      case Basic(t) => TypeSig(ty) == [t] && t in {98, 100, 103, 104, 105, 110, 111, 113, 115, 116, 117, 120, 121}
      case ArrayOf(e) => TypeSig(ty) == [97] + TypeSig(e)
      case StructOf(d, fs) => TypeSig(ty) == [if d then 123 else 40] + (TypeSigs(fs) + [if d then 125 else 41])
      case VariantOf => TypeSig(ty) == [118]
  {
    if ty.StructOf? {
      Assoc([Open(ty.dict)], TypeSigs(ty.fields), [Close(ty.dict)]);
    }
  }

  /** A signature is that of one type only. */
  lemma {:induction false} SigInjective(a: Type, b: Type)
    requires TypeOk(a) && TypeOk(b) && TypeSig(a) == TypeSig(b)
    ensures a == b
    decreases a, 1
  {
    FirstOctet(a);
    FirstOctet(b);
    hide TypeSig;
    assert TypeSig(a)[0] == TypeSig(b)[0] && TypeSig(a)[1..] == TypeSig(b)[1..];
    match a
    case Basic(_) =>
    case VariantOf =>
    case ArrayOf(e) => SigInjective(e, b.elem);
    case StructOf(d, fs) => FieldsInjective(fs, b.fields, if d then 125 else 41);
  }

  /** No type starts with a closing bracket. */
  lemma NoClose(fs: seq<Type>, close: byte)
    requires (forall i :: 0 <= i < |fs| ==> TypeOk(fs[i])) && close in {41, 125}
    ensures fs == [] ==> (TypeSigs(fs) + [close])[0] == close
    ensures fs != [] ==> (TypeSigs(fs) + [close])[0] != close
  {
    hide TypeSig;
    if fs != [] {
      FirstOctet(fs[0]);
    }
  }

  lemma {:induction false} FieldsInjective(fs: seq<Type>, gs: seq<Type>, close: byte)
    requires (forall i :: 0 <= i < |fs| ==> TypeOk(fs[i])) && forall i :: 0 <= i < |gs| ==> TypeOk(gs[i])
    requires close in {41, 125} && TypeSigs(fs) + [close] == TypeSigs(gs) + [close]
    ensures fs == gs
    decreases fs, 0
  {
    hide TypeSig;
    if fs != [] && gs != [] {
      Assoc(TypeSig(fs[0]), TypeSigs(fs[1..]), [close]);
      Assoc(TypeSig(gs[0]), TypeSigs(gs[1..]), [close]);
      assert CompleteSig(TypeSig(fs[0])) && CompleteSig(TypeSig(gs[0]));
      SigPrefixFree(TypeSig(fs[0]), TypeSig(gs[0]), TypeSigs(fs[1..]) + [close], TypeSigs(gs[1..]) + [close]);
      SigInjective(fs[0], gs[0]);
      FieldsInjective(fs[1..], gs[1..], close);
      HeadTail(fs, gs);
    } else {
      NoClose(fs, close);
      NoClose(gs, close);
    }
  }

  /** `v` is a value of type `ty`: what the wire can carry, type by type. */
  ghost predicate OfType(v: Value, ty: Type)
    decreases v
  {
    match v
    case Scalar(t, bs) => ty == Basic(t) && |bs| == NumberSize(t) > 0
    case Str(t, s) => ty == Basic(t) && ((t in {111, 115} && |s| < 0x1_0000_0000) || (t == 103 && |s| < 0x100))
    case Arr(es, elems) =>
      && ty.ArrayOf? && es == TypeSig(ty.elem) && TypeOk(ty.elem)
      && forall i :: 0 <= i < |elems| ==> OfType(elems[i], ty.elem)
    case Struct(d, fs) =>
      && ty.StructOf? && ty.dict == d && |ty.fields| == |fs| > 0
      && forall i :: 0 <= i < |fs| ==> OfType(fs[i], ty.fields[i])
    case Variant(w) => ty.VariantOf? && exists of :: OfType(w, of) && |TypeSig(of)| < 255
  }

  /** The well-formed values are exactly the values of some type, and their signature is the type's. */
  lemma FormedIff(v: Value)
    ensures WellFormed(v) <==> exists ty :: OfType(v, ty)
    ensures forall ty :: OfType(v, ty) ==> TypeOk(ty) && SigOf(v) == TypeSig(ty)
  {
    if WellFormed(v) {
      var ty := TypeFor(v);
      assert OfType(v, ty);
    }
    forall ty | OfType(v, ty) ensures WellFormed(v) && TypeOk(ty) && SigOf(v) == TypeSig(ty) {
      TypedFormed(v, ty);
    }
  }

  lemma {:induction false} TypeFor(v: Value) returns (ty: Type)
    requires WellFormed(v)
    ensures OfType(v, ty) && TypeSig(ty) == SigOf(v)
    decreases v, 1
  {
    match v
    case Scalar(t, _) => ty := Basic(t);
    case Str(t, _) => ty := Basic(t);
    case Arr(es, elems) =>
      var e :| TypeOk(e) && TypeSig(e) == es;
      forall i | 0 <= i < |elems| ensures OfType(elems[i], e) {
        var u := TypeFor(elems[i]);
        TypedFormed(elems[i], u);
        SigInjective(u, e);
      }
      ty := ArrayOf(e);
    case Struct(d, fs) =>
      var ts := TypesFor(fs);
      ty := StructOf(d, ts);
    case Variant(w) =>
      var u := TypeFor(w);
      ty := VariantOf;
  }

  lemma {:induction false} TypesFor(vs: seq<Value>) returns (ts: seq<Type>)
    requires forall i :: 0 <= i < |vs| ==> WellFormed(vs[i])
    ensures |ts| == |vs| && (forall i :: 0 <= i < |ts| ==> OfType(vs[i], ts[i])) && TypeSigs(ts) == SigsOf(vs)
    decreases vs, 0
  {
    ts := [];
    if vs != [] {
      var t := TypeFor(vs[0]);
      var us := TypesFor(vs[1..]);
      ts := [t] + us;
      assert ts[1..] == us;
      forall i | 0 < i < |ts| ensures OfType(vs[i], ts[i]) {
        assert ts[i] == us[i - 1] && vs[i] == vs[1..][i - 1];
      }
    }
  }

  lemma {:induction false} TypedFormed(v: Value, ty: Type)
    requires OfType(v, ty)
    ensures WellFormed(v) && TypeOk(ty) && TypeSig(ty) == SigOf(v)
    decreases v, 1
  {
    match v
    case Scalar(_, _) =>
    case Str(_, _) =>
    case Arr(es, elems) =>
      forall i | 0 <= i < |elems| ensures WellFormed(elems[i]) && SigOf(elems[i]) == es {
        TypedFormed(elems[i], ty.elem);
      }
    case Struct(_, fs) => FieldsFormed(fs, ty.fields);
    case Variant(w) =>
      var u :| OfType(w, u) && |TypeSig(u)| < 255;
      TypedFormed(w, u);
  }

  lemma {:induction false} FieldsFormed(vs: seq<Value>, ts: seq<Type>)
    requires |vs| == |ts| && forall i :: 0 <= i < |vs| ==> OfType(vs[i], ts[i])
    ensures forall i :: 0 <= i < |vs| ==> WellFormed(vs[i]) && TypeOk(ts[i])
    ensures TypeSigs(ts) == SigsOf(vs)
    decreases vs, 0
  {
    if vs != [] {
      TypedFormed(vs[0], ts[0]);
      FieldsFormed(vs[1..], ts[1..]);
    }
  }

  /** What stands behind the padding of a value that starts at `at`, an array's first element starting at `first`. */
  function Contents(v: Value, at: nat, first: nat): seq<byte> {
    match v
    case Scalar(_, bs) => bs
    case Str(t, s) => (if t == 103 then [|s| % 0x100] else U32(|s|)) + s + [0]
    case Arr(_, elems) =>
      U32(|EncAll(elems, first)|) + Zeros(if first < at + 4 then 0 else first - at - 4) + EncAll(elems, first)
    case Struct(_, fs) => EncAll(fs, at)
    case Variant(w) => [|SigOf(w)| % 0x100] + SigOf(w) + [0] + Enc(w, at + |SigOf(w)| + 2)
  }

  /** The octets of a value: zeros up to where its type starts, and its contents there. */
  lemma EncStands(v: Value, off: nat) returns (at: nat, first: nat)
    requires WellFormed(v)
    ensures TypeCode(SigOf(v)[0]) && StandsAt(SigOf(v)[0], off, at)
    ensures v.Arr? ==> v.elemSig != [] && TypeCode(v.elemSig[0]) && StandsAt(v.elemSig[0], at + 4, first)
    ensures Enc(v, off) == Zeros(at - off) + Contents(v, at, first)
  {
    hide KindOf, PadFor, StandsAt, SigOf, CompleteSig, WellFormed, Enc, Contents;
    FirstCode(v);
    var t := SigOf(v)[0];
    at := off + PadFor(t, off);
    PadStands(t, off, at);
    first := at;
    if v.Arr? {
      first := at + 4 + PadFor(v.elemSig[0], at + 4);
      PadStands(v.elemSig[0], at + 4, first);
    }
    EncIs(v, off, at, first);
  }

  lemma EncIs(v: Value, off: nat, at: nat, first: nat)
    requires at == off + PadFor(SigOf(v)[0], off)
    requires v.Arr? ==> v.elemSig != [] && first == at + 4 + PadFor(v.elemSig[0], at + 4)
    ensures Enc(v, off) == Zeros(at - off) + Contents(v, at, first)
  {
    hide Enc, Contents, WellFormed, SigOf, PadFor, Zeros;
    match v
    case Scalar(_, _) => NumberIs(v, off, at, first);
    case Str(_, _) => StrIs(v, off, at, first);
    case Arr(_, _) => ArrayIs(v, off, at, first);
    case Struct(_, _) => StructIs(v, off, at, first);
    case Variant(_) => VariantIs(v, off, at, first);
  }

  lemma NumberIs(v: Value, off: nat, at: nat, first: nat)
    requires v.Scalar? && at == off + PadFor(SigOf(v)[0], off)
    ensures Enc(v, off) == Zeros(at - off) + Contents(v, at, first)
  {
  }

  lemma StrIs(v: Value, off: nat, at: nat, first: nat)
    requires v.Str? && at == off + PadFor(SigOf(v)[0], off)
    ensures Enc(v, off) == Zeros(at - off) + Contents(v, at, first)
  {
    hide PadTo, U32;
    if v.t == ARG_SIGNATURE {
      assert PadFor(v.t, off) == 0;
    }
    StrPieces(Zeros(at - off), if v.t == 103 then [|v.s| % 0x100] else U32(|v.s|), v.s);
  }

  lemma ArrayIs(v: Value, off: nat, at: nat, first: nat)
    requires v.Arr? && v.elemSig != [] && at == off + PadFor(SigOf(v)[0], off)
    requires first == at + 4 + PadFor(v.elemSig[0], at + 4)
    ensures Enc(v, off) == Zeros(at - off) + Contents(v, at, first)
  {
    hide PadFor, U32, EncAll;
    var body := EncAll(v.elems, first);
    Assoc(Zeros(at - off) + U32(|body|), Zeros(first - at - 4), body);
    Assoc(Zeros(at - off), U32(|body|), Zeros(first - at - 4));
    Assoc(Zeros(at - off), U32(|body|) + Zeros(first - at - 4), body);
  }

  lemma StructIs(v: Value, off: nat, at: nat, first: nat)
    requires v.Struct? && at == off + PadFor(SigOf(v)[0], off)
    ensures Enc(v, off) == Zeros(at - off) + Contents(v, at, first)
  {
    hide PadTo, EncAll;
  }

  lemma VariantIs(v: Value, off: nat, at: nat, first: nat)
    requires v.Variant? && at == off + PadFor(SigOf(v)[0], off)
    ensures Enc(v, off) == Zeros(at - off) + Contents(v, at, first)
  {
    hide PadTo;
    assert at == off;
    assert Zeros(0) + Contents(v, at, first) == Contents(v, at, first);
  }

  lemma StrPieces(z: seq<byte>, l: seq<byte>, s: seq<byte>)
    ensures z + l + s + [0] == z + (l + s + [0])
    ensures z == [] ==> z + (l + s + [0]) == l + s + [0]
  {
  }

  /** A value's signature starts with a type, and so does that of an array's elements. */
  lemma FirstCode(v: Value)
    requires WellFormed(v)
    ensures TypeCode(SigOf(v)[0])
    ensures v.Arr? ==> v.elemSig != [] && TypeCode(v.elemSig[0])
  {
    hide SigOf, KindOf;
    SigNotClose(v);
    PadStands(SigOf(v)[0], 0, 0);
    if v.Arr? {
      var e :| TypeOk(e) && TypeSig(e) == v.elemSig;
      FirstOctet(e);
    }
  }
}
