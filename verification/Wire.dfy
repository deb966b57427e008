/**
 The wire format itself: type signatures, values and the octets that stand for them
 (D-Bus Specification, section "Marshaling (Wire Format)").  Nothing here knows about
 buffers; the marshaler and the unmarshaler are both measured against `Enc`.
 */
module Wire {
  import opened Common

  // ---- Type codes (aj_msg.h) ----

  const ARG_INVALID: byte := 0
  const STRUCT_OPEN: byte := 40    // '('
  const STRUCT_CLOSE: byte := 41   // ')'
  const ARG_ARRAY: byte := 97      // 'a'
  const ARG_SIGNATURE: byte := 103 // 'g'
  const ARG_OBJ_PATH: byte := 111  // 'o'
  const ARG_STRING: byte := 115    // 's'
  const ARG_UINT16: byte := 113    // 'q'
  const ARG_UINT32: byte := 117    // 'u'
  const ARG_VARIANT: byte := 118   // 'v'
  const DICT_OPEN: byte := 123     // '{'
  const DICT_CLOSE: byte := 125    // '}'

  datatype Kind = NoKind | ScalarKind | ContainerKind | StringKind | VariantKind

  /** The high nibble of a type's entry in the flag table. */
  function KindOf(t: byte): Kind {
    if t == STRUCT_OPEN || t == ARG_ARRAY || t == DICT_OPEN then ContainerKind
    else if t == ARG_SIGNATURE || t == ARG_OBJ_PATH || t == ARG_STRING then StringKind
    else if t == ARG_VARIANT then VariantKind
    else if ScalarSize(t) != 0 then ScalarKind
    else NoKind
  }

  /** The size of a scalar type, 0 for every other octet. */
  function ScalarSize(t: byte): nat {
    if t == 121 then 1                                          // y
    else if t == 110 || t == 113 then 2                         // n q
    else if t == 98 || t == 104 || t == 105 || t == 117 then 4  // b h i u
    else if t == 100 || t == 116 || t == 120 then 8             // d t x
    else 0
  }

  /** The low nibble of a type's entry in the flag table: its alignment. */
  function AlignOf(t: byte): (a: nat)
    ensures a == 0 || a == 1 || a == 2 || a == 4 || a == 8
    ensures a == 0 <==> KindOf(t) == NoKind
  {
    if t == STRUCT_OPEN || t == DICT_OPEN then 8
    else if t == ARG_ARRAY || t == ARG_OBJ_PATH || t == ARG_STRING then 4
    else if t == ARG_SIGNATURE || t == ARG_VARIANT then 1
    else ScalarSize(t)
  }

  /**
   Octets of padding the code inserts before a value of type `t` at offset `off`:
   `(alignment - offset) & (alignment - 1)` in 32-bit unsigned arithmetic.  An octet that
   is no type has alignment 0, for which that expression is the negated offset.
   */
  function PadFor(t: byte, off: nat): (p: nat)
    ensures KindOf(t) != NoKind ==> p < AlignOf(t)
  {
    PadTo(AlignOf(t), off)
  }

  function PadTo(align: nat, off: nat): (p: nat)
    ensures align in {1, 2, 4, 8} ==> p < align
  {
    match align
    case 8 => (8 - off % 8) % 8
    case 4 => (4 - off % 4) % 4
    case 2 => off % 2
    case 1 => 0
    case _ => (0x1_0000_0000 - off % 0x1_0000_0000) % 0x1_0000_0000
  }

  predicate Aligned(align: nat, off: nat) {
    match align case 8 => off % 8 == 0 case 4 => off % 4 == 0 case 2 => off % 2 == 0 case _ => true
  }

  /** The padding brings the offset to the alignment, and is the least that does. */
  lemma PadAligns(align: nat, off: nat, q: nat)
    requires align in {1, 2, 4, 8}
    ensures Aligned(align, off + PadTo(align, off))
    ensures q < PadTo(align, off) ==> !Aligned(align, off + q)
  {
    if align == 8 {
      hide PadTo, Aligned;
      PadAlignsWide(8, off, q);
    } else if align == 4 {
      hide PadTo, Aligned;
      PadAlignsWide(4, off, q);
    } else if align == 2 {
      PadAlignsTwo(off, q);
    }
  }

  lemma PadAlignsWide(align: nat, off: nat, q: nat)
    requires align == 4 || align == 8
    ensures Aligned(align, off + PadTo(align, off))
    ensures q < PadTo(align, off) ==> !Aligned(align, off + q)
  {
    PadIs(align, off);
    ModSum(off, PadTo(align, off), align);
    ModSum(off, q, align);
  }

  lemma PadAlignsTwo(off: nat, q: nat)
    ensures Aligned(2, off + PadTo(2, off))
    ensures q < PadTo(2, off) ==> !Aligned(2, off + q)
  {
  }

  lemma PadIs(align: nat, off: nat)
    requires align == 4 || align == 8
    ensures PadTo(align, off) == if off % align == 0 then 0 else align - off % align
  {
  }

  lemma ModSum(a: nat, b: nat, n: nat)
    requires n == 4 || n == 8
    ensures a % n + b < n ==> (a + b) % n == a % n + b
    ensures a % n + b == n ==> (a + b) % n == 0
  {
    var k, r := a / n, a % n;
    if n == 4 {
      assert a + b == 4 * k + (r + b);
    } else {
      assert a + b == 8 * k + (r + b);
    }
  }

  // ---- Types and their signatures ----

  datatype Type =
    | Basic(t: byte)
    | ArrayOf(elem: Type)
    | StructOf(dict: bool, fields: seq<Type>)
    | VariantOf

  function Open(dict: bool): byte { if dict then DICT_OPEN else STRUCT_OPEN }
  function Close(dict: bool): byte { if dict then DICT_CLOSE else STRUCT_CLOSE }
  predicate IsOpen(t: byte) { t == STRUCT_OPEN || t == DICT_OPEN }
  predicate IsClose(t: byte) { t == STRUCT_CLOSE || t == DICT_CLOSE }
  predicate IsBasic(t: byte) { KindOf(t).ScalarKind? || KindOf(t).StringKind? }

  ghost predicate TypeOk(ty: Type) {
    match ty
    case Basic(t) => IsBasic(t)
    case ArrayOf(e) => TypeOk(e)
    case StructOf(_, fs) => forall i :: 0 <= i < |fs| ==> TypeOk(fs[i])
    case VariantOf => true
  }

  function TypeSig(ty: Type): (s: seq<byte>)
    ensures |s| > 0
    decreases ty, 1
  {
    match ty
    case Basic(t) => [t]
    case ArrayOf(e) => [ARG_ARRAY] + TypeSig(e)
    case StructOf(d, fs) => [Open(d)] + TypeSigs(fs) + [Close(d)]
    case VariantOf => [ARG_VARIANT]
  }

  function TypeSigs(fs: seq<Type>): seq<byte>
    decreases fs, 0
  {
    if fs == [] then [] else TypeSig(fs[0]) + TypeSigs(fs[1..])
  }

  /** `sig` is the signature of a single complete type. */
  ghost predicate CompleteSig(sig: seq<byte>) {
    exists ty :: TypeOk(ty) && TypeSig(ty) == sig
  }

  // ---- The scanner that finds where the first complete type ends ----

  /**
   Octets the scan passes over before it stops, `open` brackets being unclosed;
   None when it meets a bracket that closes nothing.
   */
  function Scan(sig: seq<byte>, open: nat): Option<nat> {
    if sig == [] then Some(0)
    else if IsClose(sig[0]) then
      if open == 0 then None else if open == 1 then Some(1) else Plus1(Scan(sig[1..], open - 1))
    else if IsOpen(sig[0]) then Plus1(Scan(sig[1..], open + 1))
    else if open == 0 && sig[0] != ARG_ARRAY then Some(1)
    else Plus1(Scan(sig[1..], open))
  }

  function Plus(k: nat, o: Option<nat>): Option<nat> {
    match o case None => None case Some(n) => Some(n + k)
  }

  function Plus1(o: Option<nat>): Option<nat> { Plus(1, o) }

  /** The length of the first complete type of `sig`, in the 8 bits the code returns it in. */
  function CompleteTypeSigLen(sig: seq<byte>): (n: nat)
    ensures n < 256
  {
    match Scan(sig, 0) case None => 0 case Some(n) => n % 256
  }

  lemma {:induction false} ScanInside(ty: Type, rest: seq<byte>, open: nat)
    requires TypeOk(ty) && open > 0
    ensures Scan(TypeSig(ty) + rest, open) == Plus(|TypeSig(ty)|, Scan(rest, open))
    decreases ty, 1
  {
    var s := TypeSig(ty) + rest;
    match ty
    case Basic(t) =>
      assert s[1..] == rest;
    case VariantOf =>
      assert s[1..] == rest;
    case ArrayOf(e) =>
      assert s[1..] == TypeSig(e) + rest;
      ScanInside(e, rest, open);
    case StructOf(d, fs) =>
      var tail := [Close(d)] + rest;
      assert s[1..] == TypeSigs(fs) + tail;
      ScanFields(fs, tail, open + 1);
      assert tail[1..] == rest;
  }

  lemma {:induction false} ScanFields(fs: seq<Type>, rest: seq<byte>, open: nat)
    requires (forall i :: 0 <= i < |fs| ==> TypeOk(fs[i])) && open > 0
    ensures Scan(TypeSigs(fs) + rest, open) == Plus(|TypeSigs(fs)|, Scan(rest, open))
    decreases fs, 0
  {
    if fs == [] {
      assert TypeSigs(fs) + rest == rest;
    } else {
      assert TypeSigs(fs) + rest == TypeSig(fs[0]) + (TypeSigs(fs[1..]) + rest);
      ScanInside(fs[0], TypeSigs(fs[1..]) + rest, open);
      ScanFields(fs[1..], rest, open);
    }
  }

  /** The scan stops exactly at the end of the first complete type, whatever follows it. */
  lemma {:induction false} ScanStops(ty: Type, rest: seq<byte>)
    requires TypeOk(ty)
    ensures Scan(TypeSig(ty) + rest, 0) == Some(|TypeSig(ty)|)
    decreases ty
  {
    var s := TypeSig(ty) + rest;
    match ty
    case Basic(t) =>
    case VariantOf =>
    case ArrayOf(e) =>
      assert s[1..] == TypeSig(e) + rest;
      ScanStops(e, rest);
    case StructOf(d, fs) =>
      var tail := [Close(d)] + rest;
      assert s[1..] == TypeSigs(fs) + tail;
      ScanFields(fs, tail, 1);
  }

  lemma CompleteSigLen(sig: seq<byte>, rest: seq<byte>)
    requires CompleteSig(sig)
    ensures Scan(sig + rest, 0) == Some(|sig|)
    ensures |sig| < 256 ==> CompleteTypeSigLen(sig + rest) == |sig|
  {
    var ty :| TypeOk(ty) && TypeSig(ty) == sig;
    ScanStops(ty, rest);
  }

  /** Opening less closing brackets. */
  function Depth(s: seq<byte>): int {
    if s == [] then 0 else (if IsOpen(s[0]) then 1 else if IsClose(s[0]) then -1 else 0) + Depth(s[1..])
  }

  /**
   The strings the scan runs to the end of: array marks, and behind them nothing, one octet that is
   no bracket, or an opening bracket that is not closed before the end.
   */
  predicate Passes(sig: seq<byte>) {
    if sig == [] then true
    else if sig[0] == ARG_ARRAY then Passes(sig[1..])
    else if IsOpen(sig[0]) then forall n :: 0 < n < |sig| ==> Depth(sig[..n]) > 0
    else !IsClose(sig[0]) && |sig| == 1
  }

  lemma DepthStep(s: seq<byte>, n: nat)
    requires 0 < n <= |s|
    ensures Depth(s[..n]) == Depth([s[0]]) + Depth(s[1..][..n - 1])
    ensures Depth([s[0]]) == if IsOpen(s[0]) then 1 else if IsClose(s[0]) then -1 else 0
  {
    assert s[..n][1..] == s[1..][..n - 1] && [s[0]][1..] == [];
  }

  /** Inside brackets the scan runs on until the last of them is closed. */
  lemma {:induction false} ScanNested(s: seq<byte>, open: nat)
    requires open > 0
    ensures Scan(s, open) == Some(|s|) <==> forall n :: 0 <= n < |s| ==> open + Depth(s[..n]) > 0
  {
    hide Depth;
    if s != [] {
      DepthStep(s, 1);
      assert s[1..][..0] == [] && s[..0] == [];
      DepthNone();
      var next := open + Depth([s[0]]);
      if next > 0 {
        ScanNested(s[1..], next);
        forall n | 0 <= n < |s| ensures n > 0 ==> open + Depth(s[..n]) == next + Depth(s[1..][..n - 1]) {
          if n > 0 {
            DepthStep(s, n);
          }
        }
        NestedShift(s, open, next);
      } else if |s| > 1 {
        assert open + Depth(s[..1]) == 0;
      }
    }
  }

  lemma NestedShift(s: seq<byte>, open: nat, next: nat)
    requires s != [] && open + Depth(s[..0]) > 0
    requires forall n :: 0 < n < |s| ==> open + Depth(s[..n]) == next + Depth(s[1..][..n - 1])
    ensures (forall n :: 0 <= n < |s| ==> open + Depth(s[..n]) > 0)
      <==> forall n :: 0 <= n < |s[1..]| ==> next + Depth(s[1..][..n]) > 0
  {
    hide Depth;
    if forall n :: 0 <= n < |s| ==> open + Depth(s[..n]) > 0 {
      forall n | 0 <= n < |s[1..]| ensures next + Depth(s[1..][..n]) > 0 {
        assert open + Depth(s[..n + 1]) > 0;
      }
    }
  }

  lemma DepthNone()
    ensures Depth([]) == 0
  {
  }

  lemma {:induction false} ScanBound(s: seq<byte>, open: nat)
    ensures Scan(s, open).Some? ==> Scan(s, open).value <= |s|
  {
    if s != [] {
      ScanBound(s[1..], open + 1);
      ScanBound(s[1..], open);
      if open > 0 {
        ScanBound(s[1..], open - 1);
      }
    }
  }

  lemma {:induction false} ScanAll(sig: seq<byte>)
    ensures Scan(sig, 0) == Some(|sig|) <==> Passes(sig)
  {
    hide Depth;
    if sig != [] && sig[0] == ARG_ARRAY {
      ScanAll(sig[1..]);
    } else if sig != [] && IsOpen(sig[0]) {
      DepthNone();
      DepthStep(sig, 1);
      assert sig[1..][..0] == [] && sig[..0] == [];
      ScanNested(sig[1..], 1);
      forall n | 0 < n < |sig| ensures Depth(sig[..n]) == 1 + Depth(sig[1..][..n - 1]) {
        DepthStep(sig, n);
      }
      GroupShift(sig);
    }
  }

  lemma GroupShift(s: seq<byte>)
    requires s != [] && forall n :: 0 < n < |s| ==> Depth(s[..n]) == 1 + Depth(s[1..][..n - 1])
    ensures (forall n :: 0 < n < |s| ==> Depth(s[..n]) > 0)
      <==> forall n :: 0 <= n < |s[1..]| ==> 1 + Depth(s[1..][..n]) > 0
  {
    hide Depth;
    if forall n :: 0 < n < |s| ==> Depth(s[..n]) > 0 {
      forall n | 0 <= n < |s[1..]| ensures 1 + Depth(s[1..][..n]) > 0 {
        assert Depth(s[..n + 1]) > 0;
      }
    }
  }

  /** Exactly which signatures the test of AJ_MarshalVariant lets through: complete types, and unfinished ones. */
  lemma PassesTest(sig: seq<byte>)
    ensures CompleteTypeSigLen(sig) == |sig| <==> |sig| < 256 && Passes(sig)
    ensures CompleteSig(sig) ==> Passes(sig)
  {
    hide Scan, Passes;
    ScanBound(sig, 0);
    ScanAll(sig);
    EmptyPasses();
    if CompleteSig(sig) {
      CompleteSigLen(sig, []);
      assert sig + [] == sig;
    }
  }

  lemma EmptyPasses()
    ensures Scan([], 0) == Some(0) && Passes([])
  {
  }

  /** Three that are no complete types: nothing, an array mark, an opening bracket. */
  lemma UnfinishedPass()
    ensures
      && CompleteTypeSigLen([]) == 0 && CompleteTypeSigLen([ARG_ARRAY]) == 1
      && CompleteTypeSigLen([STRUCT_OPEN]) == 1
  {
    PassesTest([]);
    PassesTest([ARG_ARRAY]);
    PassesTest([STRUCT_OPEN]);
  }

  /** The signature of a struct of 253 octets. */
  function LongSig(): (s: seq<byte>)
    ensures |s| == 255
  {
    [STRUCT_OPEN] + seq(253, _ => 121) + [STRUCT_CLOSE]
  }

  lemma {:induction false} OctetFields(n: nat)
    ensures TypeSigs(seq(n, _ => Basic(121))) == seq(n, _ => 121)
  {
    if n > 0 {
      assert seq(n, _ => Basic(121))[1..] == seq(n - 1, _ => Basic(121));
      assert [121 as byte] + seq(n - 1, _ => 121) == seq(n, _ => 121);
      OctetFields(n - 1);
    }
  }

  /** A complete type of 255 octets, the most the format allows; its length plus one does not fit an octet. */
  lemma LongSignature()
    ensures CompleteSig(LongSig()) && (forall i :: 0 <= i < 255 ==> LongSig()[i] != 0)
    ensures CompleteTypeSigLen(LongSig()) == |LongSig()| == 255 && (|LongSig()| + 1) % 256 == 0
  {
    hide Scan;
    var ty := StructOf(false, seq(253, _ => Basic(121)));
    OctetFields(253);
    assert TypeOk(ty) && TypeSig(ty) == LongSig();
    CompleteSigLen(LongSig(), []);
    assert LongSig() + [] == LongSig();
  }

  /** Signatures form a prefix code: a string starts with at most one complete type. */
  lemma SigPrefixFree(a: seq<byte>, b: seq<byte>, x: seq<byte>, y: seq<byte>)
    requires CompleteSig(a) && CompleteSig(b) && a + x == b + y
    ensures a == b && x == y
  {
    CompleteSigLen(a, x);
    CompleteSigLen(b, y);
    assert a == (a + x)[..|a|] && b == (b + y)[..|b|];
    assert x == (a + x)[|a|..] && y == (b + y)[|b|..];
  }

  // ---- Values ----

  datatype Value =
    | Scalar(t: byte, bytes: seq<byte>)
    | Str(t: byte, s: seq<byte>)
    | Arr(elemSig: seq<byte>, elems: seq<Value>)
    | Struct(dict: bool, fields: seq<Value>)
    | Variant(inner: Value)

  function SigOf(v: Value): (s: seq<byte>)
    ensures |s| > 0
    decreases v, 1
  {
    match v
    case Scalar(t, _) => [t]
    case Str(t, _) => [t]
    case Arr(es, _) => [ARG_ARRAY] + es
    case Struct(d, fs) => [Open(d)] + SigsOf(fs) + [Close(d)]
    case Variant(_) => [ARG_VARIANT]
  }

  function SigsOf(vs: seq<Value>): seq<byte>
    decreases vs, 0
  {
    if vs == [] then [] else SigOf(vs[0]) + SigsOf(vs[1..])
  }

  /**
   The values the wire can carry: scalars of their type's size, lengths that fit their
   length field, array elements of one type,
     structs with at least one field.  A variant's signature is at most 254 octets
   long: the code keeps its length plus one in 8 bits.
   */
  ghost predicate WellFormed(v: Value) {
    match v
    case Scalar(t, bs) => KindOf(t).ScalarKind? && |bs| == ScalarSize(t)
    case Str(t, s) => KindOf(t).StringKind? && (if t == ARG_SIGNATURE then |s| < 256 else |s| < 0x1_0000_0000)
    case Arr(es, elems) =>
      CompleteSig(es) && forall i :: 0 <= i < |elems| ==> WellFormed(elems[i]) && SigOf(elems[i]) == es
    case Struct(_, fs) => fs != [] && forall i :: 0 <= i < |fs| ==> WellFormed(fs[i])
    case Variant(w) => WellFormed(w) && |SigOf(w)| <= 254
  }

  /** The type of a well-formed value. */
  lemma {:induction false} TypeOfValue(v: Value) returns (ty: Type)
    requires WellFormed(v)
    ensures TypeOk(ty) && TypeSig(ty) == SigOf(v)
    decreases v, 1
  {
    match v
    case Scalar(t, _) => ty := Basic(t);
    case Str(t, _) => ty := Basic(t);
    case Arr(es, _) =>
      var e :| TypeOk(e) && TypeSig(e) == es;
      ty := ArrayOf(e);
    case Struct(d, fs) =>
      var ts := TypesOfValues(fs);
      ty := StructOf(d, ts);
    case Variant(_) => ty := VariantOf;
  }

  lemma {:induction false} TypesOfValues(vs: seq<Value>) returns (ts: seq<Type>)
    requires forall i :: 0 <= i < |vs| ==> WellFormed(vs[i])
    ensures (forall i :: 0 <= i < |ts| ==> TypeOk(ts[i])) && TypeSigs(ts) == SigsOf(vs)
    decreases vs, 0
  {
    if vs == [] {
      ts := [];
    } else {
      var t := TypeOfValue(vs[0]);
      var us := TypesOfValues(vs[1..]);
      ts := [t] + us;
      assert ts[1..] == us;
    }
  }

  lemma SigComplete(v: Value)
    requires WellFormed(v)
    ensures CompleteSig(SigOf(v))
  {
    var ty := TypeOfValue(v);
  }

  // ---- The octets of a value ----

  /** The octets of `v` when they start at offset `off`, leading padding included. */
  function Enc(v: Value, off: nat): (s: seq<byte>)
    decreases v, 1
  {
    match v
    case Scalar(t, bs) => Zeros(PadFor(t, off)) + bs
    case Str(t, s) =>
      if t == ARG_SIGNATURE then [|s| % 256] + s + [0]
      else Zeros(PadFor(t, off)) + U32(|s|) + s + [0]
    case Arr(es, elems) =>
      var p := PadFor(ARG_ARRAY, off);
      var q := ElemPad(es, off + p + 4);
      var body := EncAll(elems, off + p + 4 + q);
      Zeros(p) + U32(|body|) + Zeros(q) + body
    case Struct(_, fs) =>
      var p := PadFor(STRUCT_OPEN, off);
      Zeros(p) + EncAll(fs, off + p)
    case Variant(w) =>
      var sig := SigOf(w);
      [|sig| % 256] + sig + [0] + Enc(w, off + |sig| + 2)
  }

  /** Padding between an array's length and its first element. */
  function ElemPad(elemSig: seq<byte>, off: nat): nat {
    if elemSig == [] then 0 else PadFor(elemSig[0], off)
  }

  function EncAll(vs: seq<Value>, off: nat): seq<byte>
    decreases vs, 0
  {
    if vs == [] then [] else
      var h := Enc(vs[0], off);
      h + EncAll(vs[1..], off + |h|)
  }

  /** Every value takes room; this is what lets an array end be found by counting octets. */
  lemma {:induction false} EncNonEmpty(v: Value, off: nat)
    requires WellFormed(v)
    ensures |Enc(v, off)| > 0
    decreases v
  {
    match v
    case Struct(_, fs) => EncNonEmpty(fs[0], off + PadFor(STRUCT_OPEN, off));
    case _ =>
  }

  // ---- The encoding determines the value ----

  lemma SplitAt<T>(a: seq<T>, b: seq<T>, x: seq<T>, y: seq<T>)
    requires |a| == |b| && a + x == b + y
    ensures a == b && x == y
  {
    assert a == (a + x)[..|a|] && b == (b + y)[..|b|];
    assert x == (a + x)[|a|..] && y == (b + y)[|b|..];
  }

  lemma Assoc<T>(a: seq<T>, b: seq<T>, c: seq<T>)
    ensures (a + b) + c == a + (b + c)
  {
  }

  /** Two padded, length-prefixed fields that agree as far as either goes have equal prefixes and equal rests. */
  lemma PrefixedSplit(z: seq<byte>, l: seq<byte>, f: seq<byte>, m: seq<byte>, g: seq<byte>)
    requires |l| == |m| && z + l + f == z + m + g
    ensures l == m && f == g
  {
    Assoc(z, l, f);
    Assoc(z, m, g);
    SplitAt(z, z, l + f, m + g);
    SplitAt(l, m, f, g);
  }

  lemma StrUnique(t: byte, s: seq<byte>, r: seq<byte>, off: nat, x: seq<byte>, y: seq<byte>)
    requires WellFormed(Str(t, s)) && WellFormed(Str(t, r))
    requires Enc(Str(t, s), off) + x == Enc(Str(t, r), off) + y
    ensures s == r && x == y
  {
    var z := if t == ARG_SIGNATURE then [] else Zeros(PadFor(t, off));
    var l := if t == ARG_SIGNATURE then [|s| % 256] else U32(|s|);
    var m := if t == ARG_SIGNATURE then [|r| % 256] else U32(|r|);
    assert Enc(Str(t, s), off) == z + l + s + [0] && Enc(Str(t, r), off) == z + m + r + [0];
    StrSplit(z, l, s, x);
    StrSplit(z, m, r, y);
    PrefixedSplit(z, l, s + ([0] + x), m, r + ([0] + y));
    U32RoundTrip(|s|);
    U32RoundTrip(|r|);
    assert l[0] == m[0];
    SplitAt(s, r, [0] + x, [0] + y);
    SplitAt([0], [0], x, y);
  }

  lemma StrSplit(z: seq<byte>, l: seq<byte>, s: seq<byte>, x: seq<byte>)
    ensures z + l + s + [0] + x == z + l + (s + ([0] + x))
  {
  }

  /** The pieces of a variant's octets: its signature and its value. */
  lemma VariantSplit(s: seq<byte>, e: seq<byte>, r: seq<byte>, f: seq<byte>)
    requires |s| < 256 && |r| < 256
    requires [|s| % 256] + s + [0] + e == [|r| % 256] + r + [0] + f
    ensures s == r && e == f
  {
    var l, m: seq<byte> := [|s| % 256], [|r| % 256];
    Assoc(l + s, [0], e);
    Assoc(l, s, [0] + e);
    Assoc(m + r, [0], f);
    Assoc(m, r, [0] + f);
    SplitAt(l, m, s + ([0] + e), r + ([0] + f));
    assert l[0] == m[0];
    SplitAt(s, r, [0] + e, [0] + f);
    SplitAt([0], [0], e, f);
  }

  /** The pieces of an array's octets: its length and its elements. */
  lemma ArraySplit(z: seq<byte>, f: seq<byte>, q: seq<byte>, x: seq<byte>, g: seq<byte>, y: seq<byte>)
    requires |f| < 0x1_0000_0000 && |g| < 0x1_0000_0000
    requires z + U32(|f|) + q + f + x == z + U32(|g|) + q + g + y
    ensures f == g && x == y
  {
    var l, m := U32(|f|), U32(|g|);
    Assoc(z + l + q, f, x);
    Assoc(z + l, q, f + x);
    Assoc(z + m + q, g, y);
    Assoc(z + m, q, g + y);
    PrefixedSplit(z, l, q + (f + x), m, q + (g + y));
    U32RoundTrip(|f|);
    U32RoundTrip(|g|);
    SplitAt(q, q, f + x, g + y);
    SplitAt(f, g, x, y);
  }

  /** Two values of one type whose octets agree as far as either goes are the same value. */
  lemma {:induction false} EncUnique(v: Value, w: Value, off: nat, x: seq<byte>, y: seq<byte>)
    requires WellFormed(v) && WellFormed(w) && SigOf(v) == SigOf(w)
    requires |Enc(v, off)| < 0x1_0000_0000 && |Enc(w, off)| < 0x1_0000_0000
    requires Enc(v, off) + x == Enc(w, off) + y
    ensures v == w && x == y
    decreases v, 3
  {
    SameShape(v, w);
    match v
    case Scalar(t, bs) => PrefixedSplit(Zeros(PadFor(t, off)), bs, x, w.bytes, y);
    case Str(t, s) => StrUnique(t, s, w.s, off, x, y);
    case Arr(es, vs) => ArrUnique(v, w, off, x, y);
    case Struct(d, fs) => StructUnique(v, w, off, x, y);
    case Variant(u) => VariantUnique(v, w, off, x, y);
  }

  lemma {:induction false} ArrUnique(v: Value, w: Value, off: nat, x: seq<byte>, y: seq<byte>)
    requires v.Arr? && w.Arr? && v.elemSig == w.elemSig && WellFormed(v) && WellFormed(w)
    requires |Enc(v, off)| < 0x1_0000_0000 && |Enc(w, off)| < 0x1_0000_0000
    requires Enc(v, off) + x == Enc(w, off) + y
    ensures v == w && x == y
    decreases v, 2
  {
    var p := PadFor(ARG_ARRAY, off);
    var q := ElemPad(v.elemSig, off + p + 4);
    var o := off + p + 4 + q;
    ArraySplit(Zeros(p), EncAll(v.elems, o), Zeros(q), x, EncAll(w.elems, o), y);
    ElemsUnique(v.elemSig, v.elems, w.elems, o);
  }

  lemma {:induction false} StructUnique(v: Value, w: Value, off: nat, x: seq<byte>, y: seq<byte>)
    requires v.Struct? && w.Struct? && v.dict == w.dict && WellFormed(v) && WellFormed(w)
    requires SigsOf(v.fields) + [Close(v.dict)] == SigsOf(w.fields) + [Close(v.dict)]
    requires |Enc(v, off)| < 0x1_0000_0000 && |Enc(w, off)| < 0x1_0000_0000
    requires Enc(v, off) + x == Enc(w, off) + y
    ensures v == w && x == y
    decreases v, 2
  {
    var p := PadFor(STRUCT_OPEN, off);
    var f, g := EncAll(v.fields, off + p), EncAll(w.fields, off + p);
    Assoc(Zeros(p), f, x);
    Assoc(Zeros(p), g, y);
    SplitAt(Zeros(p), Zeros(p), f + x, g + y);
    FieldsUnique(v.fields, w.fields, off + p, x, y, Close(v.dict));
  }

  lemma VariantOctets(v: Value, at: nat)
    requires v.Variant? && WellFormed(v)
    ensures var sig := SigOf(v.inner);
      SigOf(v) == [ARG_VARIANT] && |sig| <= 254
        && Enc(v, at) == [|sig| % 256] + sig + [0] + Enc(v.inner, at + |sig| + 2)
    ensures WellFormed(v.inner)
  {
  }

  lemma {:induction false} VariantUnique(v: Value, w: Value, off: nat, x: seq<byte>, y: seq<byte>)
    requires v.Variant? && w.Variant? && WellFormed(v) && WellFormed(w)
    requires |Enc(v, off)| < 0x1_0000_0000 && |Enc(w, off)| < 0x1_0000_0000
    requires Enc(v, off) + x == Enc(w, off) + y
    ensures v == w && x == y
    decreases v, 2
  {
    hide Enc, SigOf, WellFormed, PadTo;
    VariantOctets(v, off);
    VariantOctets(w, off);
    var s, r := SigOf(v.inner), SigOf(w.inner);
    var e, f := Enc(v.inner, off + |s| + 2), Enc(w.inner, off + |r| + 2);
    Assoc([|s| % 256] + s + [0], e, x);
    Assoc([|r| % 256] + r + [0], f, y);
    VariantSplit(s, e + x, r, f + y);
    EncUnique(v.inner, w.inner, off + |s| + 2, x, y);
  }

  /** Values with one signature are built alike. */
  lemma SameShape(v: Value, w: Value)
    requires WellFormed(v) && WellFormed(w) && SigOf(v) == SigOf(w)
    ensures v.Scalar? ==> w.Scalar? && w.t == v.t
    ensures v.Str? ==> w.Str? && w.t == v.t
    ensures v.Arr? ==> w.Arr? && w.elemSig == v.elemSig
    ensures v.Struct? ==>
      w.Struct? && w.dict == v.dict && SigsOf(v.fields) + [Close(v.dict)] == SigsOf(w.fields) + [Close(v.dict)]
    ensures v.Variant? ==> w.Variant?
  {
    hide SigOf, WellFormed, CompleteSig;
    SigParts(v);
    SigParts(w);
  }

  /** The first octet of a signature, and the rest of it. */
  lemma SigParts(v: Value)
    requires WellFormed(v)
    ensures v.Scalar? ==> SigOf(v) == [v.t] && KindOf(v.t).ScalarKind?
    ensures v.Str? ==> SigOf(v) == [v.t] && KindOf(v.t).StringKind?
    ensures v.Arr? ==> SigOf(v)[0] == ARG_ARRAY && SigOf(v)[1..] == v.elemSig
    ensures v.Struct? ==> SigOf(v)[0] == Open(v.dict) && SigOf(v)[1..] == SigsOf(v.fields) + [Close(v.dict)]
    ensures v.Variant? ==> SigOf(v) == [ARG_VARIANT]
  {
    if v.Struct? {
      Assoc([Open(v.dict)], SigsOf(v.fields), [Close(v.dict)]);
    }
  }

  ghost predicate Elements(es: seq<byte>, vs: seq<Value>) {
    forall i :: 0 <= i < |vs| ==> WellFormed(vs[i]) && SigOf(vs[i]) == es
  }

  lemma {:induction false} ElemsUnique(es: seq<byte>, vs: seq<Value>, ws: seq<Value>, off: nat)
    requires Elements(es, vs) && Elements(es, ws)
    requires EncAll(vs, off) == EncAll(ws, off) && |EncAll(vs, off)| < 0x1_0000_0000
    ensures vs == ws
    decreases vs, 0
  {
    if vs == [] {
      if ws != [] { EncNonEmpty(ws[0], off); }
    } else if ws == [] {
      EncNonEmpty(vs[0], off);
    } else {
      hide Enc, SigOf, WellFormed;
      var h, k := Enc(vs[0], off), Enc(ws[0], off);
      var f, g := EncAll(vs[1..], off + |h|), EncAll(ws[1..], off + |k|);
      EncUnique(vs[0], ws[0], off, f, g);
      ElemsUnique(es, vs[1..], ws[1..], off + |h|);
      HeadTail(vs, ws);
    }
  }

  lemma HeadTail<T>(vs: seq<T>, ws: seq<T>)
    requires vs != [] && ws != [] && vs[0] == ws[0] && vs[1..] == ws[1..]
    ensures vs == ws
  {
    assert vs == [vs[0]] + vs[1..] && ws == [ws[0]] + ws[1..];
  }

  lemma {:induction false} FieldsUnique(vs: seq<Value>, ws: seq<Value>, off: nat, x: seq<byte>, y: seq<byte>,
                                        close: byte)
    requires forall i :: 0 <= i < |vs| ==> WellFormed(vs[i])
    requires forall i :: 0 <= i < |ws| ==> WellFormed(ws[i])
    requires IsClose(close) && SigsOf(vs) + [close] == SigsOf(ws) + [close]
    requires EncAll(vs, off) + x == EncAll(ws, off) + y
    requires |EncAll(vs, off)| < 0x1_0000_0000 && |EncAll(ws, off)| < 0x1_0000_0000
    ensures vs == ws && x == y
    decreases vs, 0
  {
    hide Enc, SigOf, WellFormed;
    if vs == [] || ws == [] {
      assert vs == ws && EncAll(vs, off) == [];
      assert x == [] + x && y == [] + y;
    } else {
      var h, k := Enc(vs[0], off), Enc(ws[0], off);
      var f, g := EncAll(vs[1..], off + |h|), EncAll(ws[1..], off + |k|);
      FirstSigSame(vs, ws, close);
      Assoc(h, f, x);
      Assoc(k, g, y);
      EncUnique(vs[0], ws[0], off, f + x, g + y);
      FieldsUnique(vs[1..], ws[1..], off + |h|, x, y, close);
      HeadTail(vs, ws);
    }
  }

  lemma FirstSigSame(vs: seq<Value>, ws: seq<Value>, close: byte)
    requires vs != [] && ws != [] && WellFormed(vs[0]) && WellFormed(ws[0])
    requires SigsOf(vs) + [close] == SigsOf(ws) + [close]
    ensures SigOf(vs[0]) == SigOf(ws[0]) && SigsOf(vs[1..]) + [close] == SigsOf(ws[1..]) + [close]
  {
    Assoc(SigOf(vs[0]), SigsOf(vs[1..]), [close]);
    Assoc(SigOf(ws[0]), SigsOf(ws[1..]), [close]);
    SigComplete(vs[0]);
    SigComplete(ws[0]);
    SigPrefixFree(SigOf(vs[0]), SigOf(ws[0]), SigsOf(vs[1..]) + [close], SigsOf(ws[1..]) + [close]);
  }

  /** A signature never begins with a closing bracket and never contains a NUL. */
  lemma SigNotClose(v: Value)
    requires WellFormed(v)
    ensures !IsClose(SigOf(v)[0]) && KindOf(SigOf(v)[0]) != NoKind
  {
  }
}
