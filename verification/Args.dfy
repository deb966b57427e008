/** AJ_Arg, and the strings that signature pointers point to. */
module Args {
  import opened Common
  import opened Wire

  /**
   The part of an AJ_Arg that says what is marshaled or what was unmarshaled: `val` is the
   memory its value pointer points to, up to the NUL for a string.
   */
  datatype ArgData = ArgData(typeId: byte, arrayFlag: bool, len: nat, val: seq<byte>) {

    /** The length of a string argument: `len` if it is set, else the string's own. */
    function StrLen(): nat {
      if len != 0 then len else |val|
    }

    function StrVal(): seq<byte> {
      if StrLen() <= |val| then val[..StrLen()] else val
    }

    /** The memory the argument points to is as large as the argument says. */
    predicate Points() {
      if KindOf(typeId).ScalarKind? then (if arrayFlag then len else ScalarSize(typeId)) <= |val|
      else len <= |val|
    }

    /** The argument is one the signature asks for next. */
    predicate Accepted(sig: seq<byte>): (b: bool)
      ensures b ==> sig != []
    {
      && sig != []
      && (if KindOf(typeId).ScalarKind? && arrayFlag then |sig| >= 2 && sig[0] == ARG_ARRAY && sig[1] == typeId
          else sig[0] == typeId && KindOf(typeId) != NoKind)
      && (AlignOf(typeId) == 1 && !KindOf(typeId).ScalarKind? ==> StrLen() < 256)
    }

    /** The octets it adds at offset `off`. */
    function Octets(sig: seq<byte>, off: nat): seq<byte>
      requires Points()
    {
      match KindOf(typeId)
      case ScalarKind =>
        if arrayFlag then FlatArrayOctets(typeId, val[..len], off)
        else ScalarOctets(typeId, val[..ScalarSize(typeId)], off)
      case ContainerKind => OpenOctets(sig, off)
      case _ => StringOctets(typeId, StrVal(), off)
    }

    /** How much of the signature it uses up. */
    function Consumed(sig: seq<byte>): nat {
      match KindOf(typeId)
      case ScalarKind => if arrayFlag then 2 else 1
      case ContainerKind => CompleteTypeSigLen(sig)
      case _ => 1
    }

    /** What is left in msg->varOffset: where a variant's signature starts. */
    function VarOffset(): (n: nat)
      ensures n < 256
    {
      if typeId == ARG_VARIANT then (StrLen() + 1) % 256 else 0
    }
  }

  /** AJ_Arg. */
  class Arg {
    var d: ArgData
    var pos: nat
    var sigPtr: seq<byte>
    var container: Arg?

    /** InitArg and AJ_InitArg. */
    constructor (d: ArgData)
      ensures this.d == d && sigPtr == [] && container == null
    {
      this.d := d;
      pos, sigPtr, container := 0, [], null;
    }
  }

  /** What a signature pointer points to after moving on by `n`. */
  function Drop(s: seq<byte>, n: nat): seq<byte> {
    if n <= |s| then s[n..] else []
  }

  lemma DropNone(s: seq<byte>)
    ensures Drop(s, 0) == s
  {
  }

  lemma DropMore(s: seq<byte>, m: nat, n: nat)
    ensures Drop(Drop(s, m), n) == Drop(s, m + n)
  {
  }

  /** The NUL-terminated string at offset `from`. */
  function CStr(data: seq<byte>, from: nat): (s: seq<byte>)
    ensures |s| <= |data|
    decreases |data| - from
  {
    if from >= |data| || data[from] == 0 then [] else
      var t := CStr(data, from + 1);
      if |t| < |data| then [data[from]] + t else t
  }

  lemma SigLenBound(sig: seq<byte>)
    ensures CompleteTypeSigLen(sig) <= |sig|
  {
    ScanBound(sig, 0);
  }

  // ---- What one argument writes ----

  function ScalarOctets(t: byte, bytes: seq<byte>, off: nat): seq<byte> {
    Zeros(PadFor(t, off)) + bytes
  }

  function FlatArrayOctets(t: byte, bytes: seq<byte>, off: nat): seq<byte> {
    var p := PadFor(ARG_ARRAY, off);
    Zeros(p) + U32(|bytes|) + (Zeros(PadFor(t, off + p + 4)) + bytes)
  }

  function StringOctets(t: byte, s: seq<byte>, off: nat): seq<byte> {
    Zeros(PadFor(t, off)) + (if AlignOf(t) == 1 then [|s| % 256] else U32(|s|)) + s + [0]
  }

  function OpenOctets(sig: seq<byte>, off: nat): seq<byte> {
    var p := if sig == [] then 0 else PadFor(sig[0], off);
    if sig == [] || sig[0] != ARG_ARRAY then Zeros(p)
    else Zeros(p + 4) + Zeros(PadFor(if |sig| == 1 then ARG_INVALID else sig[1], off + p + 4))
  }

  lemma NothingAfter<T>(s: seq<T>)
    ensures s + [] == s
  {
  }

  /** A NUL-free string is read back from where it was put. */
  lemma {:induction false} CStrAt(pre: seq<byte>, s: seq<byte>, post: seq<byte>)
    requires forall i :: 0 <= i < |s| ==> s[i] != 0
    ensures CStr(pre + s + [0] + post, |pre|) == s
    decreases |s|
  {
    var all := pre + s + [0] + post;
    if s != [] {
      assert (pre + [s[0]]) + s[1..] + [0] + post == all;
      CStrAt(pre + [s[0]], s[1..], post);
      assert CStr(all, |pre| + 1) == s[1..];
    }
  }

  lemma {:induction false} TypeSigNoNul(ty: Type)
    requires TypeOk(ty)
    ensures forall i :: 0 <= i < |TypeSig(ty)| ==> TypeSig(ty)[i] != 0
    decreases ty, 1
  {
    match ty
    case Basic(_) =>
    case VariantOf =>
    case ArrayOf(e) => TypeSigNoNul(e);
    case StructOf(_, fs) => TypeSigsNoNul(fs);
  }

  lemma {:induction false} TypeSigsNoNul(fs: seq<Type>)
    requires forall i :: 0 <= i < |fs| ==> TypeOk(fs[i])
    ensures forall i :: 0 <= i < |TypeSigs(fs)| ==> TypeSigs(fs)[i] != 0
    decreases fs, 0
  {
    if fs != [] {
      TypeSigNoNul(fs[0]);
      TypeSigsNoNul(fs[1..]);
    }
  }

  lemma SigNoNul(v: Value)
    requires WellFormed(v)
    ensures forall i :: 0 <= i < |SigOf(v)| ==> SigOf(v)[i] != 0
  {
    var ty := TypeOfValue(v);
    TypeSigNoNul(ty);
  }
}
