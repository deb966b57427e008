/** What the unmarshaler's reading of one argument makes of the octets of a well-formed value. */
module Decoding {
  import opened Common
  import opened Wire
  import opened Args
  import opened Unmarshaling
  import opened MarshalClient

  /** The octets `e` stand at offset `at` of `r`. */
  ghost predicate At(r: seq<byte>, at: nat, e: seq<byte>) {
    at + |e| <= |r| && r[at..at + |e|] == e
  }

  lemma AtSplit(r: seq<byte>, at: nat, a: seq<byte>, b: seq<byte>)
    ensures At(r, at, a + b) <==> At(r, at, a) && At(r, at + |a|, b)
  {
    var e := a + b;
    if At(r, at, e) {
      assert r[at..at + |a|] == r[at..at + |e|][..|a|] == e[..|a|] == a;
      assert r[at + |a|..at + |e|] == r[at..at + |e|][|a|..] == e[|a|..] == b;
    }
    if At(r, at, a) && At(r, at + |a|, b) {
      assert r[at..at + |e|] == r[at..at + |a|] + r[at + |a|..at + |e|];
    }
  }

  lemma AtSplit3(r: seq<byte>, at: nat, a: seq<byte>, b: seq<byte>, c: seq<byte>)
    requires At(r, at, a + b + c)
    ensures At(r, at, a) && At(r, at + |a|, b) && At(r, at + |a| + |b|, c)
  {
    AtSplit(r, at, a + b, c);
    AtSplit(r, at, a, b);
  }

  lemma ScalarParsed(v: Value, rest: seq<byte>, asElements: bool, r: seq<byte>, at: nat)
    requires v.Scalar? && WellFormed(v) && At(r, at, Enc(v, at))
    ensures ParseArg(SigOf(v) + rest, asElements, r, at)
         == Some(Parsed(at + |Enc(v, at)|, at + |Enc(v, at)|, ArgData(v.t, false, 0, v.bytes),
           at + PadFor(v.t, at), [], 1))
  {
    AtSplit(r, at, Zeros(PadFor(v.t, at)), v.bytes);
  }

  /** The length field, the octets and the NUL of a string. */
  lemma StringFields(t: byte, s: seq<byte>, l: seq<byte>, r: seq<byte>, at: nat)
    requires KindOf(t).StringKind? || KindOf(t).VariantKind?
    requires |s| + 1 < 0x1_0000 && (AlignOf(t) == 1 ==> |s| < 256)
    requires l == if AlignOf(t) == 1 then [|s| % 256] else U32(|s|)
    requires At(r, at, Zeros(PadFor(t, at)) + l + s + [0])
    ensures var e := at + PadFor(t, at) + |l| + |s| + 1;
      ParseString(t, r, at) == Some(Parsed(e, e, ArgData(t, false, |s|, s), e - 1 - |s|, [], 1))
  {
    var z := Zeros(PadFor(t, at));
    AtSplit(r, at, z + l + s, [0]);
    AtSplit3(r, at, z, l, s);
    LenField(t, |s|, l, r, at + |z|);
    assert r[at + |z| + |l|..at + |z| + |l| + |s|] == s;
  }

  lemma LenField(t: byte, n: nat, l: seq<byte>, r: seq<byte>, at: nat)
    requires At(r, at, l) && n < 0x1_0000_0000 && (AlignOf(t) != 4 ==> n < 256)
    requires l == if AlignOf(t) != 4 then [n % 256] else U32(n)
    ensures |l| == LenSize(t) && LenAt(t, r, at) == n
  {
    U32RoundTrip(n);
    if AlignOf(t) != 4 {
      assert r[at] == r[at..at + 1][0] == l[0];
    }
  }

  lemma StrParsed(v: Value, rest: seq<byte>, asElements: bool, r: seq<byte>, at: nat)
    requires v.Str? && WellFormed(v) && |Enc(v, at)| < 0x1_0000 && At(r, at, Enc(v, at))
    ensures var p := ParseArg(SigOf(v) + rest, asElements, r, at);
      && p.Some? && p.value.end == p.value.loaded == at + |Enc(v, at)|
      && p.value.d == ArgData(v.t, false, |v.s|, v.s) && p.value.used == 1
  {
    var l := if AlignOf(v.t) == 1 then [|v.s| % 256] else U32(|v.s|);
    assert v.t == ARG_SIGNATURE ==> Zeros(0) + l == l;
    assert Enc(v, at) == Zeros(PadFor(v.t, at)) + l + v.s + [0];
    StringFields(v.t, v.s, l, r, at);
  }

  /** A variant starts with its signature; its value follows. */
  lemma VariantParsed(v: Value, rest: seq<byte>, asElements: bool, r: seq<byte>, at: nat)
    requires v.Variant? && WellFormed(v) && At(r, at, Enc(v, at))
    ensures var sig := SigOf(v.inner); var p := ParseArg(SigOf(v) + rest, asElements, r, at);
      && p.Some? && p.value.end == p.value.loaded == at + |sig| + 2
      && p.value.d == ArgData(ARG_VARIANT, false, |sig|, sig) && p.value.used == 1
      && At(r, at + |sig| + 2, Enc(v.inner, at + |sig| + 2))
      && At(r, at + 1, sig + [0])
  {
    hide Enc, SigOf, WellFormed, PadTo, Scan, CompleteTypeSigLen;
    VariantOctets(v, at);
    var sig := SigOf(v.inner);
    var l: seq<byte> := [|sig| % 256];
    AtSplit(r, at, l + sig + [0], Enc(v.inner, at + |sig| + 2));
    Assoc(l, sig, [0]);
    AtSplit(r, at, l, sig + [0]);
    assert Zeros(0) + l == l;
    StringFields(ARG_VARIANT, sig, l, r, at);
  }

  /** An array opened as a container: its elements follow its length and their padding. */
  lemma ArrayParsed(v: Value, rest: seq<byte>, r: seq<byte>, at: nat)
    requires v.Arr? && WellFormed(v) && |SigOf(v)| < 256 && |Enc(v, at)| < 0x1_0000 && At(r, at, Enc(v, at))
    ensures var lenAt := at + PadFor(ARG_ARRAY, at); var start := lenAt + 4 + ElemPad(v.elemSig, lenAt + 4);
      var n := |EncAll(v.elems, start)|; var e := at + |Enc(v, at)|;
      && e == start + n && At(r, start, EncAll(v.elems, start))
      && ParseArray(v.elemSig + rest, true, r, at)
         == Some(Parsed(start, e, ArgData(ARG_ARRAY, false, n, []), start, v.elemSig + rest, |SigOf(v)|))
      && ParseArray(v.elemSig + rest, false, r, at)
         == Some(Parsed(if KindOf(v.elemSig[0]).ScalarKind? then e else start, e,
                        if KindOf(v.elemSig[0]).ScalarKind? then ArgData(v.elemSig[0], true, n, EncAll(v.elems, start))
                          else ArgData(ARG_ARRAY, false, n, []),
                        start, v.elemSig + rest, |SigOf(v)|))
  {
    hide EncAll, Scan, PadFor, ParseArray, At, ElemPad, CompleteTypeSigLen;
    var z := Zeros(PadFor(ARG_ARRAY, at));
    var lenAt := at + |z|;
    var q := ElemPad(v.elemSig, lenAt + 4);
    var body := EncAll(v.elems, lenAt + 4 + q);
    assert Enc(v, at) == z + U32(|body|) + Zeros(q) + body;
    AtSplit(r, at, z + U32(|body|) + Zeros(q), body);
    AtSplit3(r, at, z, U32(|body|), Zeros(q));
    LenField(ARG_ARRAY, |body|, U32(|body|), r, lenAt);
    CompleteSigLen(v.elemSig, rest);
    ArrayElemKind(v.elemSig);
    ParseArrayIs(v.elemSig, rest, true, r, at, body);
    ParseArrayIs(v.elemSig, rest, false, r, at, body);
  }

  /** An array whose length and octets are where they should be. */
  lemma ParseArrayIs(es: seq<byte>, rest: seq<byte>, asElements: bool, r: seq<byte>, at: nat, body: seq<byte>)
    requires es != [] && KindOf(es[0]) != NoKind
    requires var lenAt := at + PadFor(ARG_ARRAY, at); var q := ElemPad(es, lenAt + 4);
      && lenAt + 4 <= |r| && LenAt(ARG_ARRAY, r, lenAt) == |body| && |body| + q < 0x1_0000 && At(r, lenAt + 4 + q, body)
    ensures var lenAt := at + PadFor(ARG_ARRAY, at); var start := lenAt + 4 + ElemPad(es, lenAt + 4);
      var e := start + |body|;
      var flat := !asElements && KindOf(es[0]).ScalarKind?;
      ParseArray(es + rest, asElements, r, at)
      == Some(Parsed(if flat then e else start, e, if flat then ArgData(es[0], true, |body|, body)
        else ArgData(ARG_ARRAY, false, |body|, []),
                     start, es + rest, 1 + CompleteTypeSigLen(es + rest)))
  {
    hide PadFor, LenAt, CompleteTypeSigLen, KindOf;
    assert (es + rest)[0] == es[0];
  }

  lemma ArrayElemKind(es: seq<byte>)
    requires CompleteSig(es)
    ensures es != [] && KindOf(es[0]) != NoKind
  {
  }

  lemma StructParsed(v: Value, rest: seq<byte>, asElements: bool, r: seq<byte>, at: nat)
    requires v.Struct? && WellFormed(v) && |SigOf(v)| < 256 && At(r, at, Enc(v, at))
    ensures var start := at + PadFor(STRUCT_OPEN, at);
      && at + |Enc(v, at)| == start + |EncAll(v.fields, start)| && At(r, start, EncAll(v.fields, start))
      && ParseArg(SigOf(v) + rest, asElements, r, at)
         == Some(Parsed(start, start, ArgData(Open(v.dict), false, 0, []), start, SigsOf(v.fields)
           + ([Close(v.dict)] + rest), |SigOf(v)|))
  {
    hide EncAll, Scan;
    var start := at + PadFor(STRUCT_OPEN, at);
    AtSplit(r, at, Zeros(PadFor(STRUCT_OPEN, at)), EncAll(v.fields, start));
    StructSig(v, SigOf(v) + rest, rest);
  }
}
