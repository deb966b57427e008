/** Credentials: how one is laid out in a data set, and what a set of them holds as a map by (type, id). */
module CredLayout {
  import opened Common
  import opened NvramLayout

  /** The data sets that hold credentials. */
  const BEGIN := 2
  const END := 42
  const GENERIC := 1

  /** AJ_PeerCred. */
  datatype Cred = Cred(typ: nat, id: seq<byte>, expiration: nat, association: seq<byte>, data: seq<byte>) {
    /** Each field has the width its C type gives it. */
    predicate Ok() {
      && typ < 0x1_0000 && |id| < 0x100 && expiration < 0x1_0000_0000
      && |association| < 0x100 && |data| < 0x1_0000
    }
    function Size(): nat { 10 + |id| + |association| + |data| }
  }

  /** type(2) idLen(1) id expiration(4) assLen(1) association dataLen(2) data. */
  function Ser(c: Cred): (s: seq<byte>)
    requires c.Ok()
    ensures |s| == c.Size()
  {
    Head(c.typ, c.id) + Body(c)
  }

  function Head(typ: nat, id: seq<byte>): (s: seq<byte>)
    requires |id| < 0x100
    ensures |s| == 3 + |id|
  {
    U16(typ) + [|id|] + id
  }

  function Body(c: Cred): (s: seq<byte>)
    requires c.Ok()
    ensures |s| == 7 + |c.association| + |c.data|
  {
    U32(c.expiration) + [|c.association|] + c.association + U16(|c.data|) + c.data
  }

  /** The fields one after the other. */
  lemma SerParts(c: Cred)
    requires c.Ok()
    ensures Ser(c) == [] + U16(c.typ) + ([|c.id|] + c.id) + U32(c.expiration)
      + ([|c.association|] + c.association) + (U16(|c.data|) + c.data)
  {
    hide U16, U32;
  }

  // ---- Reading a data set back ----

  /** The type and id of a data set long enough to have them; an id of no octets is not one. */
  function KeyOf(d: seq<byte>): Option<(nat, seq<byte>)> {
    if |d| >= 3 && d[2] > 0 && 3 + d[2] <= |d| then Some((ReadU16(d, 0), d[3..3 + d[2]])) else None
  }

  /** What ReadRemainderOfCredential reads from `p` on. */
  function RestAt(d: seq<byte>, p: nat): (r: Option<(nat, seq<byte>, seq<byte>)>)
    requires p <= |d|
    ensures r.Some? ==> r.value.0 < 0x1_0000_0000 && |r.value.1| < 0x100 && |r.value.2| < 0x1_0000
  {
    if |d| < p + 5 then None
    else
      var a := d[p + 4] as nat;
      if |d| < p + 7 + a then None
      else
        var n := ReadU16(d, p + 5 + a);
        if |d| < p + 7 + a + n then None
        else Some((ReadU32(d[p..p + 4]), d[p + 5..p + 5 + a], d[p + 7 + a..p + 7 + a + n]))
  }

  /** The credential a data set holds. */
  function Parse(d: seq<byte>): (r: Option<Cred>)
    ensures r.Some? ==> r.value.Ok() && KeyOf(d) == Some((r.value.typ, r.value.id)) && r.value.Size() <= |d|
  {
    match KeyOf(d)
    case None => None
    case Some((typ, id)) =>
      match RestAt(d, 3 + |id|)
      case None => None
      case Some((expiration, association, data)) => Some(Cred(typ, id, expiration, association, data))
  }

  /** A credential written at the front of a data set is read back whole, whatever follows it. */
  lemma ParseSer(c: Cred, d: seq<byte>)
    requires c.Ok() && c.id != [] && c.Size() <= |d| && d[..c.Size()] == Ser(c)
    ensures Parse(d) == Some(c)
  {
    hide RestAt;
    KeyFromHead(c.typ, c.id, d, Body(c));
    RestFromBody(c, d);
    var r := RestAt(d, 3 + |c.id|).value;
    assert c == Cred(c.typ, c.id, r.0, r.1, r.2);
  }

  lemma KeyFromSer(c: Cred, d: seq<byte>)
    requires c.Ok() && c.Size() <= |d| && d[..c.Size()] == Ser(c)
    ensures KeyOf(d) == if c.id == [] then None else Some((c.typ, c.id))
  {
    KeyFromHead(c.typ, c.id, d, Body(c));
  }

  lemma KeyFromHead(typ: nat, id: seq<byte>, d: seq<byte>, rest: seq<byte>)
    requires
      && typ < 0x1_0000 && |id| < 0x100 && 3 + |id| + |rest| <= |d|
      && d[..3 + |id| + |rest|] == Head(typ, id) + rest
    ensures KeyOf(d) == if id == [] then None else Some((typ, id))
  {
    var h := d[..3 + |id| + |rest|];
    assert d[0] == h[0] && d[1] == h[1] && d[2] == h[2];
    assert h == U16(typ) + [|id|] + id + rest;
    assert h[2] == |id| && h[0] == typ % 256 && h[1] == typ / 256 % 256;
    assert h[3..3 + |id|] == id && d[3..3 + |id|] == h[3..3 + |id|];
  }

  /** The key a data set of this capacity has once as many of a credential's fields as fit have been written. */
  function KeyWritten(c: Cred, capacity: nat): Option<(nat, seq<byte>)> {
    if c.id != [] && 3 + |c.id| <= capacity then Some((c.typ, c.id)) else None
  }

  /** The type and the id that erased octets read as. */
  const ERASED_TYPE := 0xFFFF
  const ERASED_ID: seq<byte> := Erased(255)

  /** A long data set that was created and not written reads as a key, and breaks off behind it. */
  lemma ErasedReads(n: nat)
    requires 258 <= n < 0x1_0000
    ensures KeyOf(Erased(n)) == Some((ERASED_TYPE, ERASED_ID)) && Parse(Erased(n)) == None
  {
    var d := Erased(n);
    assert d[3..258] == ERASED_ID;
    assert n >= 258 + 7 + 255 ==> ReadU16(d, 258 + 5 + 255) == 0xFFFF;
  }

  lemma RestFromBody(c: Cred, d: seq<byte>)
    requires c.Ok() && c.Size() <= |d| && d[..c.Size()] == Ser(c)
    ensures RestAt(d, 3 + |c.id|) == Some((c.expiration, c.association, c.data))
  {
    hide U32, ReadU32, RestAt, ReadU16, Body;
    var p, a, n, size := 3 + |c.id|, |c.association|, |c.data|, c.Size();
    var b := d[p..size];
    SubSlice(d, 0, size, p, size);
    assert d[0..size] == d[..size];
    BodyOfSer(c);
    BodyFields(c);
    SubSlice(d, p, size, 0, 4);
    SubSlice(d, p, size, 5, 5 + a);
    SubSlice(d, p, size, 7 + a, size - p);
    assert b[0..4] == b[..4] && b[7 + a..size - p] == b[7 + a..];
    SameU16(d, p, size, 5 + a);
    assert d[p + 4] == b[4];
    RestAtIs(d, p, a, n);
    U32RoundTrip(c.expiration);
  }

  lemma BodyOfSer(c: Cred)
    requires c.Ok()
    ensures Ser(c)[3 + |c.id|..c.Size()] == Body(c)
  {
    hide Head, Body;
  }

  lemma SameU16(d: seq<byte>, p: nat, to: nat, i: nat)
    requires p <= to <= |d| && p + i + 2 <= to
    ensures ReadU16(d[p..to], i) == ReadU16(d, p + i)
  {
  }

  lemma RestAtIs(d: seq<byte>, p: nat, a: nat, n: nat)
    requires p + 7 + a + n <= |d| && d[p + 4] == a && ReadU16(d, p + 5 + a) == n
    ensures RestAt(d, p) == Some((ReadU32(d[p..p + 4]), d[p + 5..p + 5 + a], d[p + 7 + a..p + 7 + a + n]))
  {
  }

  lemma BodyFields(c: Cred)
    requires c.Ok()
    ensures var a := |c.association|; var b := Body(c);
      b[..4] == U32(c.expiration) && b[4] == a && b[5..5 + a] == c.association && ReadU16(b, 5 + a) == |c.data|
        && b[7 + a..] == c.data
  {
    hide U32;
    var a, b := |c.association|, Body(c);
    assert b[5 + a..7 + a] == U16(|c.data|);
    assert b[5 + a] == b[5 + a..7 + a][0] && b[6 + a] == b[5 + a..7 + a][1];
  }

  // ---- The data sets as a map by key ----

  type Sets = map<nat, seq<byte>>

  predicate KeyAt(m: Sets, slot: nat, typ: nat, id: seq<byte>) {
    slot in m && KeyOf(m[slot]) == Some((typ, id))
  }

  /** The first slot, from `from` on, with this type and id; 0 if there is none. */
  function SlotOf(m: Sets, typ: nat, id: seq<byte>, from: nat): (slot: nat)
    ensures slot != 0 ==> from <= slot < END && KeyAt(m, slot, typ, id)
    ensures forall t :: from <= t < (if slot == 0 then END else slot) && t != 0 ==> !KeyAt(m, t, typ, id)
    decreases END - from
  {
    if from >= END then 0 else if from != 0 && KeyAt(m, from, typ, id) then from else SlotOf(m, typ, id, from + 1)
  }

  /** The credential stored under a type and id. */
  function Lookup(m: Sets, typ: nat, id: seq<byte>): Option<Cred> {
    var slot := SlotOf(m, typ, id, BEGIN);
    if slot == 0 then None else Parse(m[slot])
  }

  /** No two slots hold the same type and id. */
  ghost predicate Unique(m: Sets) {
    forall s, t :: BEGIN <= s < t < END && s in m && t in m && KeyOf(m[s]).Some? ==> KeyOf(m[s]) != KeyOf(m[t])
  }

  lemma SlotIs(m: Sets, typ: nat, id: seq<byte>, slot: nat)
    requires Unique(m) && BEGIN <= slot < END && KeyAt(m, slot, typ, id)
    ensures SlotOf(m, typ, id, BEGIN) == slot
  {
    var first := SlotOf(m, typ, id, BEGIN);
    assert first != 0;
    assert first <= slot;
  }

  /** An empty id is never found. */
  lemma NoEmptyKey(m: Sets, typ: nat)
    ensures SlotOf(m, typ, [], BEGIN) == 0
  {
    assert SlotOf(m, typ, [], BEGIN) != 0 ==> KeyAt(m, SlotOf(m, typ, [], BEGIN), typ, []);
  }

  /** Putting a credential under a key no slot has changes the lookup of that key only, but for what `gone` held. */
  lemma StoreLookup(m: Sets, m': Sets, gone: set<nat>, slot: nat, c: Cred, typ: nat, id: seq<byte>)
    requires Unique(m) && c.Ok() && BEGIN <= slot < END && slot in m' && m' - {slot} == m - gone - {slot}
    requires KeyOf(m'[slot]) == if c.id == [] then None else Some((c.typ, c.id))
    requires c.id != [] ==> Parse(m'[slot]) == Some(c)
    requires SlotOf(m, c.typ, c.id, BEGIN) in {0, slot}
    requires slot in m && SlotOf(m, c.typ, c.id, BEGIN) == 0 ==> slot in gone
    ensures Unique(m')
    ensures Lookup(m', c.typ, c.id) == if c.id != [] then Some(c) else None
    ensures (typ, id) != (c.typ, c.id) ==>
              Lookup(m', typ, id) == if SlotOf(m, typ, id, BEGIN) in gone then None else Lookup(m, typ, id)
  {
    hide Parse, KeyOf, SlotOf;
    forall t | BEGIN <= t < END && t != slot && t in m'
      ensures t in m && m'[t] == m[t] && t !in gone && !KeyAt(m, t, c.typ, c.id)
    {
      assert t in m' - {slot} && (m' - {slot})[t] == m'[t];
      assert t in m - gone - {slot} && (m - gone - {slot})[t] == m[t];
      if KeyAt(m, t, c.typ, c.id) {
        SlotIs(m, c.typ, c.id, t);
        assert false;
      }
    }
    assert Unique(m');
    if c.id != [] {
      assert KeyAt(m', slot, c.typ, c.id);
      SlotIs(m', c.typ, c.id, slot);
    } else {
      NoEmptyKey(m', c.typ);
    }
    if (typ, id) != (c.typ, c.id) {
      var was, now := SlotOf(m, typ, id, BEGIN), SlotOf(m', typ, id, BEGIN);
      assert was != 0 && was !in gone ==> was != slot && was in m - gone - {slot} && (m - gone - {slot})[was] == m[was];
      assert was != 0 && was !in gone ==> was in m' && m'[was] == (m' - {slot})[was];
      assert was != 0 && was !in gone ==> KeyAt(m', was, typ, id);
      if now != 0 {
        assert now != slot && KeyAt(m, now, typ, id);
        SlotIs(m, typ, id, now);
      }
    }
  }

  /** Taking a slot away takes its key away and no other. */
  lemma DeleteLookup(m: Sets, slot: nat, typ: nat, id: seq<byte>)
    requires Unique(m) && BEGIN <= slot < END && slot in m
    ensures Unique(m - {slot})
    ensures Lookup(m - {slot}, typ, id) == if SlotOf(m, typ, id, BEGIN) == slot then None else Lookup(m, typ, id)
  {
    hide Parse, KeyOf, SlotOf;
    var m' := m - {slot};
    var was, now := SlotOf(m, typ, id, BEGIN), SlotOf(m', typ, id, BEGIN);
    assert was != 0 && was != slot ==> KeyAt(m', was, typ, id);
    if now != 0 {
      assert KeyAt(m, now, typ, id);
      SlotIs(m, typ, id, now);
    }
  }

  /** Taking the slot of a key away. */
  lemma DeletedKey(m: Sets, typ: nat, id: seq<byte>)
    requires Unique(m)
    ensures var slot := SlotOf(m, typ, id, BEGIN); slot != 0 ==>
      Unique(m - {slot}) && Lookup(m - {slot}, typ, id) == None
    ensures var slot := SlotOf(m, typ, id, BEGIN); slot != 0 ==>
      forall t: nat, i: seq<byte> :: (t, i) != (typ, id) ==> Lookup(m - {slot}, t, i) == Lookup(m, t, i)
  {
    hide Parse, KeyOf, Unique;
    var slot := SlotOf(m, typ, id, BEGIN);
    if slot != 0 {
      DeleteLookup(m, slot, typ, id);
      forall t: nat, i: seq<byte> | (t, i) != (typ, id) ensures Lookup(m - {slot}, t, i) == Lookup(m, t, i) {
        DeleteLookup(m, slot, t, i);
      }
    }
  }

  // ---- What eviction can take ----

  /** The expiration of a generic credential, which is what eviction goes by. */
  function Expiry(m: Sets, slot: nat): Option<nat> {
    if slot in m && Parse(m[slot]).Some? && Parse(m[slot]).value.typ == GENERIC
      then Some(Parse(m[slot]).value.expiration) else None
  }

  /** The slot holds a credential of the type of generic ones. */
  predicate HoldsGeneric(m: Sets, slot: nat) {
    slot in m && Parse(m[slot]).Some? && Parse(m[slot]).value.typ == 1
  }

  /** A slot that starts like a credential and does not go on like one: eviction gives up on it. */
  predicate Broken(m: Sets, slot: nat) {
    slot in m && KeyOf(m[slot]).Some? && Parse(m[slot]).None?
  }

  /** The slot eviction takes: the last of those with the least expiration. */
  ghost predicate Oldest(m: Sets, slot: nat) {
    && BEGIN <= slot < END && Expiry(m, slot).Some?
    && (forall t :: BEGIN <= t < END && Expiry(m, t).Some? ==> Expiry(m, slot).value <= Expiry(m, t).value)
    && (forall t :: slot < t < END && Expiry(m, t).Some? ==> Expiry(m, slot).value < Expiry(m, t).value)
  }

  /** The room all generic credentials take up. */
  function Evictable(m: Sets, from: nat): nat
    decreases END - from
  {
    if from >= END then 0
    else (if Expiry(m, from).Some? then ENTRY_HEADER_SIZE + |m[from]| else 0) + Evictable(m, from + 1)
  }

  lemma {:induction false} EvictableLess(m: Sets, slot: nat, from: nat)
    requires Expiry(m, slot).Some? && slot < END
    ensures Evictable(m, from) == Evictable(m - {slot}, from) + if from <= slot
      then ENTRY_HEADER_SIZE + |m[slot]| else 0
    decreases END - from
  {
    hide Parse;
    if from < END {
      EvictableLess(m, slot, from + 1);
    }
  }

  lemma {:induction false} NothingEvictable(m: Sets, from: nat)
    requires forall t :: from <= t < END ==> Expiry(m, t).None?
    ensures Evictable(m, from) == 0
    decreases END - from
  {
    if from < END {
      NothingEvictable(m, from + 1);
    }
  }
}
