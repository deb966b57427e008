/** The credential functions of aj_creds.c over the NVRAM store. */
module CredStore {
  import opened Common
  import opened NvramLayout
  import opened NvramStore
  import opened NvramChunks
  import opened CredLayout

  /** A whole read of `n` octets: possible if and only if they are there. */
  method ReadField(s: Store, h: Handle, n: nat) returns (ok: bool, bytes: seq<byte>)
    requires s.Valid() && s.HandleOk(h) && h.mode == 'r' && 0 < n < 0x1_0000
    modifies h`curPos
    ensures s.HandleOk(h)
    ensures ok <==> old(h.curPos) + n <= h.capacity
    ensures ok ==> h.curPos == old(h.curPos) + n && bytes == Data(s, h)[old(h.curPos)..h.curPos]
  {
    hide Chain, Contents, Offset;
    DataInMap(s, h);
    var k;
    k, bytes := s.Read(h, n);
    ok := k == n;
  }

  /** ReadRemainderOfCredential; allocation does not fail. */
  method ReadRemainder(s: Store, h: Handle) returns (status: Status, rest: Option<(nat, seq<byte>, seq<byte>)>)
    requires s.Valid() && s.HandleOk(h) && h.mode == 'r'
    modifies h`curPos
    ensures rest == RestAt(old(Data(s, h)), old(h.curPos))
    ensures status == if rest.Some? then OK else ErrFailure
  {
    hide Chain, Contents, Offset, ReadU32, Store.Valid, Store.HandleOk;
    ghost var d := Data(s, h);
    ghost var p := h.curPos;
    var ok, expiration, len, association, data := false, [], [], [], [];
    ok, expiration := ReadField(s, h, 4);
    if !ok {
      return ErrFailure, None;
    }
    ok, len := ReadField(s, h, 1);
    if !ok {
      return ErrFailure, None;
    }
    var idLen := len[0];
    assert idLen == d[p + 4];
    if idLen > 0 {
      ok, association := ReadField(s, h, idLen);
      if !ok {
        return ErrFailure, None;
      }
    }
    ok, len := ReadField(s, h, 2);
    if !ok {
      return ErrFailure, None;
    }
    assert ReadU16(len, 0) == ReadU16(d, p + 5 + |association|);
    if ReadU16(len, 0) > 0 {
      ok, data := ReadField(s, h, ReadU16(len, 0));
      if !ok {
        return ErrFailure, None;
      }
    }
    return OK, Some((ReadU32(expiration), association, data));
  }

  /** Reads the type and id of a slot as far as they match; the handle is left behind them if they do. */
  method MatchSlot(s: Store, h: Handle, typ: nat, id: seq<byte>) returns (matches: bool)
    requires s.Valid() && s.HandleOk(h) && h.mode == 'r' && h.curPos == 0 && |id| < 0x100
    modifies h`curPos
    ensures s.HandleOk(h)
    ensures matches <==> KeyOf(Data(s, h)) == Some((typ, id))
    ensures matches ==> h.curPos == 3 + |id|
  {
    hide Chain, Contents, Offset, Store.Valid, Store.HandleOk;
    ghost var d := Data(s, h);
    var ok, bytes := ReadField(s, h, 2);
    if !ok {
      return false;
    }
    assert ReadU16(bytes, 0) == ReadU16(d, 0);
    if ReadU16(bytes, 0) != typ {
      return false;
    }
    ok, bytes := ReadField(s, h, 1);
    if !ok || bytes[0] != |id| || bytes[0] == 0 {
      return false;
    }
    ok, bytes := ReadField(s, h, |id|);
    return ok && bytes == id;
  }

  /** FindCredential: a short query finds the slot, a full query also reads the rest. */
  method FindCredential(s: Store, typ: nat, id: seq<byte>, full: bool) returns (slot: nat, cred: Option<Cred>)
    requires s.Valid() && typ < 0x1_0000 && |id| < 0x100
    modifies s`es, s.mem
    ensures s.Valid() && s.es == old(s.es) && s.mem[..] == old(s.mem[..])
    ensures !full ==> slot == SlotOf(s.Map(), typ, id, BEGIN)
    ensures full ==> slot == (if Lookup(s.Map(), typ, id).Some? then SlotOf(s.Map(), typ, id, BEGIN) else 0)
    ensures full ==> cred == Lookup(s.Map(), typ, id)
  {
    hide Chain, Contents, Offset, Store.Valid, Store.HandleOk, KeyOf, RestAt;
    slot := BEGIN;
    while slot < END
      invariant BEGIN <= slot <= END
      invariant s.Valid() && s.es == old(s.es) && s.mem[..] == old(s.mem[..])
      invariant SlotOf(s.Map(), typ, id, BEGIN) == SlotOf(s.Map(), typ, id, slot)
      decreases END - slot
    {
      var present := s.Exist(slot);
      if present {
        var h := s.Open(slot, "r", 0);
        DataInMap(s, h);
        var matches := MatchSlot(s, h, typ, id);
        if matches {
          if !full {
            return slot, None;
          }
          var status, rest := ReadRemainder(s, h);
          if status != OK {
            return 0, None;
          }
          return slot, Some(Cred(typ, id, rest.value.0, rest.value.1, rest.value.2));
        }
      }
      slot := slot + 1;
    }
    return 0, None;
  }

  /** AJ_GetCredential: finds exactly what is stored under the key. */
  method GetCredential(s: Store, typ: nat, id: seq<byte>) returns (status: Status, cred: Option<Cred>)
    requires s.Valid() && typ < 0x1_0000 && |id| < 0x100
    modifies s`es, s.mem
    ensures s.Valid() && s.es == old(s.es) && s.mem[..] == old(s.mem[..])
    ensures cred == Lookup(s.Map(), typ, id)
    ensures status == if cred.Some? then OK else ErrFailure
  {
    var slot;
    slot, cred := FindCredential(s, typ, id, true);
    status := if slot != 0 then OK else ErrFailure;
  }

  /** AJ_DeleteCredential. */
  method DeleteCredential(s: Store, typ: nat, id: seq<byte>) returns (status: Status)
    requires s.Valid() && typ < 0x1_0000 && |id| < 0x100
    modifies s`es, s.mem
    ensures s.Valid()
    ensures status == if SlotOf(old(s.Map()), typ, id, BEGIN) != 0 then OK else ErrFailure
    ensures status != OK ==> s.Map() == old(s.Map())
    ensures status == OK ==> s.Map() == old(s.Map()) - {SlotOf(old(s.Map()), typ, id, BEGIN)}
    ensures old(Unique(s.Map())) ==> Unique(s.Map()) && Lookup(s.Map(), typ, id) == None
    ensures old(Unique(s.Map())) ==>
              forall t: nat, i: seq<byte> :: (t, i) != (typ, id) ==> Lookup(s.Map(), t, i) == Lookup(old(s.Map()), t, i)
  {
    hide Unique, Parse, KeyOf, Chain, Contents, Store.Valid;
    status := ErrFailure;
    ghost var m := s.Map();
    if Unique(m) {
      DeletedKey(m, typ, id);
    }
    var slot, _ := FindCredential(s, typ, id, false);
    if slot > 0 {
      status := s.Delete(slot);
      assert s.Map() == m - {slot};
    }
  }

  /** A length of one octet and, unless it is zero, as many octets. */
  method WriteShort(s: Store, h: Handle, bytes: seq<byte>, junk: seq<byte>) returns (ok: bool)
    requires s.Valid() && s.HandleOk(h) && h.mode == 'w' && |bytes| < 0x100 && |junk| == 4
    modifies s`es, s.mem, h`curPos
    ensures s.Valid() && s.HandleOk(h)
    ensures s.Map() - {h.id} == old(s.Map()) - {h.id}
    ensures ok <==> h.capacity - old(h.curPos) < 0x8000 && old(h.curPos) + 1 + |bytes| <= h.capacity
    ensures ok ==> h.curPos == old(h.curPos) + 1 + |bytes|
    ensures ok ==> Data(s, h)[..h.curPos] == old(Data(s, h)[..h.curPos]) + ([|bytes|] + bytes)
    ensures Data(s, h)[..old(h.curPos)] == old(Data(s, h)[..h.curPos])
    ensures old(h.curPos) < h.capacity < 0x8000 ==> Data(s, h)[old(h.curPos)] == |bytes|
  {
    hide Chain, Contents, Offset, LiveSize, Store.Valid, Store.HandleOk;
    ghost var pos := h.curPos;
    ok := WriteField(s, h, [|bytes|], junk);
    if ok && |bytes| > 0 {
      ghost var d := Data(s, h)[..h.curPos];
      assert |d| == pos + 1 && d[pos] == |bytes|;
      ok := WriteField(s, h, bytes, junk);
      assert Data(s, h)[..pos + 1] == d && Data(s, h)[..pos] == d[..pos];
      assert ok ==> d + bytes == old(Data(s, h)[..h.curPos]) + ([|bytes|] + bytes);
    }
  }

  /** A length of two octets and, unless it is zero, as many octets. */
  method WriteLong(s: Store, h: Handle, bytes: seq<byte>, junk: seq<byte>) returns (ok: bool)
    requires s.Valid() && s.HandleOk(h) && h.mode == 'w' && |bytes| < 0x1_0000 && |junk| == 4
    modifies s`es, s.mem, h`curPos
    ensures s.Valid() && s.HandleOk(h)
    ensures s.Map() - {h.id} == old(s.Map()) - {h.id}
    ensures ok <==> h.capacity - old(h.curPos) < 0x8000 && old(h.curPos) + 2 + |bytes| <= h.capacity
    ensures ok ==> h.curPos == old(h.curPos) + 2 + |bytes|
    ensures ok ==> Data(s, h)[..h.curPos] == old(Data(s, h)[..h.curPos]) + (U16(|bytes|) + bytes)
    ensures Data(s, h)[..old(h.curPos)] == old(Data(s, h)[..h.curPos])
  {
    hide Chain, Contents, Offset, LiveSize, Store.Valid, Store.HandleOk, U16;
    ghost var pos := h.curPos;
    ok := WriteField(s, h, U16(|bytes|), junk);
    if ok && |bytes| > 0 {
      ghost var d := Data(s, h)[..h.curPos];
      ok := WriteField(s, h, bytes, junk);
      assert Data(s, h)[..pos] == d[..pos];
      assert ok ==> d + bytes == old(Data(s, h)[..h.curPos]) + (U16(|bytes|) + bytes);
    }
  }

  /** The fields of a credential, one write after the other. */
  method WriteCred(s: Store, h: Handle, c: Cred, junk: seq<seq<byte>>) returns (ok: bool)
    requires s.Valid() && s.HandleOk(h) && h.mode == 'w' && h.curPos == 0 && c.Ok()
    requires |junk| == 5 && forall i :: 0 <= i < 5 ==> |junk[i]| == 4
    modifies s`es, s.mem, h`curPos
    ensures s.Valid() && s.HandleOk(h)
    ensures s.Map() - {h.id} == old(s.Map()) - {h.id}
    ensures ok <==> h.capacity < 0x8000 && c.Size() <= h.capacity
    ensures ok ==> Data(s, h)[..c.Size()] == Ser(c)
    ensures h.capacity >= 0x8000 ==> Data(s, h) == old(Data(s, h))
    ensures h.capacity < 0x8000 ==> KeyOf(Data(s, h)) == KeyWritten(c, h.capacity)
  {
    hide Chain, Contents, Offset, LiveSize, Store.Valid, Store.HandleOk, Ser, U16, U32;
    ok := WriteField(s, h, U16(c.typ), junk[0]);
    if !ok {
      return;
    }
    ok := WriteShort(s, h, c.id, junk[1]);
    if !ok {
      return;
    }
    ghost var head := Data(s, h)[..h.curPos];
    assert head == [] + U16(c.typ) + ([|c.id|] + c.id);
    ok := WriteTail(s, h, c, junk);
    HeadWritten(c, Data(s, h));
    SerParts(c);
  }

  /** The fields behind the id. */
  method WriteTail(s: Store, h: Handle, c: Cred, junk: seq<seq<byte>>) returns (ok: bool)
    requires s.Valid() && s.HandleOk(h) && h.mode == 'w' && c.Ok()
    requires |junk| == 5 && forall i :: 0 <= i < 5 ==> |junk[i]| == 4
    modifies s`es, s.mem, h`curPos
    ensures s.Valid() && s.HandleOk(h)
    ensures s.Map() - {h.id} == old(s.Map()) - {h.id}
    ensures ok <==> h.capacity - old(h.curPos) < 0x8000 && old(h.curPos) + 7 + |c.association| + |c.data| <= h.capacity
    ensures ok ==> h.curPos == old(h.curPos) + 7 + |c.association| + |c.data|
    ensures ok ==> Data(s, h)[..h.curPos]
                   == old(Data(s, h)[..h.curPos]) + U32(c.expiration) + ([|c.association|] + c.association)
                     + (U16(|c.data|) + c.data)
    ensures Data(s, h)[..old(h.curPos)] == old(Data(s, h)[..h.curPos])
  {
    hide Chain, Contents, Offset, LiveSize, Store.Valid, Store.HandleOk, U16, U32;
    ghost var pos := h.curPos;
    ok := WriteField(s, h, U32(c.expiration), junk[2]);
    if !ok {
      return;
    }
    ghost var d := Data(s, h)[..h.curPos];
    ok := WriteShort(s, h, c.association, junk[3]);
    assert Data(s, h)[..pos] == d[..pos];
    if !ok {
      return;
    }
    ghost var d' := Data(s, h)[..h.curPos];
    ok := WriteLong(s, h, c.data, junk[4]);
    assert Data(s, h)[..pos] == d'[..pos];
  }

  /** A data set that starts with type and id has that key, whatever follows. */
  lemma HeadWritten(c: Cred, d: seq<byte>)
    requires c.Ok()
    ensures 3 + |c.id| <= |d| && d[..3 + |c.id|] == [] + U16(c.typ) + ([|c.id|] + c.id) ==>
      KeyOf(d) == KeyWritten(c, |d|)
  {
    if 3 + |c.id| <= |d| && d[..3 + |c.id|] == [] + U16(c.typ) + ([|c.id|] + c.id) {
      assert d[..3 + |c.id|] == Head(c.typ, c.id) + [];
      KeyFromHead(c.typ, c.id, d, []);
    }
  }

  /** The capacity of the data set that is created for a credential, its size cut to 16 bits. */
  function Capacity(size: nat): nat {
    WordAlign(size % 0x1_0000) % 0x1_0000
  }

  /**
   UpdateCred: succeeds if and only if the credential is no longer than a signed length and has
   room in place of what the slot holds.  What a failure leaves behind depends on the capacity.
   */
  method UpdateCred(s: Store, c: Cred, slot: nat, junk: seq<seq<byte>>) returns (status: Status)
    requires s.Valid() && c.Ok() && BEGIN <= slot < END
    requires |junk| == 5 && forall i :: 0 <= i < 5 ==> |junk[i]| == 4
    modifies s`es, s.mem
    ensures s.Valid() && s.Map() - {slot} == old(s.Map()) - {slot}
    ensures status == OK <==> c.Size() <= 0x7FFC && RoomFor(old(s.es), slot, c.Size(), s.mem.Length)
    ensures status == OK ==> slot in s.Map() && c.Size() <= |s.Map()[slot]| && s.Map()[slot][..c.Size()] == Ser(c)
    ensures status != OK && c.Size() <= 0x7FFC ==> s.Map() == old(s.Map()) - {slot}
    ensures c.Size() % 0x1_0000 == 0 ==> s.Map() == old(s.Map())
    ensures c.Size() % 0x1_0000 != 0 && !RoomOf(old(s.es), slot, Capacity(c.Size()), s.mem.Length) ==>
      s.Map() == old(s.Map()) - {slot}
    ensures Opens(old(s.es), slot, c, s.mem.Length) ==> slot in s.Map()
    ensures Opens(old(s.es), slot, c, s.mem.Length) && Capacity(c.Size()) >= 0x8000 ==>
      s.Map()[slot] == Erased(Capacity(c.Size()))
    ensures Opens(old(s.es), slot, c, s.mem.Length) && Capacity(c.Size()) < 0x8000 ==>
              KeyOf(s.Map()[slot]) == KeyWritten(c, Capacity(c.Size()))
  {
    hide Chain, Contents, Offset, LiveSize, Store.Valid, Ser;
    var h := s.Open(slot, "w", c.Size() % 0x1_0000);
    if h == null {
      return ErrFailure;
    }
    DataInMap(s, h);
    var ok := WriteCred(s, h, c, junk);
    DataInMap(s, h);
    status := if ok then OK else ErrFailure;
  }

  /** There is room for a data set of this size in place of what a slot holds, after compaction. */
  ghost predicate RoomFor(es: seq<Entry>, slot: nat, size: nat, length: nat) {
    RoomOf(es, slot, WordAlign(size), length)
  }

  ghost predicate RoomOf(es: seq<Entry>, slot: nat, capacity: nat, length: nat) {
    SENTINEL_OFFSET + LiveSize(es) - SizeIn(Contents(es), slot) + ENTRY_HEADER_SIZE + capacity <= length
  }

  /** The data set for the credential is created in the slot. */
  ghost predicate Opens(es: seq<Entry>, slot: nat, c: Cred, length: nat) {
    c.Size() % 0x1_0000 != 0 && RoomOf(es, slot, Capacity(c.Size()), length)
  }

  /** The whole of a slot, as eviction reads it: has it a key, and does it go on to be a credential? */
  method ReadCred(s: Store, h: Handle) returns (keyed: bool, cred: Option<Cred>)
    requires s.Valid() && s.HandleOk(h) && h.mode == 'r' && h.curPos == 0
    modifies h`curPos
    ensures keyed == KeyOf(old(Data(s, h))).Some? && cred == Parse(old(Data(s, h)))
  {
    hide Chain, Contents, Offset, Store.Valid, Store.HandleOk, RestAt;
    ghost var d := Data(s, h);
    var ok, typ := ReadField(s, h, 2);
    if !ok {
      return false, None;
    }
    assert ReadU16(typ, 0) == ReadU16(d, 0);
    var len, id;
    ok, len := ReadField(s, h, 1);
    assert ok ==> len[0] == d[2];
    if !ok || len[0] == 0 {
      return false, None;
    }
    ok, id := ReadField(s, h, len[0]);
    if !ok {
      return false, None;
    }
    assert KeyOf(d) == Some((ReadU16(typ, 0), id));
    var _, rest := ReadRemainder(s, h);
    assert rest == RestAt(d, 3 + |id|);
    return true, if rest.Some? then Some(Cred(ReadU16(typ, 0), id, rest.value.0, rest.value.1, rest.value.2)) else None;
  }

  /**
   AJ_DeleteOldestCredential: gives up if some slot cannot be read to its end, deletes the oldest
   generic credential, or finds none and still reports success.
   */
  method DeleteOldest(s: Store) returns (status: Status, deleteSlot: nat)
    requires s.Valid()
    modifies s`es, s.mem
    ensures s.Valid()
    ensures status == if exists t :: 2 <= t < 42 && Broken(old(s.Map()), t) then ErrFailure else OK
    ensures deleteSlot == 0 <==> status != OK || forall t :: 2 <= t < 42 ==> !HoldsGeneric(old(s.Map()), t)
    ensures deleteSlot != 0 ==>
      var m := old(s.Map());
      && 2 <= deleteSlot < 42 && HoldsGeneric(m, deleteSlot)
      && forall t :: 2 <= t < 42 && HoldsGeneric(m, t) ==>
           Parse(m[deleteSlot]).value.expiration <= Parse(m[t]).value.expiration
    ensures deleteSlot == 0 ==> s.Map() == old(s.Map()) && LiveSize(s.es) == old(LiveSize(s.es))
    ensures deleteSlot != 0 ==> Oldest(old(s.Map()), deleteSlot) && s.Map() == old(s.Map()) - {deleteSlot}
    ensures deleteSlot != 0 ==> LiveSize(s.es) + SizeIn(old(s.Map()), deleteSlot) == old(LiveSize(s.es))
  {
    hide Chain, Contents, Offset, Store.Valid, LiveSize, Oldest, Expiry, Broken, Parse, HoldsGeneric;
    ghost var m := s.Map();
    status, deleteSlot := FindOldest(s);
    OldestGeneric(m, deleteSlot);
    assert s.Map() == m;
    if deleteSlot != 0 {
      var _ := s.Delete(deleteSlot);
    }
  }

  /** What has an expiration, and what the oldest is, in numbers. */
  lemma OldestGeneric(m: Sets, slot: nat)
    ensures forall t :: Expiry(m, t).Some? <==> HoldsGeneric(m, t)
    ensures Oldest(m, slot) ==>
      && 2 <= slot < 42 && HoldsGeneric(m, slot)
      && forall t :: 2 <= t < 42 && HoldsGeneric(m, t) ==>
           Parse(m[slot]).value.expiration <= Parse(m[t]).value.expiration
  {
    hide Parse;
    if Oldest(m, slot) {
      forall t | 2 <= t < 42 && HoldsGeneric(m, t)
        ensures Parse(m[slot]).value.expiration <= Parse(m[t]).value.expiration
      {
        assert Expiry(m, t).Some?;
      }
    }
  }

  /** Its loop over the slots. */
  method FindOldest(s: Store) returns (status: Status, oldestslot: nat)
    requires s.Valid()
    modifies s`es, s.mem
    ensures s.Valid() && s.es == old(s.es)
    ensures status == if exists t :: BEGIN <= t < END && Broken(s.Map(), t) then ErrFailure else OK
    ensures oldestslot == 0 <==> status != OK || forall t :: BEGIN <= t < END ==> Expiry(s.Map(), t).None?
    ensures oldestslot != 0 ==> Oldest(s.Map(), oldestslot) && BEGIN <= oldestslot < END && oldestslot in s.Map()
  {
    hide Chain, Contents, Offset, Store.Valid, Store.HandleOk, Parse, KeyOf, LiveSize;
    var slot: nat, oldestexp: nat := BEGIN, 0xFFFFFFFF;
    oldestslot := 0;
    while slot < END
      invariant BEGIN <= slot <= END
      invariant s.Valid() && s.es == old(s.es) && s.mem[..] == old(s.mem[..])
      invariant forall t :: BEGIN <= t < slot ==> !Broken(s.Map(), t)
      invariant oldestslot != 0 ==> BEGIN <= oldestslot < slot && Expiry(s.Map(), oldestslot) == Some(oldestexp)
      invariant forall t :: BEGIN <= t < slot && Expiry(s.Map(), t).Some? ==>
        oldestslot != 0 && oldestexp <= Expiry(s.Map(), t).value
      invariant oldestslot != 0 ==> forall t :: oldestslot < t < slot && Expiry(s.Map(), t).Some? ==>
        oldestexp < Expiry(s.Map(), t).value
      invariant oldestslot == 0 ==> oldestexp == 0xFFFFFFFF
      decreases END - slot
    {
      var present := s.Exist(slot);
      if present {
        var h := s.Open(slot, "r", 0);
        DataInMap(s, h);
        var keyed, cred := ReadCred(s, h);
        if keyed && cred.None? {
          assert Broken(s.Map(), slot);
          return ErrFailure, 0;
        }
        if cred.Some? && cred.value.expiration <= oldestexp && cred.value.typ == GENERIC {
          oldestexp := cred.value.expiration;
          oldestslot := slot;
        }
      }
      slot := slot + 1;
    }
    status := OK;
    if oldestslot != 0 {
      assert Expiry(s.Map(), oldestslot).Some?;
    } else {
      forall t | BEGIN <= t < END ensures Expiry(s.Map(), t).None? {
        assert BEGIN <= t < slot;
      }
    }
  }

  /** FindCredsEmptySlot. */
  method FindEmptySlot(s: Store) returns (slot: nat)
    requires s.Valid()
    ensures slot == 0 ==> forall t :: 2 <= t < 42 ==> t in s.Map()
    ensures slot != 0 ==> 2 <= slot < 42 && slot !in s.Map() && forall t :: 2 <= t < slot ==> t in s.Map()
  {
    slot := BEGIN;
    while slot < END
      invariant BEGIN <= slot <= END
      invariant forall t :: BEGIN <= t < slot ==> t in s.Map()
    {
      var present := s.Exist(slot);
      if !present {
        return slot;
      }
      slot := slot + 1;
    }
    return 0;
  }

  /** The store has to make room: no slot is free, or not enough memory. */
  ghost predicate Crowded(m: Sets, len: nat, remaining: int) {
    len >= remaining || forall t :: BEGIN <= t < END ==> t in m
  }

  ghost predicate AnyBroken(m: Sets) {
    exists t :: BEGIN <= t < END && Broken(m, t)
  }

  ghost predicate AnyGeneric(m: Sets) {
    exists t :: BEGIN <= t < END && Expiry(m, t).Some?
  }

  /** The eviction loop never ends: it has to make room, and all it may delete is not enough. */
  ghost predicate NeverEnds(m: Sets, len: nat, remaining: int) {
    Crowded(m, len, remaining) && !AnyBroken(m) && (!AnyGeneric(m) || len >= remaining + Evictable(m, BEGIN))
  }

  /** What eviction takes: generic credentials, the oldest before all others. */
  ghost predicate Evicted(m: Sets, gone: set<nat>) {
    && (forall g :: g in gone ==> BEGIN <= g < END && Expiry(m, g).Some?)
    && (forall g, t :: g in gone && BEGIN <= t < END && t !in gone && Expiry(m, t).Some? ==>
         Expiry(m, g).value <= Expiry(m, t).value)
  }

  ghost function Remaining(s: Store): int
    reads s
  {
    s.mem.Length - SENTINEL_OFFSET - LiveSize(s.es)
  }

  /**
   The eviction loop of AJ_StoreCredential.  When it finds nothing to delete it has changed
   nothing and goes on for ever; here it stops and says so.
   */
  method Evict(s: Store, len: nat) returns (status: Status, slot: nat, hung: bool, ghost gone: set<nat>)
    requires s.Valid()
    modifies s`es, s.mem
    ensures s.Valid() && s.Map() == old(s.Map()) - gone && Evicted(old(s.Map()), gone)
    ensures hung <==> old(NeverEnds(s.Map(), len, Remaining(s)))
    ensures status == if old(Crowded(s.Map(), len, Remaining(s)) && AnyBroken(s.Map())) then ErrFailure else OK
    ensures status == OK && !hung ==> BEGIN <= slot < END && slot !in s.Map() && len < Remaining(s)
    ensures status != OK ==> slot == 0 && gone == {}
    ensures old(slot in s.Map()) && slot != 0 ==> slot in gone
    ensures gone != {} && !hung && len < old(Remaining(s)) ==> gone == {slot}
    ensures gone != {} && !hung ==>
              old(Crowded(s.Map(), len, Remaining(s)))
                && (gone == {slot} || len >= Remaining(s) - SizeIn(old(s.Map()), slot))
  {
    hide Chain, Contents, Offset, Store.Valid, Expiry, Broken, LiveSize, Oldest, Evicted, Evictable;
    slot := FindEmptySlot(s);
    var remaining := s.GetSizeRemaining();
    status, hung, gone := OK, false, {};
    ghost var m := s.Map();
    ghost var total := remaining + Evictable(m, BEGIN);
    ghost var slot0, remaining0 := slot, remaining;
    EvictNone(m);
    while status == OK && (slot == 0 || len >= remaining)
      invariant s.Valid() && s.Map() == m - gone && Evicted(m, gone) && status == OK
      invariant remaining == Remaining(s) && total == remaining + Evictable(s.Map(), BEGIN)
      invariant slot != 0 ==> BEGIN <= slot < END && slot !in s.Map() && (slot in m ==> slot in gone)
      invariant gone == {} ==> slot == slot0 && remaining == remaining0
      invariant gone != {} ==>
        && slot != 0 && slot in gone && !AnyBroken(m) && (slot0 == 0 || len >= remaining0)
        && AnyGeneric(m)
      invariant gone != {} ==> gone == {slot} || len >= remaining - SizeIn(m, slot)
      invariant gone != {} && len < remaining0 ==> gone == {slot} && len < remaining
      decreases Evictable(s.Map(), BEGIN)
    {
      SameBroken(m, gone);
      ghost var left := s.Map();
      assert left == m - gone;
      status, slot := DeleteOldest(s);
      if status != OK {
        return;
      }
      if slot == 0 {
        OldestGeneric(left, slot);
        NothingEvictable(left, BEGIN);
        assert !AnyGeneric(left) && Evictable(left, BEGIN) == 0;
        hung := true;
        return;
      }
      EvictOne(m, gone, slot);
      gone := gone + {slot};
      remaining := s.GetSizeRemaining();
    }
  }

  /** Eviction neither takes nor leaves behind a broken slot. */
  lemma SameBroken(m: Sets, gone: set<nat>)
    requires Evicted(m, gone)
    ensures AnyBroken(m - gone) <==> AnyBroken(m)
    ensures gone == {} ==> m - gone == m
  {
    hide Parse, KeyOf;
    forall t | BEGIN <= t < END ensures Broken(m - gone, t) <==> Broken(m, t) {
      assert t in gone ==> Expiry(m, t).Some?;
    }
  }

  lemma EvictNone(m: Sets)
    ensures Evicted(m, {}) && m - {} == m
  {
  }

  lemma EvictOne(m: Sets, gone: set<nat>, slot: nat)
    requires Evicted(m, gone) && Oldest(m - gone, slot)
    ensures Evicted(m, gone + {slot}) && m - gone - {slot} == m - (gone + {slot})
    ensures BEGIN <= slot < END && slot in m && Expiry(m, slot).Some? && slot !in gone
    ensures Evictable(m - gone, BEGIN) == Evictable(m - gone - {slot}, BEGIN) + SizeIn(m, slot) && SizeIn(m, slot) > 0
    ensures SizeIn(m - gone, slot) == SizeIn(m, slot)
    ensures gone == {} ==> gone + {slot} == {slot}
  {
    hide Expiry, Evictable;
    forall t ensures Expiry(m - gone, t) == if t in gone then None else Expiry(m, t) {
      ExpiryLess(m, gone, t);
    }
    ExpiryLess(m - gone, {slot}, slot);
    EvictableLess(m - gone, slot, BEGIN);
    assert m - gone - {slot} == m - (gone + {slot});
  }

  lemma ExpiryLess(m: Sets, gone: set<nat>, t: nat)
    ensures Expiry(m - gone, t) == if t in gone then None else Expiry(m, t)
    ensures Expiry(m, t).Some? ==> t in m
  {
    hide Parse;
  }

  /** When AJ_StoreCredential succeeds, given the slot its key has and the state before. */
  ghost predicate CanStore(es: seq<Entry>, found: nat, c: Cred, length: nat) {
    var m, len, remaining := Contents(es), WordAlign(c.Size()), length - SENTINEL_OFFSET - LiveSize(es);
    c.Size() <= 0x7FFC
    && if found != 0 then RoomFor(es, found, c.Size(), length)
       else !NeverEnds(m, len, remaining) && !(Crowded(m, len, remaining) && AnyBroken(m))
  }

  /**
   AJ_StoreCredential creates a data set for the credential and cannot write to it: it is longer
   than a signed length.  The data set stays erased.
   */
  ghost predicate Wipes(es: seq<Entry>, found: nat, c: Cred, length: nat) {
    var m, len, remaining := Contents(es), WordAlign(c.Size()), length - SENTINEL_OFFSET - LiveSize(es);
    && Capacity(c.Size()) >= 0x8000
    && if found != 0 then Opens(es, found, c, length)
       else !NeverEnds(m, len, remaining) && !(Crowded(m, len, remaining) && AnyBroken(m))
  }

  /** The slots a store leaves alone: all but those eviction takes and the one that had the key. */
  function Others(m: Sets, gone: set<nat>, found: nat): Sets {
    m - gone - if found != 0 then {found} else {}
  }

  /** AJ_StoreCredential. */
  method StoreCredential(s: Store, c: Cred, junk: seq<seq<byte>>)
    returns (status: Status, hung: bool, ghost gone: set<nat>)
    requires s.Valid() && c.Ok() && |junk| == 5 && forall i :: 0 <= i < 5 ==> |junk[i]| == 4
    modifies s`es, s.mem
    ensures s.Valid() && Evicted(old(s.Map()), gone)
    ensures var found := SlotOf(old(s.Map()), c.typ, c.id, BEGIN);
      && (hung <==> found == 0 && old(NeverEnds(s.Map(), WordAlign(c.Size()), Remaining(s))))
      && (status == OK && !hung <==> CanStore(old(s.es), found, c, s.mem.Length))
      && (found != 0 ==> gone == {})
    ensures forall t :: t in old(s.Map()) && !(2 <= t < 42) ==> t in s.Map() && s.Map()[t] == old(s.Map())[t]
    ensures var found := SlotOf(old(s.Map()), c.typ, c.id, BEGIN);
      var wiped := Wipes(old(s.es), found, c, s.mem.Length);
      && (wiped ==> status != OK && AnyBroken(s.Map()))
      && (old(Unique(s.Map())) ==>
            (Unique(s.Map()) <==> !(wiped && SlotOf(Others(old(s.Map()), gone, found),
              ERASED_TYPE, ERASED_ID, BEGIN) != 0)))
    ensures status == OK && !hung && old(Unique(s.Map())) ==>
              Lookup(s.Map(), c.typ, c.id) == (if c.id != [] then Some(c) else None) && Unique(s.Map())
    ensures status == OK && !hung && old(Unique(s.Map())) ==>
              forall typ: nat, id: seq<byte> :: (typ, id) != (c.typ, c.id) ==>
                Lookup(s.Map(), typ, id) == if SlotOf(old(s.Map()), typ, id, BEGIN) in gone
                  then None else Lookup(old(s.Map()), typ, id)
  {
    hide Chain, Contents, Offset, LiveSize, Evicted, Lookup, Unique, SlotOf, WordAlign, NeverEnds, Crowded, AnyBroken,
         Parse, KeyOf, RoomOf, Capacity, Others;
    ghost var m := s.Map();
    CapacityIs(c.Size());
    var slot, _ := FindCredential(s, c.typ, c.id, false);
    ghost var found := slot;
    hung, gone, status := false, {}, OK;
    EvictNone(m);
    if slot == 0 {
      var len := WordAlign(c.Size());
      status, slot, hung, gone := Evict(s, len);
      if hung {
        KeptUnique(m, gone);
        return;
      }
      if slot != 0 {
        EvictedRoom(s.mem[..], s.es, slot, c.Size());
        EvictedOpens(s.mem[..], s.es, slot, c);
      }
    }
    if slot != 0 {
      ghost var left, wiped := s.Map(), Opens(s.es, slot, c, s.mem.Length) && Capacity(c.Size()) >= 0x8000;
      status := UpdateCred(s, c, slot, junk);
      StoredLookup(m, left, s.Map(), gone, slot, c, status == OK);
      FailedStore(m, left, s.Map(), gone, slot, found, c, wiped, status == OK);
    } else {
      status := ErrFailure;
      KeptUnique(m, gone);
    }
  }

  lemma CapacityIs(size: nat)
    ensures size <= 0x7FFC ==> Capacity(size) <= 0x7FFC
    ensures Capacity(size) < 0x1_0000
  {
  }

  /** In a slot eviction has made room for, the data set is created in its full size. */
  lemma EvictedOpens(m: seq<byte>, es: seq<Entry>, slot: nat, c: Cred)
    requires Chain(m, es) && slot !in Contents(es) && WordAlign(c.Size()) < |m| - SENTINEL_OFFSET - LiveSize(es)
    ensures Opens(es, slot, c, |m|)
  {
    hide Chain, Contents, LiveSize;
    DistinctOf(m, es);
    EvictedRoom(m, es, slot, c.Size());
  }

  /**
   What a store leaves of the uniqueness of keys.  A slot that was wiped has the key erased octets
   read as; any other failure leaves the slot without a key, or with the credential's own.
   */
  lemma FailedStore(m: Sets, left: Sets, m': Sets, gone: set<nat>, slot: nat, found: nat, c: Cred, wiped: bool,
                    ok: bool)
    requires
      && left == m - gone && m' - {slot} == left - {slot} && BEGIN <= slot < END
      && SlotOf(m, c.typ, c.id, BEGIN) == found
    requires if found == 0 then slot !in left else found == slot && gone == {}
    requires ok ==> !wiped && (Unique(m) ==> Unique(m'))
    requires wiped ==> slot in m' && m'[slot] == Erased(Capacity(c.Size())) && Capacity(c.Size()) >= 0x8000
    requires !ok && !wiped ==>
               m' == left || m' == left - {slot} || (slot in m' && KeyOf(m'[slot]) == KeyWritten(c, Capacity(c.Size())))
    ensures wiped ==> AnyBroken(m')
    ensures Unique(m) ==>
      (Unique(m') <==> !(wiped && SlotOf(Others(m, gone, found), ERASED_TYPE, ERASED_ID, BEGIN) != 0))
  {
    hide Parse, KeyOf, Capacity, SlotOf;
    CapacityIs(c.Size());
    if wiped {
      ErasedReads(Capacity(c.Size()));
      assert Broken(m', slot);
    }
    if Unique(m) && !ok {
      var others := Others(m, gone, found);
      assert others == left - {slot} == m' - {slot};
      forall t | BEGIN <= t < END && t != slot && t in m'
        ensures t in m && t in others && m'[t] == others[t] == m[t] && !KeyAt(m, t, c.typ, c.id)
      {
        assert t in m' - {slot} && (m' - {slot})[t] == m'[t];
        if KeyAt(m, t, c.typ, c.id) {
          SlotIs(m, c.typ, c.id, t);
          assert false;
        }
      }
      if wiped {
        var other := SlotOf(others, ERASED_TYPE, ERASED_ID, BEGIN);
        if other != 0 {
          assert KeyAt(others, other, ERASED_TYPE, ERASED_ID) && other != slot;
        } else {
          forall t | BEGIN <= t < END && t != slot && t in m' ensures KeyOf(m'[t]) != KeyOf(m'[slot]) {
            assert !KeyAt(others, t, ERASED_TYPE, ERASED_ID);
          }
        }
      }
    }
  }

  /** The strict test on word-aligned sizes leaves room for the header as well. */
  lemma EvictedRoom(m: seq<byte>, es: seq<Entry>, slot: nat, size: nat)
    requires Chain(m, es)
    ensures slot !in Contents(es) && WordAlign(size) < |m| - SENTINEL_OFFSET - LiveSize(es) ==>
      RoomFor(es, slot, size, |m|)
  {
    hide Chain, Contents, LiveSize;
    DistinctOf(m, es);
    LiveAligned(es);
  }

  lemma {:induction false} LiveAligned(es: seq<Entry>)
    requires AllOk(es)
    ensures LiveSize(es) % 4 == 0
  {
    hide Entry.Bytes, Entry.Live;
    if es != [] {
      LiveAligned(es[1..]);
    }
  }

  lemma FewerUnique(m: Sets, gone: set<nat>)
    ensures Unique(m) ==> Unique(m - gone)
  {
    hide KeyOf;
  }

  lemma KeptUnique(m: Sets, gone: set<nat>)
    requires Evicted(m, gone)
    ensures Unique(m) ==> Unique(m - gone)
    ensures forall t :: t in m && !(BEGIN <= t < END) ==> t in m - gone && (m - gone)[t] == m[t]
  {
    hide KeyOf, Expiry;
  }

  /** What the store's map looks like after the slot of the new credential has been written, or has not. */
  lemma StoredLookup(m: Sets, left: Sets, m': Sets, gone: set<nat>, slot: nat, c: Cred, ok: bool)
    requires c.Ok() && BEGIN <= slot < END && left == m - gone && m' - {slot} == left - {slot} && Evicted(m, gone)
    requires ok ==> slot in m' && c.Size() <= |m'[slot]| && m'[slot][..c.Size()] == Ser(c)
    requires SlotOf(m, c.typ, c.id, BEGIN) in {0, slot}
    requires slot in m && SlotOf(m, c.typ, c.id, BEGIN) == 0 ==> slot in gone
    ensures forall t :: t in m && !(BEGIN <= t < END) ==> t in m' && m'[t] == m[t]
    ensures !ok && Unique(m) && m' == left - {slot} ==> Unique(m')
    ensures ok && Unique(m) ==> Unique(m') && Lookup(m', c.typ, c.id) == if c.id != [] then Some(c) else None
    ensures ok && Unique(m) ==> forall typ: nat, id: seq<byte> :: (typ, id) != (c.typ, c.id) ==>
              Lookup(m', typ, id) == if SlotOf(m, typ, id, BEGIN) in gone then None else Lookup(m, typ, id)
  {
    hide Parse, KeyOf, Expiry, SlotOf, Unique, Lookup, Ser;
    forall t | t in m && !(BEGIN <= t < END) ensures t in m' && m'[t] == m[t] {
      assert t in left - {slot} && (left - {slot})[t] == m[t];
      assert t in m' - {slot} && (m' - {slot})[t] == m'[t];
    }
    KeptUnique(m, gone);
    FewerUnique(left, {slot});
    if ok && Unique(m) {
      KeyFromSer(c, m'[slot]);
      if c.id != [] {
        ParseSer(c, m'[slot]);
      }
      StoreLookup(m, m', gone, slot, c, c.typ, c.id);
      forall typ: nat, id: seq<byte> | (typ, id) != (c.typ, c.id)
        ensures Lookup(m', typ, id) == if SlotOf(m, typ, id, BEGIN) in gone then None else Lookup(m, typ, id)
      {
        StoreLookup(m, m', gone, slot, c, typ, id);
      }
    }
  }

  /** A credential of type 1 whose id is one octet. */
  function Sample(n: nat): (c: Cred)
    requires n < 0x1_0000
    ensures c.Ok() && c.Size() == 11 + n
  {
    Cred(GENERIC, [7], 0, [], seq(n, _ => 0))
  }

  lemma NothingStored(c: Cred)
    ensures Contents([]) == map[] && LiveSize([]) == 0 && Unique(map[]) && SlotOf(map[], c.typ, c.id, BEGIN) == 0
    ensures !AnyBroken(map[]) && !AnyGeneric(map[])
  {
    assert forall t :: Expiry(map[], t).None?;
    assert SlotOf(map[], c.typ, c.id, BEGIN) != 0 ==> KeyAt(map[], SlotOf(map[], c.typ, c.id, BEGIN), c.typ, c.id);
  }

  /** A new store of 96 octets, asked to take a credential of 100, never answers. */
  method NeverEndsExample() returns (hung: bool)
    ensures hung
  {
    hide Chain, Contents, LiveSize, SlotOf, Unique, AnyBroken, AnyGeneric, Evicted, Lookup, Wipes, CanStore, Sample;
    var c := Sample(89);
    NothingStored(c);
    var memory := new byte[96];
    var s := new Store(memory);
    var status;
    ghost var gone;
    status, hung, gone := StoreCredential(s, c, seq(5, _ => [0, 0, 0, 0]));
  }

  /**
   A new store of 65532 octets, asked to take a credential of 32779: it fails, and what it leaves stops
   every later eviction.
   */
  method WipedExample() returns (status: Status, hung: bool, s: Store)
    ensures status != OK && !hung && s.Valid() && AnyBroken(s.Map())
  {
    hide Chain, Contents, LiveSize, SlotOf, Unique, AnyBroken, AnyGeneric, Evicted, Lookup, CanStore, Sample;
    var c := Sample(32768);
    NothingStored(c);
    var memory := new byte[65532];
    s := new Store(memory);
    ghost var none: Sets := map[];
    assert BEGIN !in none && !Crowded(none, WordAlign(c.Size()), 65528);
    ghost var gone;
    status, hung, gone := StoreCredential(s, c, seq(5, _ => [0, 0, 0, 0]));
  }

  /** What has been stored is what is found, with every field as it was. */
  method StoreThenGet(s: Store, c: Cred, junk: seq<seq<byte>>)
    returns (stored: bool, status: Status, found: Option<Cred>)
    requires s.Valid() && Unique(s.Map()) && c.Ok() && |junk| == 5 && forall i :: 0 <= i < 5 ==> |junk[i]| == 4
    modifies s`es, s.mem
    ensures s.Valid()
    ensures stored <==> CanStore(old(s.es), SlotOf(old(s.Map()), c.typ, c.id, BEGIN), c, s.mem.Length)
    ensures stored && c.id != [] ==> status == OK && found == Some(c)
    ensures stored && c.id == [] ==> status == ErrFailure && found == None
  {
    hide Chain, Contents, Offset, LiveSize, Lookup, Unique, SlotOf, CanStore;
    found := None;
    var hung;
    ghost var gone;
    status, hung, gone := StoreCredential(s, c, junk);
    stored := status == OK && !hung;
    if stored {
      status, found := GetCredential(s, c.typ, c.id);
    }
  }
}
