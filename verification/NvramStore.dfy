/** The operations of aj_nvram.c on the memory itself, measured against the map of data sets. */
module NvramStore {
  import opened Common
  import opened NvramLayout

  /** Memory with some octets overwritten. */
  function Overwrite(m: seq<byte>, at: nat, bytes: seq<byte>): (r: seq<byte>)
    requires at + |bytes| <= |m|
    ensures |r| == |m|
  {
    m[..at] + bytes + m[at + |bytes|..]
  }

  /** Some chain of entries is in the memory. */
  ghost predicate HasChain(m: seq<byte>) {
    exists es :: Chain(m, es)
  }

  /** Writing a header at the front of the tail adds an entry of erased octets. */
  lemma CreateKeepsChain(m: seq<byte>, es: seq<Entry>, id: nat, capacity: nat)
    requires Chain(m, es) && id < 0xFFFF && capacity % 4 == 0 && capacity < 0x1_0000
    requires Offset(es, |es|) + 4 + capacity <= |m|
    requires id != 0 ==> forall i :: 0 <= i < |es| ==> es[i].id != id
    ensures Chain(Overwrite(m, Offset(es, |es|), U16(id) + U16(capacity)), es + [Entry(id, Erased(capacity))])
  {
    hide Entry.Bytes, Flat;
    var at := Offset(es, |es|);
    var e := Entry(id, Erased(capacity));
    var h := U16(id) + U16(capacity);
    TailAt(m, es);
    FlatAppend(es, [e]);
    FlatOne(e);
    CreatedBytes(id, capacity);
    var sen := m[..SENTINEL_OFFSET];
    ErasedSplit(capacity, |m| - at - 4 - capacity);
    assert m[at + 4..] == Erased(|m| - at - 4);
    assert m[..at] == sen + Flat(es);
    Appended(sen, Flat(es), h, Erased(capacity), Erased(|m| - at - 4 - capacity));
    assert Overwrite(m, at, h)[..SENTINEL_OFFSET] == sen;
  }

  lemma CreatedBytes(id: nat, capacity: nat)
    ensures Entry(id, Erased(capacity)).Bytes() == U16(id) + U16(capacity) + Erased(capacity)
  {
  }

  lemma ErasedSplit(m: nat, n: nat)
    ensures Erased(m + n) == Erased(m) + Erased(n)
  {
  }

  lemma AssocCat<T>(a: seq<T>, b: seq<T>, c: seq<T>)
    ensures (a + b) + c == a + (b + c)
  {
  }

  lemma Appended<T>(a: seq<T>, b: seq<T>, c: seq<T>, d: seq<T>, e: seq<T>)
    ensures (a + b) + c + (d + e) == a + (b + (c + d)) + e
  {
  }

  /** Overwriting entry `i` with an entry of the same size keeps the rest of the chain. */
  lemma ReplaceKeepsChain(m: seq<byte>, es: seq<Entry>, i: nat, e: Entry)
    requires Chain(m, es) && i < |es| && e.Ok() && |e.data| == |es[i].data|
    requires e.id == es[i].id || e.id == 0
    ensures Offset(es, i) + e.Size() <= |m|
    ensures Chain(Overwrite(m, Offset(es, i), e.Bytes()), es[i := e])
  {
    hide Entry.Bytes, Flat;
    var at := Offset(es, i);
    var es' := es[i := e];
    EntryAt(m, es, i);
    FlatAround(es, i);
    FlatAround(es', i);
    assert es'[..i] == es[..i] && es'[i + 1..] == es[i + 1..];
    var sen, tail := m[..SENTINEL_OFFSET], Erased(|m| - SENTINEL_OFFSET - |Flat(es)|);
    Replaced(m, sen, Flat(es[..i]), es[i].Bytes(), e.Bytes(), Flat(es[i + 1..]), tail);
    assert Overwrite(m, at, e.Bytes())[..SENTINEL_OFFSET] == sen;
  }

  lemma Replaced(m: seq<byte>, a: seq<byte>, b: seq<byte>, c: seq<byte>, c': seq<byte>, d: seq<byte>, e: seq<byte>)
    requires m == a + (b + c + d) + e && |c'| == |c|
    ensures Overwrite(m, |a| + |b|, c') == a + (b + c' + d) + e
  {
    assert m[..|a| + |b|] == a + b;
    assert m[|a| + |b| + |c|..] == d + e;
  }

  /** What adding `n >> 1` to a pointer to 16-bit numbers adds to its address. */
  function Step(n: nat): nat {
    n / 2 * 2
  }

  lemma StepIs(capacity: nat)
    requires capacity % 4 == 0
    ensures Step(4 + capacity) == 4 + capacity
  {
    var q := capacity / 4;
    StepDouble(2 + 2 * q);
  }

  lemma StepDouble(n: nat)
    ensures Step(2 * n) == 2 * n
  {
  }

  /** AJ_NV_DATASET. */
  class Handle {
    const id: nat
    const mode: char
    const capacity: nat
    const inode: nat
    /** The number of the entry in the chain. */
    ghost const slot: nat
    var curPos: nat

    constructor (id: nat, mode: char, capacity: nat, inode: nat, ghost slot: nat)
      ensures
        && this.id == id && this.mode == mode && this.capacity == capacity && this.inode == inode
        && this.slot == slot
      ensures curPos == 0
    {
      this.id, this.mode, this.capacity, this.inode, this.slot, curPos := id, mode, capacity, inode, slot, 0;
    }
  }

  /** What a data set's header and data take up. */
  function SizeIn(m: map<nat, seq<byte>>, id: nat): nat {
    if id in m then ENTRY_HEADER_SIZE + |m[id]| else 0
  }

  class Store {
    const mem: array<byte>
    /** The chain of entries the memory holds. */
    ghost var es: seq<Entry>

    ghost predicate Valid()
      reads this, mem
    {
      Chain(mem[..], es)
    }

    /** There are erased octets behind the last entry. */
    ghost predicate HasTail()
      reads this, mem
    {
      Offset(es, |es|) < mem.Length
    }

    /** The data sets by id. */
    ghost function Map(): map<nat, seq<byte>>
      reads this
    {
      Contents(es)
    }

    /** Takes over the memory and clears it: _AJ_NVRAM_Clear. */
    constructor (memory: array<byte>)
      requires 4 <= memory.Length < 0x1_0000 && memory.Length % 4 == 0
      modifies memory
      ensures mem == memory && Valid() && es == []
    {
      mem := memory;
      es := [];
      new;
      forall i | 0 <= i < mem.Length {
        mem[i] := if i == 0 then 65 else if i == 1 then 74 else if i == 2 then 78 else if i == 3 then 86 else 0xFF;
      }
    }

    /** _AJ_NV_Write: a byte copy. */
    method NVWrite(at: nat, bytes: seq<byte>)
      requires at + |bytes| <= mem.Length
      modifies mem
      ensures mem[..] == Overwrite(old(mem[..]), at, bytes)
    {
      forall i | 0 <= i < |bytes| {
        mem[at + i] := bytes[i];
      }
    }

    /**
     AJ_FindNVEntry.  For INVALID_DATA it finds the front of the erased tail, if there is one;
     `i` is the number of the entry found.
     */
    method FindNVEntry(id: nat) returns (at: Option<nat>, ghost i: nat)
      requires Valid() && id < 0x1_0000
      ensures id != 0xFFFF && at.Some? ==> i < |es| && es[i].id == id && at.value == Offset(es, i)
      ensures id != 0xFFFF && at.None? ==> forall j :: 0 <= j < |es| ==> es[j].id != id
      ensures id == 0xFFFF ==> (at.Some? <==> Offset(es, |es|) < mem.Length)
      ensures id == 0xFFFF && at.Some? ==> at.value == Offset(es, |es|)
    {
      hide Chain, Offset, ReadU16, Step, LiveSize;
      var data := SENTINEL_OFFSET;
      i := 0;
      Look(mem[..], es, 0);
      while data < mem.Length
        invariant i <= |es| && data == Offset(es, i) <= mem.Length
        invariant forall j :: 0 <= j < i ==> es[j].id != id
        decreases mem.Length - data
      {
        Look(mem[..], es, i);
        if ReadU16(mem[..], data) == id {
          return Some(data), i;
        }
        var capacity := ReadU16(mem[..], data + 2);
        if ReadU16(mem[..], data) == INVALID_DATA {
          break;
        }
        StepIs(capacity);
        data := data + Step(ENTRY_HEADER_SIZE + capacity);
        i := i + 1;
      }
      Look(mem[..], es, i);
      return None, i;
    }

    /** AJ_NVRAM_Exist.  INVALID_DATA is found in the erased tail. */
    method Exist(id: nat) returns (b: bool)
      requires Valid() && id < 0x1_0000
      ensures b <==> if id == 0xFFFF then HasTail() else id in Map()
    {
      ContentsIff(es, id);
      if id == INVALID_ID {
        return false;
      }
      var at;
      ghost var i;
      at, i := FindNVEntry(id);
      return at.Some?;
    }

    /** AJ_NVRAM_GetSize: the sentinel and the live entries with their headers. */
    method GetSize() returns (size: nat)
      requires Valid()
      ensures size == 4 + LiveSize(es) <= mem.Length
    {
      hide Chain, Offset, ReadU16, Step, LiveSize;
      var data := SENTINEL_OFFSET;
      ghost var i := 0;
      size := 0;
      Look(mem[..], es, 0);
      LiveSizeNone(es);
      while data < mem.Length && ReadU16(mem[..], data) != INVALID_DATA
        invariant i <= |es| && data == Offset(es, i) <= mem.Length && (data < mem.Length ==> data + 4 <= mem.Length)
        invariant size == LiveSize(es[..i]) && size + SENTINEL_OFFSET <= data
        decreases mem.Length - data
      {
        Look(mem[..], es, i);
        var entryId := ReadU16(mem[..], data);
        var capacity := ReadU16(mem[..], data + 2);
        if entryId != INVALID_ID {
          size := size + capacity + ENTRY_HEADER_SIZE;
        }
        StepIs(capacity);
        LiveSizeNext(es, i);
        data := data + Step(ENTRY_HEADER_SIZE + capacity);
        i := i + 1;
        Look(mem[..], es, i);
      }
      Look(mem[..], es, i);
      assert es[..|es|] == es;
      size := size + SENTINEL_OFFSET;
    }

    /** AJ_NVRAM_GetSizeRemaining. */
    method GetSizeRemaining() returns (size: nat)
      requires Valid()
      ensures size == mem.Length - 4 - LiveSize(es)
    {
      var used := GetSize();
      size := mem.Length - used;
    }

    /** One entry's turn in compaction. */
    method MoveEntry(writePtr: nat, data: nat, ghost m: seq<byte>, ghost i: nat) returns (live: bool, entrySize: nat)
      requires Chain(m, es) && i <= |es| && mem.Length == |m| && 4 <= writePtr <= data == Offset(es, i)
      requires data + 4 <= |m| && mem[data..] == m[data..] && ReadU16(mem[..], data) != 0xFFFF
      requires mem[..writePtr] == m[..4] + Flat(Compacted(es[..i]))
      modifies mem
      ensures
        && i < |es| && entrySize >= 4 && Step(entrySize) == entrySize
        && data + entrySize == Offset(es, i + 1) <= |m| < 0x1_0000
      ensures Offset(es, i + 1) < |m| ==> Offset(es, i + 1) + 4 <= |m|
      ensures mem[data + entrySize..] == m[data + entrySize..]
      ensures var end := if live then writePtr + entrySize else writePtr;
        end <= |m| && mem[..end] == m[..4] + Flat(Compacted(es[..i + 1]))
    {
      hide Chain, Offset, ReadU16, Flat, Entry.Bytes, Compacted, Step;
      CompactStart(m, es);
      AtEntry(mem[..], m, es, i);
      var id := ReadU16(mem[..], data);
      var capacity := ReadU16(mem[..], data + 2);
      entrySize := (ENTRY_HEADER_SIZE + capacity) % 0x1_0000;
      live := id != INVALID_ID;
      Ahead(mem[..], m, data, entrySize);
      if live {
        MoveDown(writePtr, data, entrySize);
        AssocCat(m[..SENTINEL_OFFSET], Flat(Compacted(es[..i])), m[data..data + entrySize]);
      }
    }

    /** Copies `n` octets to a place further down. */
    method MoveDown(to: nat, from: nat, n: nat)
      requires to <= from && from + n <= mem.Length
      modifies mem
      ensures mem[from + n..] == old(mem[from + n..])
      ensures mem[..to + n] == old(mem[..to]) + old(mem[from..from + n])
    {
      ghost var before := mem[..];
      NVWrite(to, mem[from..from + n]);
      assert before[from..from + n] == old(mem[from..from + n]);
    }

    /**
     _AJ_CompactNVStorage: moves the live entries to the front, in order, and erases what they
     leave.  The copy of an entry onto its own tail is taken to be a memmove.
     */
    method Compact()
      requires Valid()
      modifies this`es, mem
      ensures Valid() && es == Compacted(old(es)) && Map() == old(Map())
    {
      hide Chain, Offset, ReadU16, Flat, Entry.Bytes, Compacted, Step;
      var data: nat, writePtr: nat, garbage: nat := SENTINEL_OFFSET, SENTINEL_OFFSET, 0;
      ghost var i := 0;
      ghost var m := mem[..];
      Look(m, es, 0);
      CompactStart(m, es);
      while data < mem.Length && ReadU16(mem[..], data) != INVALID_DATA
        invariant i <= |es| && data == Offset(es, i) <= mem.Length && (data < mem.Length ==> data + 4 <= mem.Length)
        invariant es == old(es) && SENTINEL_OFFSET <= writePtr && writePtr + garbage == data
        invariant mem[data..] == m[data..]
        invariant mem[..writePtr] == m[..SENTINEL_OFFSET] + Flat(Compacted(es[..i]))
        decreases mem.Length - data
      {
        var live, entrySize := MoveEntry(writePtr, data, m, i);
        if live {
          writePtr := writePtr + entrySize;
        } else {
          garbage := (garbage + entrySize) % 0x1_0000;
        }
        data := data + Step(entrySize);
        i := i + 1;
      }
      ghost var now := mem[..];
      AtEnd(now, m, es, i);
      NVWrite(writePtr, Erased(garbage));
      CompactDone(m, es, now, mem[..], writePtr, garbage);
      es := Compacted(es);
    }

    /** The room a data set of this capacity takes, capacities being rounded up in 16 bits. */
    function Aligned(capacity: nat): nat {
      WordAlign(capacity) % 0x1_0000
    }

    /** There is room for one more data set, once the tombstones are out of the way. */
    ghost predicate Fits(capacity: nat)
      reads this
    {
      SENTINEL_OFFSET + LiveSize(es) + ENTRY_HEADER_SIZE + Aligned(capacity) <= mem.Length
    }

    /**
     AJ_NVRAM_Create, for every id: succeeds if and only if the id is free and compaction can make
     room.  INVALID_DATA is free when there is no tail, and then creating it leaves no chain.
     */
    method Create(id: nat, capacity: nat) returns (status: Status)
      requires Valid() && id < 0x1_0000 && capacity < 0x1_0000
      modifies this`es, mem
      ensures HasChain(mem[..]) <==> id != 0xFFFF || status != OK
      ensures HasChain(mem[..]) ==> Valid()
      ensures status == OK
        <==> capacity != 0 && old(Fits(capacity)) && if id == 0xFFFF then !old(HasTail()) else id !in old(Map())
      ensures status == OK && 0 < id < 0xFFFF ==> Map() == old(Map())[id := Erased(Aligned(capacity))]
      ensures status == OK && 0 < id < 0xFFFF ==>
        LiveSize(es) == old(LiveSize(es)) + 4 + Aligned(capacity)
      ensures status != OK ==> status == ErrFailure
      ensures status != OK || id == 0 ==> Map() == old(Map()) && LiveSize(es) == old(LiveSize(es))
    {
      hide Chain, Flat, LiveSize, Compacted, Contents, Offset, Distinct, HasChain;
      var present := Exist(id);
      NoZero(mem[..], es);
      Chained(mem[..], es);
      if capacity == 0 || present {
        return ErrFailure;
      }
      var size := Aligned(capacity);
      LiveInFlat(mem[..], es);
      var ptr;
      ghost var i;
      ptr, i := FindNVEntry(INVALID_DATA);
      if ptr.None? || ptr.value + ENTRY_HEADER_SIZE + size > mem.Length {
        CompactedSize(mem[..], es);
        Compact();
        ptr, i := FindNVEntry(INVALID_DATA);
        Chained(mem[..], es);
        if ptr.None? || ptr.value + ENTRY_HEADER_SIZE + size > mem.Length {
          return ErrFailure;
        }
      }
      AddEntry(ptr.value, id, size);
      status := OK;
    }

    /** Writes the header of a new entry to the front of the tail. */
    method AddEntry(at: nat, id: nat, size: nat)
      requires Valid() && id < 0x1_0000 && size % 4 == 0 && size < 0x1_0000
      requires at == Offset(es, |es|) && at + 4 + size <= mem.Length
      requires id != 0 ==> id !in Map()
      modifies this`es, mem
      ensures HasChain(mem[..]) <==> id != 0xFFFF
      ensures HasChain(mem[..]) ==> Valid()
      ensures id != 0xFFFF ==> es == old(es) + [Entry(id, Erased(size))]
      ensures 0 < id < 0xFFFF ==> Map() == old(Map())[id := Erased(size)]
      ensures 0 < id < 0xFFFF ==> LiveSize(es) == old(LiveSize(es)) + 4 + size
      ensures id == 0 ==> Map() == old(Map()) && LiveSize(es) == old(LiveSize(es))
    {
      hide Chain, Flat, LiveSize, Contents, Offset, Distinct, HasChain;
      DistinctOf(mem[..], es);
      ghost var m := mem[..];
      NVWrite(at, U16(id) + U16(size));
      if id == INVALID_DATA {
        TailNamed(m, es, size);
        return;
      }
      if id == INVALID_ID {
        CreatedTombstone(es, size);
      } else {
        IdFree(es, id);
        CreatedEntry(m, es, id, size);
      }
      CreateKeepsChain(m, es, id, size);
      es := es + [Entry(id, Erased(size))];
      Chained(mem[..], es);
    }

    /**
     AJ_NVRAM_Delete, for every id: the id goes, everything else stays.  INVALID_DATA is found
     when there is a tail, and then deleting it leaves no chain.
     */
    method Delete(id: nat) returns (status: Status)
      requires Valid() && id < 0x1_0000
      modifies this`es, mem
      ensures HasChain(mem[..]) <==> id != 0xFFFF || old(Offset(es, |es|)) == mem.Length
      ensures HasChain(mem[..]) ==> Valid() && Map() == old(Map()) - {id}
      ensures 0 < id < 0xFFFF ==> status == if id in old(Map()) then OK else ErrFailure
      ensures id == 0xFFFF ==> status == if old(HasTail()) then OK else ErrFailure
      ensures id == 0 ==> status == if exists e :: e in old(es) && e.id == 0 then OK else ErrFailure
      ensures id in old(Map()) ==> LiveSize(es) + 4 + |old(Map())[id]| == old(LiveSize(es))
      ensures id !in old(Map()) ==> es == old(es) && LiveSize(es) == old(LiveSize(es))
      ensures id !in old(Map()) && (id != 0xFFFF || status != OK) ==> mem[..] == old(mem[..])
    {
      hide Chain, Flat, LiveSize, Contents, Offset, Distinct, HasChain;
      var ptr;
      ghost var i;
      ptr, i := FindNVEntry(id);
      DistinctOf(mem[..], es);
      NoZero(mem[..], es);
      Chained(mem[..], es);
      ContentsIff(es, id);
      Look(mem[..], es, |es|);
      if ptr.None? {
        return ErrFailure;
      }
      status := OK;
      if id == INVALID_DATA {
        TailAt(mem[..], es);
        ghost var m := mem[..];
        NVWrite(ptr.value, U16(INVALID_ID) + mem[ptr.value + 2..ptr.value + 4]);
        TailDeleted(m, es);
        return;
      }
      TombstoneEntry(ptr.value, i);
      Chained(mem[..], es);
    }

    /** Clears the id in the header of entry `i`. */
    method TombstoneEntry(at: nat, ghost i: nat)
      requires Valid() && i < |es| && at == Offset(es, i)
      modifies this`es, mem
      ensures Valid() && es == old(es)[i := Entry(0, old(es[i].data))] && at + 4 <= mem.Length
      ensures old(es[i].id) == 0 ==> es == old(es) && mem[..] == old(mem[..])
      ensures old(es[i].Live()) ==> Map() == old(Map()) - {old(es[i].id)}
      ensures old(es[i].Live()) ==> LiveSize(es) + 4 + |old(es[i].data)| == old(LiveSize(es))
    {
      hide Chain, Flat, LiveSize, Contents, Offset, Distinct;
      EntryAt(mem[..], es, i);
      DistinctOf(mem[..], es);
      ghost var e := Entry(INVALID_ID, es[i].data);
      ReplaceKeepsChain(mem[..], es, i, e);
      HeaderOnly(mem[..], es, i);
      if es[i].Live() {
        ContentsTombstone(es, i);
        TombstoneSize(es, i);
      } else {
        SameBytes(mem[..], at, e);
      }
      NVWrite(at, U16(INVALID_ID) + mem[at + 2..at + 4]);
      es := es[i := e];
    }

    /** The handle is open on the live entry it was opened on. */
    ghost predicate HandleOk(h: Handle)
      reads this, h
    {
      && h.slot < |es| && es[h.slot].Live() && es[h.slot].id == h.id && Offset(es, h.slot) == h.inode
      && |es[h.slot].data| == h.capacity && h.curPos <= h.capacity
    }

    /** AJ_NVRAM_Open; the handle itself can always be allocated.  INVALID_DATA opens the erased tail. */
    method Open(id: nat, mode: string, capacity: nat) returns (h: Handle?)
      requires Valid() && id < 0x1_0000 && capacity < 0x1_0000 && (id == 0xFFFF ==> mode != "w")
      modifies this`es, mem
      ensures Valid() && (h != null ==> fresh(h) && h.id == id && h.curPos == 0 && mode == [h.mode])
      ensures h != null && id != 0xFFFF ==> HandleOk(h)
      ensures h != null && id == 0xFFFF ==> h.inode == Offset(es, |es|) && h.capacity == 0xFFFF
      ensures id == 0xFFFF && mode == "r" ==> (h != null <==> old(HasTail()))
      ensures id == 0 || (mode != "r" && mode != "w") ==>
        h == null && Map() == old(Map()) && LiveSize(es) == old(LiveSize(es))
      ensures mode == "r" && 0 < id < 0xFFFF ==> (h != null <==> id in old(Map()))
      ensures mode == "r" ==>
        && Map() == old(Map()) && LiveSize(es) == old(LiveSize(es)) && es == old(es)
        && mem[..] == old(mem[..])
      ensures id != 0 && mode == "w" && capacity == 0 ==> h == null && Map() == old(Map())
      ensures id != 0 && mode == "w" && capacity != 0 ==>
                Map() == if h != null then (old(Map()) - {id})[id := Erased(Aligned(capacity))] else old(Map()) - {id}
      ensures id != 0 && mode == "w" && capacity != 0 ==>
                (h != null <==>
                   4 + old(LiveSize(es)) - SizeIn(old(Map()), id) + 4 + Aligned(capacity)
                   <= mem.Length)
    {
      hide Chain, Flat, LiveSize, Contents;
      h := null;
      if id == INVALID_ID || |mode| != 1 || (mode[0] != 'r' && mode[0] != 'w') {
        return;
      }
      var entry;
      ghost var i;
      if mode[0] == 'w' {
        if capacity == 0 {
          return;
        }
        var status := OK;
        var present := Exist(id);
        if present {
          status := Delete(id);
        }
        if status != OK {
          return;
        }
        status := Create(id, capacity);
        if status != OK {
          return;
        }
      }
      DistinctOf(mem[..], es);
      ContentsIff(es, id);
      entry, i := FindNVEntry(id);
      if entry.None? {
        return;
      }
      if id == INVALID_DATA {
        TailSize(mem[..], es);
      } else {
        EntryAt(mem[..], es, i);
      }
      h := new Handle(id, mode[0], ReadU16(mem[..], entry.value + 2), entry.value, i);
    }

    /** A copy into the data of entry `i`. */
    method WriteData(ghost i: nat, inode: nat, at: nat, bytes: seq<byte>)
      requires Valid() && i < |es| && es[i].Live() && inode == Offset(es, i) && at + |bytes| <= |es[i].data|
      modifies this`es, mem
      ensures Valid() && es == old(es)[i := Entry(old(es[i].id), Overwrite(old(es[i].data), at, bytes))]
      ensures Map() == old(Map())[old(es[i].id) := es[i].data] && LiveSize(es) == old(LiveSize(es))
      ensures Offset(es, i) == inode
    {
      hide Chain, Flat, LiveSize, Contents, Overwrite;
      DistinctOf(mem[..], es);
      DataOnly(mem[..], es, i, at, bytes);
      ContentsUpdate(es, i, Overwrite(es[i].data, at, bytes));
      NVWrite(inode + ENTRY_HEADER_SIZE + at, bytes);
      es := es[i := Entry(es[i].id, Overwrite(es[i].data, at, bytes))];
    }

    /**
     AJ_NVRAM_Write.  What is left of the data set is taken as a signed 16-bit number.  A write
     that does not start on a word first rewrites the word it starts in; `junk` is what the
     uninitialised rest of that word happens to be.
     */
    method Write(h: Handle, buf: seq<byte>, junk: seq<byte>) returns (n: int)
      requires Valid() && HandleOk(h) && |buf| < 0x1_0000 && |junk| == 4
      modifies this`es, mem, h`curPos
      ensures Valid() && HandleOk(h) && LiveSize(es) == old(LiveSize(es))
      ensures h.mode == 'r' || old(h.curPos) == h.capacity ==> n == -1
      ensures h.mode != 'r' && h.capacity - old(h.curPos) >= 0x8000 ==> n == h.capacity - old(h.curPos) - 0x1_0000 < 0
      ensures n < 0 ==> es == old(es) && mem[..] == old(mem[..]) && h.curPos == old(h.curPos) && Map() == old(Map())
      ensures h.mode != 'r' && 0 < h.capacity - old(h.curPos) < 0x8000 ==> n == Min(h.capacity - old(h.curPos), |buf|)
      ensures n >= 0 ==> h.curPos == old(h.curPos) + n && n <= |buf|
      ensures n >= 0 ==> |es| == |old(es)| && Written(old(es[h.slot].data), es[h.slot].data, old(h.curPos), buf[..n])
      ensures n >= 0 ==> es == old(es)[h.slot := Entry(h.id, es[h.slot].data)]
      ensures n >= 0 ==> Map() == old(Map())[h.id := es[h.slot].data]
    {
      hide Chain, LiveSize, Contents, Offset, Written;
      if h.mode == 'r' || h.capacity <= h.curPos {
        return -1;
      }
      var rem := h.capacity - h.curPos;
      HandleSize(mem[..], es, h.slot);
      var bytesWrite := if rem < 0x8000 then rem else rem - 0x1_0000;
      bytesWrite := Min(bytesWrite, |buf|);
      if bytesWrite < 0 {
        return bytesWrite;
      }
      n := bytesWrite;
      var patchBytes := 0;
      ghost var d := es[h.slot].data;
      WrittenNone(d, h.curPos);
      DistinctOf(mem[..], es);
      ContentsUpdate(es, h.slot, d);
      if n > 0 && h.curPos % 4 != 0 {
        patchBytes := Min(4 - h.curPos % 4, n);
        Patch(h, buf[..patchBytes], junk);
      }
      ghost var d' := es[h.slot].data;
      if n > patchBytes {
        Append(h, buf[patchBytes..n]);
      } else {
        WrittenNone(d', h.curPos);
      }
      assert buf[..n] == buf[..patchBytes] + buf[patchBytes..n];
      WrittenThen(d, d', es[h.slot].data, old(h.curPos), buf[..patchBytes], buf[patchBytes..n]);
    }

    /** A copy to the current position that starts on a word. */
    method Append(h: Handle, bytes: seq<byte>)
      requires Valid() && HandleOk(h) && h.curPos % 4 == 0 && h.curPos + |bytes| <= h.capacity
      modifies this`es, mem, h`curPos
      ensures Valid() && HandleOk(h) && LiveSize(es) == old(LiveSize(es)) && h.curPos == old(h.curPos) + |bytes|
      ensures |es| == |old(es)| && es == old(es)[h.slot := Entry(h.id, es[h.slot].data)]
      ensures Written(old(es[h.slot].data), es[h.slot].data, old(h.curPos), bytes)
      ensures Map() == old(Map())[h.id := es[h.slot].data]
    {
      hide Chain, LiveSize, Contents, Offset, Overwrite, Written;
      OverwriteWritten(es[h.slot].data, 0, h.curPos, bytes, []);
      assert es[h.slot].data[h.curPos..h.curPos] + bytes + [] == bytes;
      WriteData(h.slot, h.inode, h.curPos, bytes);
      h.curPos := h.curPos + |bytes|;
    }

    /** Rewrites the word the current position is in. */
    method Patch(h: Handle, bytes: seq<byte>, junk: seq<byte>)
      requires Valid() && HandleOk(h) && h.curPos < h.capacity && |junk| == 4
      requires h.curPos % 4 > 0 && bytes != [] && h.curPos % 4 + |bytes| <= 4
      modifies this`es, mem, h`curPos
      ensures Valid() && HandleOk(h) && LiveSize(es) == old(LiveSize(es)) && h.curPos == old(h.curPos) + |bytes|
      ensures |es| == |old(es)| && es == old(es)[h.slot := Entry(h.id, es[h.slot].data)]
      ensures Written(old(es[h.slot].data), es[h.slot].data, old(h.curPos), bytes)
      ensures Map() == old(Map())[h.id := es[h.slot].data]
    {
      hide Chain, LiveSize, Contents, Offset, Overwrite, Written, WordAlign;
      HandleSize(mem[..], es, h.slot);
      var k := h.curPos % 4;
      var alignedPos := h.curPos - k;
      assert WriteEnd(h.curPos, |bytes|) == alignedPos + 4 <= h.capacity;
      ghost var d := es[h.slot].data;
      var tmpBuf := mem[h.inode + 4 + alignedPos..h.inode + 4 + h.curPos] + bytes + junk[k + |bytes|..];
      Within(mem[..], h.inode + 4, es[h.slot].data, alignedPos, k);
      OverwriteWritten(es[h.slot].data, k, h.curPos, bytes, junk[k + |bytes|..]);
      assert Written(d, Overwrite(d, alignedPos, tmpBuf), h.curPos, bytes);
      WriteData(h.slot, h.inode, alignedPos, tmpBuf);
      assert es[h.slot].data == Overwrite(d, alignedPos, tmpBuf);
      h.curPos := h.curPos + |bytes|;
    }

    /** AJ_NVRAM_Read. */
    method Read(h: Handle, size: nat) returns (n: int, bytes: seq<byte>)
      requires Valid() && HandleOk(h) && size < 0x1_0000
      modifies h`curPos
      ensures HandleOk(h)
      ensures h.mode == 'w' || old(h.curPos) == h.capacity ==> n == -1 && bytes == [] && h.curPos == old(h.curPos)
      ensures h.mode != 'w' && old(h.curPos) < h.capacity ==>
                n == Min(h.capacity - old(h.curPos), size) && h.curPos == old(h.curPos) + n
      ensures n >= 0 ==> h.id in Map() && h.curPos <= |Map()[h.id]| && bytes == Map()[h.id][old(h.curPos)..h.curPos]
    {
      hide Chain, Flat, Contents, Offset;
      if h.mode == 'w' || h.capacity <= h.curPos {
        return -1, [];
      }
      EntryAt(mem[..], es, h.slot);
      DistinctOf(mem[..], es);
      ContentsIff(es, h.id);
      n := Min(h.capacity - h.curPos, size);
      bytes := mem[h.inode + 4 + h.curPos..h.inode + 4 + h.curPos + n];
      Within(mem[..], h.inode + 4, es[h.slot].data, h.curPos, n);
      h.curPos := h.curPos + n;
    }
  }

  /**
   A write to a new data set of 32768 octets: what is left of it is -32768 as a signed 16-bit
   number, and that is what comes back.
   */
  method LongDataSet() returns (n: int)
    ensures n == -0x8000
  {
    hide Chain, LiveSize, Written, Contents;
    var memory := new byte[0x8008];
    var s := new Store(memory);
    assert s.Map() == map[] && LiveSize(s.es) == 0 by {
      EmptyStore();
    }
    var h := s.Open(1, "w", 0x8000);
    DistinctOf(s.mem[..], s.es);
    ContentsIff(s.es, 1);
    n := s.Write(h, [7], [0, 0, 0, 0]);
  }

  lemma EmptyStore()
    ensures Contents([]) == map[] && LiveSize([]) == 0
  {
  }

  /** Where a write of `n` octets at `pos` ends: if it does not start on a word, not inside that word. */
  function WriteEnd(pos: nat, n: nat): nat {
    if pos % 4 == 0 || n == 0 || n >= 4 - pos % 4 then pos + n else pos + 4 - pos % 4
  }

  /**
   `d'` is `d` with `bytes` at `pos`; the rest of a word the write starts inside is undefined, all else
   is as it was.
   */
  ghost predicate Written(d: seq<byte>, d': seq<byte>, pos: nat, bytes: seq<byte>) {
    && |d'| == |d| && pos + |bytes| <= WriteEnd(pos, |bytes|) <= |d|
    && d'[..pos + |bytes|] == d[..pos] + bytes
    && d'[WriteEnd(pos, |bytes|)..] == d[WriteEnd(pos, |bytes|)..]
  }

  lemma HandleSize(m: seq<byte>, es: seq<Entry>, i: nat)
    requires Chain(m, es) && i < |es|
    ensures |es[i].data| % 4 == 0 && Offset(es, i) + 4 + |es[i].data| <= |m|
    ensures m[Offset(es, i) + 4..Offset(es, i) + 4 + |es[i].data|] == es[i].data
  {
    hide Flat;
    EntryAt(m, es, i);
  }

  lemma Within<T>(m: seq<T>, from: nat, d: seq<T>, pos: nat, n: nat)
    requires from + |d| <= |m| && m[from..from + |d|] == d && pos + n <= |d|
    ensures m[from + pos..from + pos + n] == d[pos..pos + n]
  {
    var a := m[from + pos..from + pos + n];
    forall i | 0 <= i < n ensures a[i] == d[pos + i] {
      assert m[from..from + |d|][pos + i] == m[from + pos + i];
    }
  }

  lemma WrittenNone(d: seq<byte>, pos: nat)
    requires pos <= |d|
    ensures Written(d, d, pos, [])
  {
  }

  /** Overwriting from the start of the word `pos` is in, with what was there in front of `pos`. */
  lemma OverwriteWritten(d: seq<byte>, k: nat, pos: nat, bytes: seq<byte>, junk: seq<byte>)
    requires k == pos % 4 <= pos
    requires pos + |bytes| + |junk| == WriteEnd(pos, |bytes|) <= |d|
    ensures Written(d, Overwrite(d, pos - k, d[pos - k..pos] + bytes + junk), pos, bytes)
  {
    hide WriteEnd;
    Overwritten(d, k, pos, bytes, junk);
  }

  lemma Overwritten(d: seq<byte>, k: nat, pos: nat, bytes: seq<byte>, junk: seq<byte>)
    requires k <= pos && pos + |bytes| + |junk| <= |d|
    ensures var d' := Overwrite(d, pos - k, d[pos - k..pos] + bytes + junk);
      d'[..pos + |bytes|] == d[..pos] + bytes && d'[pos + |bytes| + |junk|..] == d[pos + |bytes| + |junk|..]
  {
    var d' := Overwrite(d, pos - k, d[pos - k..pos] + bytes + junk);
    assert d' == d[..pos] + bytes + junk + d[pos + |bytes| + |junk|..] by {
      assert d[..pos - k] + d[pos - k..pos] == d[..pos];
      AssocCat(d[..pos - k], d[pos - k..pos], bytes + junk + d[pos + |bytes| + |junk|..]);
    }
  }

  /** Two writes in a row are one write, when the second starts on a word. */
  lemma WrittenThen(d: seq<byte>, d1: seq<byte>, d2: seq<byte>, pos: nat, b1: seq<byte>, b2: seq<byte>)
    requires Written(d, d1, pos, b1) && Written(d1, d2, pos + |b1|, b2)
    requires b2 == [] || (pos + |b1|) % 4 == 0
    ensures Written(d, d2, pos, b1 + b2)
  {
    var p, q := pos + |b1|, pos + |b1| + |b2|;
    if b2 == [] {
      assert WriteEnd(p, 0) == p;
      assert d1[..p] + [] == d1[..p];
      assert d1 == d1[..p] + d1[p..] && d2 == d2[..p] + d2[p..];
      assert b1 + b2 == b1;
    } else {
      WordEnd(pos, |b1|, |b2|);
      assert d1[..p] + b2 == d[..pos] + (b1 + b2);
      Suffix(d1, d, p, |b2|);
    }
  }

  lemma WordEnd(pos: nat, n: nat, n': nat)
    requires (pos + n) % 4 == 0
    ensures WriteEnd(pos, n) == pos + n && WriteEnd(pos + n, n') == WriteEnd(pos, n + n') == pos + n + n'
  {
  }

  lemma Suffix<T>(a: seq<T>, b: seq<T>, p: nat, n: nat)
    requires |a| == |b| && p + n <= |a| && a[p..] == b[p..]
    ensures a[p + n..] == b[p + n..]
  {
    assert a[p + n..] == a[p..][n..] && b[p + n..] == b[p..][n..];
  }

  /** A copy into the data of an entry is overwriting the entry. */
  lemma DataOnly(m: seq<byte>, es: seq<Entry>, i: nat, at: nat, bytes: seq<byte>)
    requires Chain(m, es) && i < |es| && at + |bytes| <= |es[i].data|
    ensures Offset(es, i) + 4 + at + |bytes| <= |m|
    ensures Chain(Overwrite(m, Offset(es, i) + 4 + at, bytes),
      es[i := Entry(es[i].id, Overwrite(es[i].data, at, bytes))])
    ensures Offset(es[i := Entry(es[i].id, Overwrite(es[i].data, at, bytes))], i) == Offset(es, i)
    ensures LiveSize(es[i := Entry(es[i].id, Overwrite(es[i].data, at, bytes))]) == LiveSize(es)
  {
    hide Flat, LiveSize, Overwrite, Entry.Bytes, Chain;
    EntryAt(m, es, i);
    DistinctOf(m, es);
    var e := Entry(es[i].id, Overwrite(es[i].data, at, bytes));
    ReplaceKeepsChain(m, es, i, e);
    SameSize(es, i, e);
    DataInEntry(m, Offset(es, i), es[i], at, bytes);
    assert es[i := e][..i] == es[..i];
  }

  lemma DataInEntry(m: seq<byte>, o: nat, e: Entry, at: nat, bytes: seq<byte>)
    requires o + e.Size() <= |m| && m[o..o + e.Size()] == e.Bytes() && at + |bytes| <= |e.data|
    ensures Overwrite(m, o + 4 + at, bytes)
      == Overwrite(m, o, Entry(e.id, Overwrite(e.data, at, bytes)).Bytes())
  {
    hide U16;
    InWhole(m, o, U16(e.id) + U16(|e.data|), e.data, at, bytes);
  }

  /** Overwriting a part of what is there is overwriting all of it. */
  lemma InWhole(m: seq<byte>, o: nat, h: seq<byte>, d: seq<byte>, at: nat, bytes: seq<byte>)
    requires o + |h| + |d| <= |m| && m[o..o + |h| + |d|] == h + d && at + |bytes| <= |d|
    ensures Overwrite(m, o + |h| + at, bytes) == Overwrite(m, o, h + Overwrite(d, at, bytes))
  {
    var n, rest := |h| + |d|, |d| - at - |bytes|;
    HeadParts(h, d, at, |bytes|);
    Within(m, o, h + d, 0, |h| + at);
    Within(m, o, h + d, |h| + at + |bytes|, rest);
    Around(m, o, |h| + at, rest, n);
    Middles(m[..o], h, d[..at], bytes, d[at + |bytes|..], m[o + n..]);
  }

  lemma HeadParts<T>(h: seq<T>, d: seq<T>, at: nat, k: nat)
    requires at + k <= |d|
    ensures (h + d)[0..|h| + at] == h + d[..at] && (h + d)[|h| + at + k..|h| + |d|] == d[at + k..]
  {
  }

  lemma Around<T>(m: seq<T>, o: nat, a: nat, c: nat, n: nat)
    requires a + c <= n && o + n <= |m|
    ensures m[..o + a] == m[..o] + m[o..o + a] && m[o + n - c..] == m[o + n - c..o + n] + m[o + n..]
  {
  }

  lemma Middles<T>(a: seq<T>, h: seq<T>, b: seq<T>, c: seq<T>, d: seq<T>, e: seq<T>)
    ensures (a + (h + b)) + c + (d + e) == a + (h + (b + c + d)) + e
  {
  }

  lemma {:induction false} SameSize(es: seq<Entry>, i: nat, e: Entry)
    requires i < |es| && e.id == es[i].id && |e.data| == |es[i].data|
    ensures LiveSize(es[i := e]) == LiveSize(es)
  {
    if i == 0 {
      assert es[i := e][1..] == es[1..];
    } else {
      assert es[i := e][1..] == es[1..][i - 1 := e];
      SameSize(es[1..], i - 1, e);
    }
  }

  lemma LiveSizeNext(es: seq<Entry>, i: nat)
    requires i < |es|
    ensures LiveSize(es[..i + 1]) == LiveSize(es[..i]) + if es[i].Live() then es[i].Size() else 0
  {
    assert es[..i + 1] == es[..i] + [es[i]];
    LiveSizeAppend(es[..i], [es[i]]);
    assert [es[i]][1..] == [];
  }

  lemma LiveSizeNone(es: seq<Entry>)
    ensures LiveSize(es[..0]) == 0
  {
  }

  lemma CompactStart(m: seq<byte>, es: seq<Entry>)
    requires Chain(m, es)
    ensures m[..4] == m[..4] + Flat(Compacted(es[..0]))
    ensures |m| < 0x1_0000
  {
    assert es[..0] == [];
  }

  /** In the middle of compaction nothing has changed at entry `i` yet. */
  lemma AtEntry(now: seq<byte>, m: seq<byte>, es: seq<Entry>, i: nat)
    requires Chain(m, es) && i <= |es| && |now| == |m| && Offset(es, i) + 4 <= |m|
    requires now[Offset(es, i)..] == m[Offset(es, i)..] && ReadU16(now, Offset(es, i)) != 0xFFFF
    ensures i < |es| && ReadU16(now, Offset(es, i)) == es[i].id && ReadU16(now, Offset(es, i) + 2) == |es[i].data|
    ensures |es[i].data| % 4 == 0
    ensures Offset(es, i) + es[i].Size() == Offset(es, i + 1) <= |m| && Step(es[i].Size()) == es[i].Size()
    ensures Offset(es, i + 1) < |m| ==> Offset(es, i + 1) + 4 <= |m|
    ensures es[i].Live() ==>
      Flat(Compacted(es[..i + 1])) == Flat(Compacted(es[..i])) + m[Offset(es, i)..Offset(es, i + 1)]
    ensures !es[i].Live() ==> Compacted(es[..i + 1]) == Compacted(es[..i])
  {
    hide ReadU16, Entry.Bytes, Flat, Compacted, Step;
    SameAhead(now, m, Offset(es, i));
    Look(m, es, i);
    StepIs(|es[i].data|);
    CompactStep(m, es, i);
    Look(m, es, i + 1);
  }

  lemma AtEnd(now: seq<byte>, m: seq<byte>, es: seq<Entry>, i: nat)
    requires Chain(m, es) && i <= |es| && |now| == |m| && Offset(es, i) <= |m|
    requires now[Offset(es, i)..] == m[Offset(es, i)..]
    requires Offset(es, i) < |m| ==> Offset(es, i) + 4 <= |m| && ReadU16(now, Offset(es, i)) == 0xFFFF
    ensures i == |es| && es[..i] == es
  {
    hide ReadU16, Entry.Bytes, Flat;
    SameAhead(now, m, Offset(es, i));
    Look(m, es, i);
  }

  lemma SameAhead(a: seq<byte>, b: seq<byte>, at: nat)
    requires |a| == |b| && at <= |a| && a[at..] == b[at..]
    ensures at + 4 <= |a| ==> ReadU16(a, at) == ReadU16(b, at) && ReadU16(a, at + 2) == ReadU16(b, at + 2)
  {
    if at + 4 <= |a| {
      assert a[at] == a[at..][0] && a[at + 1] == a[at..][1] && a[at + 2] == a[at..][2] && a[at + 3] == a[at..][3];
      assert b[at] == b[at..][0] && b[at + 1] == b[at..][1] && b[at + 2] == b[at..][2] && b[at + 3] == b[at..][3];
    }
  }

  /** What compaction adds to the front when it passes entry `i`. */
  lemma CompactStep(m: seq<byte>, es: seq<Entry>, i: nat)
    requires Chain(m, es) && i <= |es|
    ensures i < |es| ==> Offset(es, i) + es[i].Size() <= |m|
    ensures i < |es| && es[i].Live() ==>
              Flat(Compacted(es[..i + 1])) == Flat(Compacted(es[..i])) + m[Offset(es, i)..Offset(es, i) + es[i].Size()]
    ensures i < |es| && !es[i].Live() ==> Compacted(es[..i + 1]) == Compacted(es[..i])
  {
    hide Entry.Bytes, Flat;
    if i < |es| {
      EntryAt(m, es, i);
      assert es[..i + 1] == es[..i] + [es[i]];
      CompactedAppend(es[..i], [es[i]]);
      assert [es[i]][1..] == [] && Compacted([]) == [];
      assert Compacted([es[i]]) == if es[i].Live() then [es[i]] else [];
      if es[i].Live() {
        FlatAppend(Compacted(es[..i]), [es[i]]);
        FlatOne(es[i]);
      }
    }
  }

  lemma Ahead(a: seq<byte>, m: seq<byte>, from: nat, n: nat)
    requires |a| == |m| && from + n <= |a| && a[from..] == m[from..]
    ensures a[from + n..] == m[from + n..] && a[from..from + n] == m[from..from + n]
  {
    assert m[from + n..] == m[from..][n..] && a[from + n..] == a[from..][n..];
    assert m[from..from + n] == m[from..][..n] && a[from..from + n] == a[from..][..n];
  }

  lemma CompactDone(m: seq<byte>, es: seq<Entry>, now: seq<byte>, done: seq<byte>, at: nat, garbage: nat)
    requires Chain(m, es) && |now| == |m| && Offset(es, |es|) == at + garbage <= |m| && at >= 4
    requires now[at + garbage..] == m[at + garbage..]
    requires now[..at] == m[..4] + Flat(Compacted(es))
    requires done == Overwrite(now, at, Erased(garbage))
    ensures Chain(done, Compacted(es)) && Contents(Compacted(es)) == Contents(es)
  {
    hide Flat, Compacted, Contents;
    TailAt(m, es);
    CompactedKeeps(es);
    var a, f := m[..SENTINEL_OFFSET], Flat(Compacted(es));
    ErasedSplit(garbage, |m| - at - garbage);
    assert |now[..at]| == at;
    FrontAndTail(now, at, garbage, a, f);
  }

  lemma FrontAndTail(now: seq<byte>, at: nat, garbage: nat, a: seq<byte>, f: seq<byte>)
    requires at + garbage <= |now| && now[..at] == a + f && now[at + garbage..] == Erased(|now| - at - garbage)
    ensures var done := Overwrite(now, at, Erased(garbage));
      |a| <= |done| && done[..|a|] == a && done == a + f + Erased(|now| - at)
  {
    ErasedSplit(garbage, |now| - at - garbage);
  }

  lemma DistinctOf(m: seq<byte>, es: seq<Entry>)
    requires Chain(m, es)
    ensures Distinct(es) && AllOk(es) && |m| % 4 == 0 && |m| < 0x1_0000
  {
  }

  lemma {:induction false} LiveAtMost(es: seq<Entry>)
    ensures LiveSize(es) <= |Flat(es)|
  {
    if es != [] {
      LiveAtMost(es[1..]);
    }
  }

  lemma LiveInFlat(m: seq<byte>, es: seq<Entry>)
    requires Chain(m, es)
    ensures 4 + LiveSize(es) <= Offset(es, |es|) <= |m| < 0x1_0000 && |m| % 4 == 0
  {
    LiveAtMost(es);
    TailAt(m, es);
  }

  /** After compaction the live entries are all there is. */
  lemma CompactedSize(m: seq<byte>, es: seq<Entry>)
    requires Chain(m, es)
    ensures LiveSize(Compacted(es)) == LiveSize(es)
    ensures Offset(Compacted(es), |Compacted(es)|) == 4 + LiveSize(es)
  {
    CompactedKeeps(es);
    AllLive(Compacted(es));
    assert Compacted(es)[..|Compacted(es)|] == Compacted(es);
  }

  lemma {:induction false} AllLive(es: seq<Entry>)
    requires forall i :: 0 <= i < |es| ==> es[i].Live()
    ensures LiveSize(es) == |Flat(es)|
  {
    if es != [] {
      AllLive(es[1..]);
    }
  }

  lemma IdFree(es: seq<Entry>, id: nat)
    requires Distinct(es) && id !in Contents(es) && id != 0
    ensures forall i :: 0 <= i < |es| ==> es[i].id != id
  {
    ContentsIff(es, id);
  }

  lemma CreatedEntry(m: seq<byte>, es: seq<Entry>, id: nat, size: nat)
    requires Distinct(es) && id != 0 && forall i :: 0 <= i < |es| ==> es[i].id != id
    ensures Contents(es + [Entry(id, Erased(size))]) == Contents(es)[id := Erased(size)]
    ensures LiveSize(es + [Entry(id, Erased(size))]) == LiveSize(es) + 4 + size
  {
    var e := Entry(id, Erased(size));
    ContentsAppend(es, e);
    LiveSizeAppend(es, [e]);
    assert [e][1..] == [];
  }

  /** Overwriting a header's id is overwriting the entry with its tombstone. */
  lemma HeaderOnly(m: seq<byte>, es: seq<Entry>, i: nat)
    requires Chain(m, es) && i < |es|
    ensures var at := Offset(es, i); var e := Entry(0, es[i].data);
      at + e.Size() <= |m| && Overwrite(m, at, U16(0) + m[at + 2..at + 4]) == Overwrite(m, at, e.Bytes())
  {
    hide Flat;
    EntryAt(m, es, i);
    var at, n := Offset(es, i), |es[i].data|;
    var b := m[at..at + 4 + n];
    assert m[at + 2..at + 4] == b[2..4] == U16(n);
    assert m[at + 4..] == m[at + 4..at + 4 + n] + m[at + 4 + n..];
  }

  lemma {:induction false} TombstoneSize(es: seq<Entry>, i: nat)
    requires i < |es| && es[i].Live()
    ensures LiveSize(es[i := Entry(0, es[i].data)]) + 4 + |es[i].data| == LiveSize(es)
  {
    var e := Entry(INVALID_ID, es[i].data);
    if i == 0 {
      assert es[i := e][1..] == es[1..];
    } else {
      assert es[i := e][1..] == es[1..][i - 1 := e];
      TombstoneSize(es[1..], i - 1);
    }
  }

  lemma Chained(m: seq<byte>, es: seq<Entry>)
    ensures Chain(m, es) ==> HasChain(m)
  {
  }

  /** Neither 0 nor 0xFFFF is the id of a data set. */
  lemma NoZero(m: seq<byte>, es: seq<Entry>)
    requires Chain(m, es)
    ensures 0 !in Contents(es) && 0xFFFF !in Contents(es)
  {
    hide Flat;
    ContentsIff(es, INVALID_ID);
    ContentsIff(es, INVALID_DATA);
  }

  lemma {:induction false} CreatedTombstone(es: seq<Entry>, size: nat)
    ensures Contents(es + [Entry(0, Erased(size))]) == Contents(es)
    ensures LiveSize(es + [Entry(0, Erased(size))]) == LiveSize(es)
  {
    var t := [Entry(INVALID_ID, Erased(size))];
    if es == [] {
      assert es + t == t && t[1..] == [];
    } else {
      assert (es + t)[1..] == es[1..] + t;
      CreatedTombstone(es[1..], size);
    }
  }

  lemma SameBytes(m: seq<byte>, at: nat, e: Entry)
    requires at + e.Size() <= |m| && m[at..at + e.Size()] == e.Bytes()
    ensures Overwrite(m, at, e.Bytes()) == m
  {
    assert m == m[..at] + m[at..at + e.Size()] + m[at + e.Size()..];
  }

  /**
   A header other than four erased octets at the front of the tail, no shorter than an entry's, that
   names no entry.
   */
  lemma NoChainWith(m: seq<byte>, es: seq<Entry>, id: nat, capacity: nat, es': seq<Entry>)
    requires Chain(m, es) && Offset(es, |es|) + 4 <= |m|
    requires id < 0x1_0000 && capacity < 0x1_0000
    requires (id == 0xFFFF && capacity != 0xFFFF) || (id != 0xFFFF && capacity == 0xFFFF)
    ensures !Chain(Overwrite(m, Offset(es, |es|), U16(id) + U16(capacity)), es')
  {
    hide Flat, Entry.Bytes, Chain, Offset;
    var at := Offset(es, |es|);
    var m' := Overwrite(m, at, U16(id) + U16(capacity));
    HeaderRead(m, at, id, capacity);
    if Chain(m', es') {
      SameWalk(m, m', es, es', |es|);
      Look(m', es', |es|);
      if |es| == |es'| {
        TailAt(m', es');
      }
    }
  }

  lemma TailSize(m: seq<byte>, es: seq<Entry>)
    requires Chain(m, es) && Offset(es, |es|) < |m|
    ensures Offset(es, |es|) + 4 <= |m| && ReadU16(m, Offset(es, |es|) + 2) == 0xFFFF
  {
    hide Chain, Offset;
    TailAt(m, es);
    var at := Offset(es, |es|);
    assert m[at + 2] == m[at..][2] && m[at + 3] == m[at..][3];
  }

  lemma HeaderRead(m: seq<byte>, at: nat, id: nat, capacity: nat)
    requires at + 4 <= |m| && id < 0x1_0000 && capacity < 0x1_0000
    ensures var m' := Overwrite(m, at, U16(id) + U16(capacity));
      m'[..at] == m[..at] && ReadU16(m', at) == id && ReadU16(m', at + 2) == capacity
  {
  }

  /** An entry created under id 0xFFFF is taken for the tail, and the tail is not erased. */
  lemma TailNamed(m: seq<byte>, es: seq<Entry>, capacity: nat)
    requires Chain(m, es) && Offset(es, |es|) + 4 <= |m| && capacity % 4 == 0 && capacity < 0x1_0000
    ensures !HasChain(Overwrite(m, Offset(es, |es|), U16(0xFFFF) + U16(capacity)))
  {
    hide Chain, Offset, Overwrite;
    forall es' ensures !Chain(Overwrite(m, Offset(es, |es|), U16(INVALID_DATA) + U16(capacity)), es') {
      NoChainWith(m, es, INVALID_DATA, capacity, es');
    }
  }

  /** Deleting id 0xFFFF leaves a tombstone of 65535 octets at the front of the tail. */
  lemma TailDeleted(m: seq<byte>, es: seq<Entry>)
    requires Chain(m, es) && Offset(es, |es|) + 4 <= |m|
    ensures var at := Offset(es, |es|); !HasChain(Overwrite(m, at, U16(0) + m[at + 2..at + 4]))
  {
    hide Chain, Offset, Overwrite;
    var at := Offset(es, |es|);
    TailAt(m, es);
    assert m[at + 2] == m[at..][2] && m[at + 3] == m[at..][3];
    assert m[at + 2..at + 4] == U16(0xFFFF);
    forall es' ensures !Chain(Overwrite(m, at, U16(INVALID_ID) + U16(0xFFFF)), es') {
      NoChainWith(m, es, INVALID_ID, 0xFFFF, es');
    }
  }

  /** Two chains in memories that agree in front of `Offset(es, i)` have the same offsets up to there. */
  lemma {:induction false} SameWalk(m: seq<byte>, m': seq<byte>, es: seq<Entry>, es': seq<Entry>, i: nat)
    requires Chain(m, es) && Chain(m', es') && i <= |es| && |m| == |m'|
    requires Offset(es, i) <= |m| && m[..Offset(es, i)] == m'[..Offset(es, i)]
    ensures i <= |es'| && Offset(es', i) == Offset(es, i)
  {
    hide Flat, Entry.Bytes, Chain, ReadU16;
    if i == 0 {
      Look(m, es, 0);
      Look(m', es', 0);
    } else {
      Look(m, es, i - 1);
      Look(m, es, i);
      var at, to := Offset(es, i - 1), Offset(es, i);
      assert m[..at] == m[..to][..at] && m'[..at] == m'[..to][..at];
      SameWalk(m, m', es, es', i - 1);
      SameHeader(m, m', at, to);
      Look(m', es', i - 1);
    }
  }

  lemma SameHeader(m: seq<byte>, m': seq<byte>, at: nat, to: nat)
    requires at + 4 <= to <= |m| && to <= |m'| && m[..to] == m'[..to]
    ensures ReadU16(m, at) == ReadU16(m', at) && ReadU16(m, at + 2) == ReadU16(m', at + 2)
  {
    assert forall k :: 0 <= k < to ==> m[..to][k] == m[k] && m'[..to][k] == m'[k];
  }
}
