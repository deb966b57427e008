/**
 The non-volatile store: a chain of entries in one array, each a header (id, capacity) and its
 data, behind a sentinel and in front of an erased tail.  Deleting an entry clears its id;
 creating one takes the front of the tail, after compaction if it has to.
 */
module NvramLayout {
  import opened Common

  const SENTINEL_OFFSET := 4
  const ENTRY_HEADER_SIZE := 4
  const INVALID_ID := 0
  const INVALID_DATA := 0xFFFF

  function U16(n: nat): (s: seq<byte>)
    ensures |s| == 2
  {
    [n % 256, n / 256 % 256]
  }

  /** The 16-bit number at offset `at`. */
  function ReadU16(m: seq<byte>, at: nat): (n: nat)
    requires at + 2 <= |m|
    ensures n < 0x1_0000
  {
    m[at] as int + 256 * (m[at + 1] as int)
  }

  function Erased(n: nat): (s: seq<byte>)
    ensures |s| == n
    ensures forall i :: 0 <= i < n ==> s[i] == 0xFF
  {
    seq(n, _ => 0xFF)
  }

  /** Capacities are rounded up to words. */
  lemma WordAlignIs(n: nat)
    ensures n <= WordAlign(n) < n + 4 && WordAlign(n) % 4 == 0
  {
  }

  function WordAlign(n: nat): nat {
    if n % 4 != 0 then (n / 4 + 1) * 4 else n
  }

  /** A data set, or the tombstone of one (id 0). */
  datatype Entry = Entry(id: nat, data: seq<byte>) {
    predicate Live() { id != INVALID_ID }
    function Size(): nat { ENTRY_HEADER_SIZE + |data| }
    function Bytes(): (s: seq<byte>)
      ensures |s| == Size()
    {
      U16(id) + U16(|data|) + data
    }
    predicate Ok() { id < INVALID_DATA && |data| % 4 == 0 && |data| < 0x1_0000 }
  }

  function Flat(es: seq<Entry>): seq<byte> {
    if es == [] then [] else es[0].Bytes() + Flat(es[1..])
  }

  /** Every live id occurs once. */
  predicate Distinct(es: seq<Entry>) {
    forall i, j :: 0 <= i < j < |es| && es[i].Live() ==> es[i].id != es[j].id
  }

  predicate AllOk(es: seq<Entry>) {
    forall i :: 0 <= i < |es| ==> es[i].Ok()
  }

  /** The memory is a sentinel, the chain of entries, and an erased tail. */
  predicate Chain(m: seq<byte>, es: seq<Entry>) {
    && |m| % 4 == 0 && SENTINEL_OFFSET <= |m| < 0x1_0000
    && AllOk(es) && Distinct(es)
    && SENTINEL_OFFSET + |Flat(es)| <= |m|
    && m == m[..SENTINEL_OFFSET] + Flat(es) + Erased(|m| - SENTINEL_OFFSET - |Flat(es)|)
  }

  /** Where entry `i` starts. */
  function Offset(es: seq<Entry>, i: nat): nat
    requires i <= |es|
  {
    SENTINEL_OFFSET + |Flat(es[..i])|
  }

  lemma {:induction false} FlatAppend(a: seq<Entry>, b: seq<Entry>)
    ensures Flat(a + b) == Flat(a) + Flat(b)
  {
    if a == [] {
      assert a + b == b;
    } else {
      assert (a + b)[1..] == a[1..] + b;
      FlatAppend(a[1..], b);
    }
  }

  lemma {:induction false} FlatAligned(es: seq<Entry>)
    requires AllOk(es)
    ensures |Flat(es)| % 4 == 0
  {
    hide Entry.Bytes;
    if es != [] {
      FlatAligned(es[1..]);
    }
  }

  lemma FlatOne(e: Entry)
    ensures Flat([e]) == e.Bytes()
  {
    hide Entry.Bytes;
    assert [e][1..] == [];
    assert e.Bytes() + [] == e.Bytes();
  }

  lemma Around<T>(s: seq<T>, i: nat)
    requires i < |s|
    ensures s[..i + 1] == s[..i] + [s[i]] && s == s[..i + 1] + s[i + 1..]
  {
  }

  /** The chain around entry `i`. */
  lemma FlatAround(es: seq<Entry>, i: nat)
    requires i < |es|
    ensures Flat(es) == Flat(es[..i]) + es[i].Bytes() + Flat(es[i + 1..])
    ensures Offset(es, i + 1) == Offset(es, i) + es[i].Size()
  {
    hide Entry.Bytes, Entry.Size, Flat;
    Around(es, i);
    FlatAppend(es[..i + 1], es[i + 1..]);
    FlatAppend(es[..i], [es[i]]);
    FlatOne(es[i]);
    assert Flat(es[..i + 1]) == Flat(es[..i]) + es[i].Bytes();
  }

  /** What the memory holds at entry `i`. */
  lemma EntryAt(m: seq<byte>, es: seq<Entry>, i: nat)
    requires Chain(m, es) && i < |es|
    ensures Offset(es, i) % 4 == 0 && Offset(es, i) + es[i].Size() <= |m|
    ensures m[Offset(es, i)..Offset(es, i) + es[i].Size()] == es[i].Bytes()
    ensures ReadU16(m, Offset(es, i)) == es[i].id && ReadU16(m, Offset(es, i) + 2) == |es[i].data|
    ensures m[Offset(es, i) + 4..Offset(es, i) + es[i].Size()] == es[i].data
  {
    hide Entry.Bytes, Flat, ReadU16;
    FlatAround(es, i);
    FlatAligned(es[..i]);
    var b := es[i].Bytes();
    var sen, tail := m[..SENTINEL_OFFSET], Erased(|m| - SENTINEL_OFFSET - |Flat(es)|);
    Regroup(sen, Flat(es[..i]), b, Flat(es[i + 1..]), tail);
    Middle(sen + Flat(es[..i]), b, Flat(es[i + 1..]) + tail);
    HeaderFields(m, Offset(es, i), es[i]);
  }

  lemma Regroup<T>(a: seq<T>, b: seq<T>, c: seq<T>, d: seq<T>, e: seq<T>)
    ensures a + (b + c + d) + e == (a + b) + c + (d + e)
  {
  }

  lemma Rest<T>(a: seq<T>, b: seq<T>)
    ensures (a + b)[|a|..] == b
  {
  }

  lemma Middle<T>(a: seq<T>, b: seq<T>, c: seq<T>)
    ensures (a + b + c)[|a|..|a| + |b|] == b
  {
  }

  lemma HeaderFields(m: seq<byte>, at: nat, e: Entry)
    requires e.Ok() && at + e.Size() <= |m| && m[at..at + e.Size()] == e.Bytes()
    ensures ReadU16(m, at) == e.id && ReadU16(m, at + 2) == |e.data|
    ensures m[at + 4..at + e.Size()] == e.data
  {
    var b := m[at..at + e.Size()];
    assert m[at] == b[0] && m[at + 1] == b[1] && m[at + 2] == b[2] && m[at + 3] == b[3];
    assert b[4..] == e.data;
  }

  /** What the memory holds behind the last entry. */
  lemma TailAt(m: seq<byte>, es: seq<Entry>)
    requires Chain(m, es)
    ensures Offset(es, |es|) == 4 + |Flat(es)| && Offset(es, |es|) % 4 == 0
    ensures m[Offset(es, |es|)..] == Erased(|m| - Offset(es, |es|))
    ensures Offset(es, |es|) < |m| ==> Offset(es, |es|) + 4 <= |m| && ReadU16(m, Offset(es, |es|)) == 0xFFFF
  {
    hide Flat;
    assert es[..|es|] == es;
    FlatAligned(es);
    var at := Offset(es, |es|);
    assert |m[..SENTINEL_OFFSET] + Flat(es)| == at;
    Rest(m[..SENTINEL_OFFSET] + Flat(es), Erased(|m| - at));
    if at < |m| {
      assert m[at] == m[at..][0] && m[at + 1] == m[at..][1];
    }
  }

  /** One step of a walk along the chain: at offset `Offset(es, i)` is entry `i` or the tail. */
  lemma Look(m: seq<byte>, es: seq<Entry>, i: nat)
    requires Chain(m, es) && i <= |es|
    ensures Offset(es, i) <= |m| && Offset(es, 0) == 4
    ensures Offset(es, i) < |m| ==> Offset(es, i) + 4 <= |m|
    ensures i < |es| ==> Offset(es, i) < |m| && ReadU16(m, Offset(es, i)) == es[i].id != 0xFFFF
    ensures i < |es| ==> ReadU16(m, Offset(es, i) + 2) == |es[i].data| && |es[i].data| % 4 == 0
    ensures i < |es| ==> Offset(es, i + 1) == Offset(es, i) + 4 + |es[i].data| <= |m|
    ensures i == |es| && Offset(es, i) < |m| ==> ReadU16(m, Offset(es, i)) == 0xFFFF
  {
    hide Entry.Bytes, ReadU16;
    TailAt(m, es);
    assert es[..0] == [];
    if i < |es| {
      EntryAt(m, es, i);
      FlatAround(es, i);
    }
  }

  // ---- The data sets as a map ----

  function Contents(es: seq<Entry>): map<nat, seq<byte>> {
    if es == [] then map[]
    else if es[0].Live() then Contents(es[1..])[es[0].id := es[0].data] else Contents(es[1..])
  }

  /** The map has the live entries and nothing else. */
  lemma {:induction false} ContentsIff(es: seq<Entry>, id: nat)
    requires Distinct(es)
    ensures id in Contents(es) <==> exists i :: 0 <= i < |es| && es[i].Live() && es[i].id == id
    ensures forall i :: 0 <= i < |es| && es[i].Live() && es[i].id == id ==> Contents(es)[id] == es[i].data
  {
    if es != [] {
      DistinctTail(es);
      ContentsIff(es[1..], id);
      if es[0].Live() && es[0].id == id {
        forall i | 0 < i < |es| ensures es[i].id != id { }
      } else {
        assert forall i :: 0 < i < |es| ==> es[i] == es[1..][i - 1];
      }
    }
  }

  lemma DistinctTail(es: seq<Entry>)
    requires es != [] && Distinct(es)
    ensures Distinct(es[1..])
  {
  }

  lemma {:induction false} ContentsAppend(es: seq<Entry>, e: Entry)
    requires Distinct(es + [e]) && e.Live()
    ensures Contents(es + [e]) == Contents(es)[e.id := e.data]
  {
    var all := es + [e];
    if es == [] {
      assert all[1..] == [];
    } else {
      assert all[1..] == es[1..] + [e];
      DistinctTail(all);
      assert es[0].Live() ==> all[0].id != all[|es|].id;
      ContentsAppend(es[1..], e);
    }
  }

  /** Changing one entry's data changes the map at its id and nowhere else. */
  lemma {:induction false} ContentsUpdate(es: seq<Entry>, i: nat, data: seq<byte>)
    requires Distinct(es) && i < |es| && es[i].Live()
    ensures Contents(es[i := Entry(es[i].id, data)]) == Contents(es)[es[i].id := data]
  {
    var es' := es[i := Entry(es[i].id, data)];
    if i == 0 {
      assert es'[1..] == es[1..];
    } else {
      assert es'[1..] == es[1..][i - 1 := Entry(es[i].id, data)];
      DistinctTail(es);
      assert es[0].Live() ==> es[0].id != es[i].id;
      ContentsUpdate(es[1..], i - 1, data);
    }
  }

  /** Turning an entry into a tombstone takes its id out of the map. */
  lemma {:induction false} ContentsTombstone(es: seq<Entry>, i: nat)
    requires Distinct(es) && i < |es| && es[i].Live()
    ensures Contents(es[i := Entry(0, es[i].data)]) == Contents(es) - {es[i].id}
  {
    var es' := es[i := Entry(INVALID_ID, es[i].data)];
    DistinctTail(es);
    if i == 0 {
      assert es'[1..] == es[1..];
      ContentsIff(es[1..], es[0].id);
    } else {
      assert es'[1..] == es[1..][i - 1 := Entry(INVALID_ID, es[i].data)];
      assert es[0].Live() ==> es[0].id != es[i].id;
      ContentsTombstone(es[1..], i - 1);
    }
  }

  /** The entries compaction keeps. */
  function Compacted(es: seq<Entry>): seq<Entry> {
    if es == [] then [] else (if es[0].Live() then [es[0]] else []) + Compacted(es[1..])
  }

  lemma {:induction false} CompactedAppend(a: seq<Entry>, b: seq<Entry>)
    ensures Compacted(a + b) == Compacted(a) + Compacted(b)
  {
    hide Entry.Live;
    if a == [] {
      assert a + b == b && Compacted(a) + Compacted(b) == Compacted(b);
    } else {
      assert (a + b)[1..] == a[1..] + b && (a + b)[0] == a[0];
      CompactedAppend(a[1..], b);
      Grouped(if a[0].Live() then [a[0]] else [], Compacted(a[1..]), Compacted(b));
    }
  }

  /** Compaction keeps every data set, its id and its contents, and keeps the chain in order. */
  lemma {:induction false} CompactedKeeps(es: seq<Entry>)
    requires AllOk(es) && Distinct(es)
    ensures AllOk(Compacted(es)) && Distinct(Compacted(es))
    ensures Contents(Compacted(es)) == Contents(es)
    ensures forall i :: 0 <= i < |Compacted(es)| ==> Compacted(es)[i].Live() && Compacted(es)[i] in es
    ensures |Flat(Compacted(es))| == LiveSize(es)
  {
    hide Entry.Bytes;
    if es != [] {
      DistinctTail(es);
      CompactedKeeps(es[1..]);
      CompactedHead(es);
    }
  }

  lemma CompactedHead(es: seq<Entry>)
    requires es != [] && Distinct(es)
    requires forall i :: 0 <= i < |Compacted(es[1..])| ==> Compacted(es[1..])[i] in es[1..]
    requires Distinct(Compacted(es[1..]))
    ensures !es[0].Live() ==> Compacted(es) == Compacted(es[1..])
    ensures es[0].Live() ==> Compacted(es) == [es[0]] + Compacted(es[1..]) && Compacted(es)[1..] == Compacted(es[1..])
    ensures Distinct(Compacted(es))
    ensures forall e :: e in es[1..] ==> e in es
  {
    hide Entry.Live;
    var c := Compacted(es[1..]);
    HeadOff(es[0], c);
    TailIn(es);
    if es[0].Live() {
      LiveHead(es);
      forall i | 0 <= i < |c| ensures c[i].id != es[0].id {
        var j :| 0 <= j < |es[1..]| && es[1..][j] == c[i];
        assert es[j + 1] == c[i];
      }
      DistinctCons(es[0], c);
    }
  }

  /** A live entry's id is nobody else's. */
  lemma LiveHead(es: seq<Entry>)
    requires es != [] && Distinct(es) && es[0].Live()
    ensures forall j :: 0 < j < |es| ==> es[j].id != es[0].id
  {
  }

  lemma DistinctCons(e: Entry, c: seq<Entry>)
    requires Distinct(c) && forall i :: 0 <= i < |c| ==> c[i].id != e.id
    ensures Distinct([e] + c)
  {
  }

  lemma TailIn<T>(s: seq<T>)
    requires s != []
    ensures forall x :: x in s[1..] ==> x in s
  {
  }

  lemma HeadOff<T>(x: T, c: seq<T>)
    ensures ([x] + c)[1..] == c && [] + c == c
  {
  }

  lemma Grouped<T>(a: seq<T>, b: seq<T>, c: seq<T>)
    ensures (a + b) + c == a + (b + c)
  {
  }

  /** What AJ_NVRAM_GetSize adds up: headers and capacities of the live entries. */
  function LiveSize(es: seq<Entry>): nat {
    if es == [] then 0 else (if es[0].Live() then es[0].Size() else 0) + LiveSize(es[1..])
  }

  lemma {:induction false} LiveSizeAppend(a: seq<Entry>, b: seq<Entry>)
    ensures LiveSize(a + b) == LiveSize(a) + LiveSize(b)
  {
    if a == [] {
      assert a + b == b;
    } else {
      assert (a + b)[1..] == a[1..] + b;
      LiveSizeAppend(a[1..], b);
    }
  }
}
