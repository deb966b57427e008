/** Reading and writing a data set in pieces: the pieces do not matter. */
module NvramChunks {
  import opened Common
  import opened NvramLayout
  import opened NvramStore

  function Concat(chunks: seq<seq<byte>>): seq<byte> {
    if chunks == [] then [] else Concat(chunks[..|chunks| - 1]) + chunks[|chunks| - 1]
  }

  function Sum(sizes: seq<nat>): nat {
    if sizes == [] then 0 else Sum(sizes[..|sizes| - 1]) + sizes[|sizes| - 1]
  }

  lemma {:induction false} ConcatMonotone(chunks: seq<seq<byte>>, i: nat)
    requires i <= |chunks|
    ensures |Concat(chunks[..i])| <= |Concat(chunks)|
    ensures i < |chunks| ==> Concat(chunks[..i + 1]) == Concat(chunks[..i]) + chunks[i]
    ensures i < |chunks| ==> |Concat(chunks[..i + 1])| <= |Concat(chunks)|
  {
    if i < |chunks| {
      ConcatMonotone(chunks[..|chunks| - 1], i);
      assert chunks[..i + 1][..i] == chunks[..i] && chunks[..|chunks| - 1][..i] == chunks[..i];
      if i + 1 < |chunks| {
        assert chunks[..|chunks| - 1][..i + 1] == chunks[..i + 1];
      }
    }
    assert chunks[..|chunks|] == chunks;
  }

  lemma {:induction false} SumMonotone(sizes: seq<nat>, i: nat)
    requires i <= |sizes|
    ensures Sum(sizes[..i]) <= Sum(sizes)
    ensures i < |sizes| ==> Sum(sizes[..i + 1]) == Sum(sizes[..i]) + sizes[i] <= Sum(sizes)
  {
    if i < |sizes| {
      SumMonotone(sizes[..|sizes| - 1], i);
      assert sizes[..i + 1][..i] == sizes[..i] && sizes[..|sizes| - 1][..i] == sizes[..i];
      if i + 1 < |sizes| {
        assert sizes[..|sizes| - 1][..i + 1] == sizes[..i + 1];
      }
    }
    assert sizes[..|sizes|] == sizes;
  }

  lemma NoPieces(chunks: seq<seq<byte>>, sizes: seq<nat>)
    ensures Concat(chunks[..0]) == [] && Sum(sizes[..0]) == 0
  {
  }

  /** The data of the set a handle is open on. */
  ghost function Data(s: Store, h: Handle): (d: seq<byte>)
    requires s.HandleOk(h)
    reads s, h
    ensures |d| == h.capacity
  {
    s.es[h.slot].data
  }

  lemma PrefixKept(d: seq<byte>, d': seq<byte>, pos: nat, bytes: seq<byte>)
    requires Written(d, d', pos, bytes)
    ensures d'[..pos] == d[..pos]
  {
    assert d'[..pos] == d'[..pos + |bytes|][..pos];
  }

  lemma DataInMap(s: Store, h: Handle)
    requires s.Valid() && s.HandleOk(h)
    ensures h.id in s.Map() && s.Map()[h.id] == Data(s, h)
  {
    hide Chain, Contents;
    DistinctOf(s.mem[..], s.es);
    ContentsIff(s.es, h.id);
  }

  /** One write, in terms of the data set: it is whole if and only if it fits. */
  method WriteField(s: Store, h: Handle, bytes: seq<byte>, junk: seq<byte>) returns (ok: bool)
    requires s.Valid() && s.HandleOk(h) && h.mode == 'w' && |bytes| < 0x1_0000 && |junk| == 4
    modifies s`es, s.mem, h`curPos
    ensures s.Valid() && s.HandleOk(h) && LiveSize(s.es) == old(LiveSize(s.es))
    ensures bytes != [] ==> (ok <==> h.capacity - old(h.curPos) < 0x8000 && old(h.curPos) + |bytes| <= h.capacity)
    ensures (bytes == [] || ok) ==>
      h.curPos == old(h.curPos) + |bytes| && Data(s, h)[..h.curPos] == old(Data(s, h)[..h.curPos]) + bytes
    ensures s.Map() - {h.id} == old(s.Map()) - {h.id}
    ensures old(h.curPos) <= h.curPos && Data(s, h)[..old(h.curPos)] == old(Data(s, h)[..h.curPos])
    ensures bytes != [] && h.capacity - old(h.curPos) >= 0x8000 ==>
      s.Map() == old(s.Map()) && Data(s, h) == old(Data(s, h))
  {
    hide Chain, Contents, Offset, WriteEnd, LiveSize;
    ghost var d, pos := Data(s, h), h.curPos;
    var n := s.Write(h, bytes, junk);
    if n >= 0 {
      PrefixKept(d, Data(s, h), pos, bytes[..n]);
    }
    ok := n == |bytes|;
    assert n >= 0 ==> bytes[..n] == if ok then bytes else bytes[..n];
    assert bytes == [] ==> old(Data(s, h)[..h.curPos]) + bytes == old(Data(s, h)[..h.curPos]);
  }

  /** Any sequence of writes that fits leaves the concatenation at the front of the data set. */
  method WriteAll(s: Store, h: Handle, chunks: seq<seq<byte>>, junk: seq<seq<byte>>)
    requires s.Valid() && s.HandleOk(h) && h.mode == 'w' && h.curPos == 0 && h.capacity < 0x8000
    requires |Concat(chunks)| <= h.capacity && |junk| == |chunks|
    requires forall i :: 0 <= i < |chunks| ==> |chunks[i]| < 0x1_0000 && |junk[i]| == 4
    modifies s`es, s.mem, h`curPos
    ensures s.Valid() && s.HandleOk(h) && h.curPos == |Concat(chunks)|
    ensures Data(s, h)[..|Concat(chunks)|] == Concat(chunks)
    ensures s.Map() - {h.id} == old(s.Map()) - {h.id}
  {
    hide Concat, Chain, Contents, Offset, LiveSize, Store.HandleOk;
    NoPieces(chunks, []);
    for i := 0 to |chunks|
      invariant s.Valid() && s.HandleOk(h) && h.curPos == |Concat(chunks[..i])| <= h.capacity
      invariant Data(s, h)[..h.curPos] == Concat(chunks[..i])
      invariant s.Map() - {h.id} == old(s.Map()) - {h.id}
    {
      ConcatMonotone(chunks, i);
      var _ := WriteField(s, h, chunks[i], junk[i]);
    }
    assert chunks[..|chunks|] == chunks;
  }

  /** Any sequence of reads that does not run off the end returns the front of the data set. */
  method ReadAll(s: Store, h: Handle, sizes: seq<nat>) returns (bytes: seq<byte>)
    requires s.Valid() && s.HandleOk(h) && h.mode == 'r' && h.curPos == 0 && Sum(sizes) <= h.capacity
    requires forall i :: 0 <= i < |sizes| ==> sizes[i] < 0x1_0000
    modifies h`curPos
    ensures s.HandleOk(h) && bytes == Data(s, h)[..Sum(sizes)]
  {
    hide Sum, Chain, Contents, Offset, Store.HandleOk;
    bytes := [];
    NoPieces([], sizes);
    for i := 0 to |sizes|
      invariant s.HandleOk(h) && h.curPos == Sum(sizes[..i]) <= h.capacity && bytes == Data(s, h)[..h.curPos]
    {
      SumMonotone(sizes, i);
      DataInMap(s, h);
      var _, piece := s.Read(h, sizes[i]);
      bytes := bytes + piece;
    }
    assert sizes[..|sizes|] == sizes;
  }

  /** What is written in some pieces is read back in any others. */
  method WriteThenRead(s: Store, id: nat, capacity: nat, chunks: seq<seq<byte>>, junk: seq<seq<byte>>, sizes: seq<nat>)
    returns (bytes: Option<seq<byte>>)
    requires
      && s.Valid() && 0 < id < INVALID_DATA && 0 < capacity < 0x7FFD && |Concat(chunks)| <= capacity
      && |junk| == |chunks|
    requires forall i :: 0 <= i < |chunks| ==> |chunks[i]| < 0x1_0000 && |junk[i]| == 4
    requires forall i :: 0 <= i < |sizes| ==> sizes[i] < 0x1_0000
    requires Sum(sizes) <= |Concat(chunks)|
    modifies s`es, s.mem
    ensures s.Valid() && s.Map() - {id} == old(s.Map()) - {id}
    ensures bytes.Some? ==> bytes.value == Concat(chunks)[..Sum(sizes)]
    ensures bytes.Some? <==>
      SENTINEL_OFFSET + old(LiveSize(s.es)) - SizeIn(old(s.Map()), id) + ENTRY_HEADER_SIZE + WordAlign(capacity)
      <= s.mem.Length
  {
    hide Concat, Sum, Chain, Contents, Offset, LiveSize;
    var h := s.Open(id, "w", capacity);
    if h == null {
      return None;
    }
    DataInMap(s, h);
    WriteAll(s, h, chunks, junk);
    DataInMap(s, h);
    ghost var d := s.Map()[id];
    h := s.Open(id, "r", 0);
    DataInMap(s, h);
    assert d[..|Concat(chunks)|][..Sum(sizes)] == d[..Sum(sizes)];
    var got := ReadAll(s, h, sizes);
    bytes := Some(got);
  }
}
