/** The pool allocator of aj_malloc.c: free lists threaded through the memory they manage. */
module Pool {
  import opened Common
  import opened PoolLayout

  /** One pool's record. */
  datatype Record = Record(endOfPool: nat, freeList: nat, use: nat, hwm: nat, max: nat)

  /** Pool `i` consists of its free and its live blocks; the free ones are linked from its record. */
  ghost predicate PoolOk(config: seq<Config>, m: seq<byte>, i: nat, p: Record, free: seq<nat>, live: set<nat>)
    requires i < |config|
  {
    && p.endOfPool == Start(config, i + 1)
    && Linked(m, p.freeList, free) && NoRepeats(free)
    && (forall a :: a in free ==> a !in live && IsBlock(config, i, a))
    && (forall a :: a in live ==> IsBlock(config, i, a))
    && (forall k :: 0 <= k < config[i].entries ==> Addr(config, i, k) in free || Addr(config, i, k) in live)
    && p.use == |live| <= p.hwm && p.use + |free| == config[i].entries
  }

  /**
   The pool that serves a request: from `i` on, the first that is large enough, unless it is empty and
   may not borrow.
   */
  function Serve(config: seq<Config>, free: seq<seq<nat>>, sz: nat, i: nat): (r: nat)
    requires i <= |config| == |free|
    ensures i <= r <= |config|
    ensures r < |config| ==> sz <= config[r].size && free[r] != []
    ensures r < |config| ==> forall j :: i <= j < r ==> config[j].size < sz || (free[j] == [] && config[j].borrow)
    ensures r == |config| ==>
              (forall j :: i <= j < |config| && sz <= config[j].size ==> free[j] == [])
              || exists k :: i <= k < |config| && sz <= config[k].size && free[k] == [] && !config[k].borrow
                             && forall j :: i <= j < k && sz <= config[j].size ==> free[j] == []
    decreases |config| - i
  {
    if i == |config| then i
    else if sz <= config[i].size then
      if free[i] != [] then i else if config[i].borrow then Serve(config, free, sz, i + 1) else |config|
    else Serve(config, free, sz, i + 1)
  }

  class Heap {
    const mem: array<byte>
    var config: seq<Config>
    var pools: seq<Record>
    /** The free blocks of each pool, in list order, and the live ones. */
    ghost var free: seq<seq<nat>>
    ghost var live: seq<set<nat>>

    ghost predicate Valid()
      reads this, mem
    {
      && Start(config, |config|) <= mem.Length < 0x1_0000_0000
      && |pools| == |config| && |free| == |config| && |live| == |config|
      && forall i :: 0 <= i < |config| ==> PoolOk(config, mem[..], i, pools[i], free[i], live[i])
    }

    constructor (memory: array<byte>)
      ensures mem == memory
    {
      mem := memory;
      config, pools, free, live := [], [], [], [];
    }

    /**
     AJ_PoolInit for a heap of `heapSz` octets, which memory may go on behind: every block is free
     and linked.  A heap that holds the blocks without the records passes the test, and then
     the last blocks are behind its end.
     */
    method Init(heapSz: nat, poolConfig: seq<Config>) returns (status: Status)
      requires Start(poolConfig, |poolConfig|) <= mem.Length < 0x1_0000_0000
      modifies this, mem
      ensures status == if Span(poolConfig, |poolConfig|) <= heapSz then OK else ErrResources
      ensures config == poolConfig && (status == OK ==> Valid())
      ensures status == OK ==> forall i :: 0 <= i < |config| ==> live[i] == {} && |free[i]| == config[i].entries
      ensures mem[Start(poolConfig, |poolConfig|)..] == old(mem[Start(poolConfig, |poolConfig|)..])
    {
      hide PoolOk, Start;
      config, pools, free, live := poolConfig, [], [], [];
      var heapEnd: nat, left: nat := POOL_RECORD * |config|, heapSz;
      ghost var end := Start(config, |config|);
      FirstStart(config);
      var i := 0;
      while i < |config|
        invariant config == poolConfig && Built(i)
        invariant heapEnd == Start(config, i) && left + heapEnd == heapSz + POOL_RECORD * |config|
        invariant mem[end..] == old(mem[end..])
      {
        StartNext(config, i);
        status, heapEnd, left := AddPool(i, heapEnd, left, end);
        if status != OK {
          return;
        }
        i := i + 1;
      }
      return OK;
    }

    /** The first `i` pools are there, all of their blocks free. */
    ghost predicate Built(i: nat)
      reads this, mem
    {
      && i == |pools| == |free| == |live| <= |config|
      && forall j :: 0 <= j < i ==>
           PoolOk(config, mem[..], j, pools[j], free[j], live[j]) && live[j] == {} && |free[j]| == config[j].entries
    }

    /** One turn of AJ_PoolInit. */
    method AddPool(i: nat, from: nat, heapLeft: nat, ghost end: nat) returns (status: Status, heapEnd: nat, left: nat)
      requires
        && Built(i) && i < |config|
        && from == Start(config, i) <= end == Start(config, |config|) <= mem.Length < 0x1_0000_0000
      modifies this`pools, this`free, this`live, mem
      ensures status == if Start(config, i + 1) - from <= heapLeft then OK else ErrResources
      ensures status == OK ==> Built(i + 1) && heapEnd == Start(config, i + 1) && left + heapEnd == heapLeft + from
      ensures mem[end..] == old(mem[end..])
    {
      hide PoolOk, Start, BlockList;
      ghost var m := mem[..];
      var list;
      status, heapEnd, left, list := LinkPool(i, from, heapLeft, end);
      if status != OK {
        return;
      }
      forall j | 0 <= j < i ensures PoolOk(config, mem[..], j, pools[j], free[j], live[j]) {
        Behind(config, m, mem[..], i, j, pools[j], free[j], live[j]);
      }
      AllFree(config, mem[..], i, Record(heapEnd, list, 0, 0, 0));
      free := free + [BlockList(config, i, config[i].entries)];
      live := live + [{}];
      pools := pools + [Record(heapEnd, list, 0, 0, 0)];
    }

    /** One pool's turn: its blocks are pushed one after the other. */
    method LinkPool(i: nat, from: nat, heapLeft: nat, ghost end: nat)
      returns (status: Status, heapEnd: nat, left: nat, list: nat)
      requires i < |config| && from == Start(config, i) <= end == Start(config, |config|) <= mem.Length < 0x1_0000_0000
      modifies mem
      ensures status == if Start(config, i + 1) - from <= heapLeft then OK else ErrResources
      ensures status == OK ==> heapEnd == Start(config, i + 1) && left + heapEnd == heapLeft + from
      ensures status == OK ==> Linked(mem[..], list, BlockList(config, i, config[i].entries))
      ensures mem[..from] == old(mem[..from]) && mem[end..] == old(mem[end..])
    {
      hide BlockSize, Start, Addr, BlockList, Linked, U32;
      var sz := config[i].size;
      sz := sz + 4 - sz % 4;
      SizeIs(config[i].size);
      heapEnd, left, list := from, heapLeft, 0;
      var n := config[i].entries;
      NoneLinked(config, mem[..], i);
      AddrEnds(config, i);
      ghost var built := 0;
      while n != 0
        invariant built == config[i].entries - n && 0 <= n <= config[i].entries
        invariant from <= heapEnd == Addr(config, i, built) && left + heapEnd == heapLeft + from
        invariant Linked(mem[..], list, BlockList(config, i, built))
        invariant mem[..from] == old(mem[..from]) && mem[end..] == old(mem[end..])
      {
        OneMore(config, i, built);
        if sz > left {
          return ErrResources, heapEnd, left, list;
        }
        ghost var m := mem[..];
        var b := U32(list);
        mem[heapEnd], mem[heapEnd + 1], mem[heapEnd + 2], mem[heapEnd + 3] := b[0], b[1], b[2], b[3];
        assert mem[..] == Stored(m, heapEnd, list);
        LinkOne(config, m, i, built, list);
        StoredAround(m, heapEnd, list, from, end);
        list := heapEnd;
        heapEnd := heapEnd + sz;
        left := left - sz;
        n := n - 1;
        built := built + 1;
      }
      status := OK;
    }

    /** AJ_PoolAlloc: the first block of the pool that serves the request, or null. */
    method Alloc(sz: nat) returns (r: nat)
      requires Valid()
      modifies this`pools, this`free, this`live
      ensures Valid() && config == old(config)
      ensures var i := Serve(config, old(free), sz, 0);
        if i == |config| then r == 0 && pools == old(pools) && free == old(free) && live == old(live)
        else && old(free)[i] != [] && r == old(free)[i][0] > 0 && r !in old(live)[i] && IsBlock(config, i, r)
             && free == old(free)[i := old(free)[i][1..]] && live == old(live)[i := old(live)[i] + {r}]
    {
      hide Serve, PoolOk;
      var i := 0;
      while i < |config|
        invariant Valid() && pools == old(pools) && free == old(free) && live == old(live) && config == old(config)
        invariant i <= |config| && Serve(config, free, sz, 0) == Serve(config, free, sz, i)
      {
        ServeStep(config, free, sz, i);
        if sz <= config[i].size {
          var block := pools[i].freeList;
          HeadOf(config, mem[..], i, pools[i], free[i], live[i]);
          if block == 0 {
            if config[i].borrow {
              i := i + 1;
              continue;
            }
            break;
          }
          var p := pools[i];
          var next := ReadU32(mem[block..block + PTR_SIZE]);
          var used := p.use + 1;
          var p' :=
            Record(p.endOfPool, next, used, if used > p.hwm then used else p.hwm, if sz > p.max then sz else p.max);
          TakeFirst(config, mem[..], i, p, free[i], live[i], p');
          pools := pools[i := p'];
          live := live[i := live[i] + {block}];
          free := free[i := free[i][1..]];
          return block;
        }
        i := i + 1;
      }
      return 0;
    }

    /** A copy into a live block, by its owner: the pools are untouched by it. */
    method WriteLive(a: nat, at: nat, bytes: seq<byte>, ghost i: nat)
      requires Valid() && i < |config| && a in live[i] && at + |bytes| <= BlockSize(config[i].size)
      modifies mem
      ensures Valid() && a + at + |bytes| <= mem.Length
      ensures mem[..] == old(mem[..a + at]) + bytes + old(mem[a + at + |bytes|..])
    {
      hide PoolOk;
      InHeap(config, mem[..], i, pools[i], free[i], live[i], a);
      ghost var m := mem[..];
      forall k | 0 <= k < |bytes| {
        mem[a + at + k] := bytes[k];
      }
      assert mem[..] == m[..a + at] + bytes + m[a + at + |bytes|..];
      forall j | 0 <= j < |config| ensures PoolOk(config, mem[..], j, pools[j], free[j], live[j]) {
        Elsewhere(config, m, mem[..], i, a, j, pools[j], free[j], live[j]);
      }
    }

    /** Puts a live block back in front of its pool's free list. */
    method Push(a: nat, i: nat)
      requires Valid() && i < |config| && a in live[i]
      modifies mem, this`pools, this`free, this`live
      ensures Valid() && config == old(config) && a + PTR_SIZE <= mem.Length
      ensures free == old(free)[i := [a] + old(free)[i]] && live == old(live)[i := old(live)[i] - {a}]
      ensures exists n :: mem[..] == Stored(old(mem[..]), a, n)
    {
      hide PoolOk;
      InHeap(config, mem[..], i, pools[i], free[i], live[i], a);
      ghost var m := mem[..];
      var p := pools[i];
      var b := U32(p.freeList);
      mem[a], mem[a + 1], mem[a + 2], mem[a + 3] := b[0], b[1], b[2], b[3];
      assert mem[..] == Stored(m, a, p.freeList);
      var p' := p.(freeList := a, use := p.use - 1);
      forall j | 0 <= j < |config| && j != i ensures PoolOk(config, mem[..], j, pools[j], free[j], live[j]) {
        StoredElsewhere(config, m, i, a, p.freeList, j, pools[j], free[j], live[j]);
      }
      PutFirst(config, m, i, p, free[i], live[i], a, p');
      pools := pools[i := p'];
      free := free[i := [a] + free[i]];
      live := live[i := live[i] - {a}];
    }

    /** AJ_PoolFree of a live block or null: the block goes back to the pool it is from. */
    method Free(a: nat, ghost i: nat)
      requires Valid() && (a != 0 ==> i < |config| && a in live[i])
      modifies mem, this`pools, this`free, this`live
      ensures Valid() && config == old(config)
      ensures a == 0 ==> free == old(free) && live == old(live) && mem[..] == old(mem[..])
      ensures a != 0 ==> free == old(free)[i := [a] + old(free)[i]] && live == old(live)[i := old(live)[i] - {a}]
      ensures a != 0 ==>
        a + PTR_SIZE <= mem.Length && mem[..a] == old(mem[..a]) && mem[a + PTR_SIZE..] == old(mem[a + PTR_SIZE..])
    {
      hide PoolOk;
      if a != 0 {
        var k := Locate(a, i);
        Push(a, k);
      }
    }

    /** The search by address both AJ_PoolFree and AJ_PoolRealloc make. */
    method Locate(a: nat, ghost i: nat) returns (k: nat)
      requires Valid() && i < |config| && a in live[i]
      ensures k == i
    {
      hide PoolOk, IsBlock, BlockSize, Start;
      InHeap(config, mem[..], i, pools[i], free[i], live[i], a);
      k := 0;
      while a >= pools[k].endOfPool
        invariant k <= i
        decreases i - k
      {
        EndOf(config, mem[..], k, i, pools[k], free[k], live[k], a);
        k := k + 1;
      }
      EndOf(config, mem[..], k, i, pools[k], free[k], live[k], a);
    }

    /**
     AJ_PoolRealloc: the block that is returned starts with what the old one held, as far as both
     reach; if there is none, the old block stays as it is.
     */
    method Realloc(a: nat, newSz: nat, ghost i: nat) returns (r: nat)
      requires Valid() && (a != 0 ==> i < |config| && a in live[i])
      modifies mem, this`pools, this`free, this`live
      ensures Valid() && config == old(config)
      ensures var k := Serve(config, old(free), newSz, 0);
        if a == 0 || !InPlace(config, i, newSz) then
          if k == |config| then r == 0 && free == old(free) && live == old(live) && mem[..] == old(mem[..])
          else
            && old(free)[k] != [] && r == old(free)[k][0] > 0 && r !in old(live)[k] && IsBlock(config, k, r)
            && var taken := old(free)[k := old(free)[k][1..]]; var given := old(live)[k := old(live)[k] + {r}];
               if a == 0 then free == taken && live == given && mem[..] == old(mem[..])
               else free == taken[i := [a] + taken[i]] && live == given[i := given[i] - {a}]
        else r == a && free == old(free) && live == old(live) && mem[..] == old(mem[..])
      ensures a != 0 && r != 0 ==>
        r + Min(config[i].size, newSz) <= mem.Length && a + Min(config[i].size, newSz) <= mem.Length
      ensures a != 0 && r != 0 ==> mem[r..r + Min(config[i].size, newSz)] == old(mem[a..a + Min(config[i].size, newSz)])
      ensures a != 0 && r != 0 ==>
                forall x ::
                  0 <= x < mem.Length && !(r <= x < r + Min(config[i].size, newSz)) && !(a <= x < a + PTR_SIZE) ==>
                  mem[x] == old(mem[x])
    {
      hide PoolOk, Serve;
      if a == 0 {
        r := Alloc(newSz);
        return;
      }
      InHeap(config, mem[..], i, pools[i], free[i], live[i], a);
      var k := Locate(a, i);
      var oldSz := config[k].size;
      if newSz <= oldSz && (k == 0 || newSz > config[k - 1].size) {
        return a;
      }
      r := Replace(a, k, newSz);
    }

    /** The other branch of AJ_PoolRealloc: a new block, the old contents copied over, the old block freed. */
    method Replace(a: nat, i: nat, newSz: nat) returns (r: nat)
      requires Valid() && i < |config| && a in live[i]
      modifies mem, this`pools, this`free, this`live
      ensures Valid() && config == old(config)
      ensures var k := Serve(config, old(free), newSz, 0);
        if k == |config| then r == 0 && free == old(free) && live == old(live) && mem[..] == old(mem[..])
        else
          && old(free)[k] != [] && r == old(free)[k][0] > 0 && r !in old(live)[k] && IsBlock(config, k, r)
          && var taken := old(free)[k := old(free)[k][1..]]; var given := old(live)[k := old(live)[k] + {r}];
             free == taken[i := [a] + taken[i]] && live == given[i := given[i] - {a}]
      ensures r != 0 ==> r + Min(config[i].size, newSz) <= mem.Length && a + Min(config[i].size, newSz) <= mem.Length
      ensures r != 0 ==> mem[r..r + Min(config[i].size, newSz)] == old(mem[a..a + Min(config[i].size, newSz)])
      ensures r != 0 ==>
        forall x :: 0 <= x < mem.Length && !(r <= x < r + Min(config[i].size, newSz)) && !(a <= x < a + PTR_SIZE) ==>
        mem[x] == old(mem[x])
    {
      hide PoolOk, Serve, IsBlock, Start, Stored, BlockSize;
      InHeap(config, mem[..], i, pools[i], free[i], live[i], a);
      ghost var s := Serve(config, free, newSz, 0);
      r := Alloc(newSz);
      if r != 0 {
        Fresh(config, i, a, s, r);
        SmallEnough(config, old(free), s, newSz);
        MoveInto(a, i, r, Min(config[i].size, newSz), s);
      }
    }

    /** Copies `n` octets from one live block to another and frees the first. */
    method MoveInto(a: nat, i: nat, r: nat, n: nat, ghost s: nat)
      requires
        && Valid() && i < |config| && s < |config| && a in live[i] && r in live[s]
        && n <= BlockSize(config[i].size) && n <= BlockSize(config[s].size)
      requires a + BlockSize(config[i].size) <= r || r + BlockSize(config[s].size) <= a
      modifies mem, this`pools, this`free, this`live
      ensures Valid() && config == old(config) && r + n <= mem.Length && a + n <= mem.Length
      ensures free == old(free)[i := [a] + old(free)[i]] && live == old(live)[i := old(live)[i] - {a}]
      ensures mem[r..r + n] == old(mem[a..a + n])
      ensures forall x :: 0 <= x < mem.Length && !(r <= x < r + n) && !(a <= x < a + PTR_SIZE) ==> mem[x] == old(mem[x])
    {
      hide PoolOk, IsBlock, Start, Stored;
      InHeap(config, mem[..], i, pools[i], free[i], live[i], a);
      ghost var m := mem[..];
      var bytes := mem[a..a + n];
      WriteLive(r, 0, bytes, s);
      ghost var m1 := mem[..];
      Push(a, i);
      Moved(m, m1, mem[..], a, r, bytes);
    }
  }

  lemma SmallEnough(config: seq<Config>, free: seq<seq<nat>>, s: nat, sz: nat)
    requires |free| == |config| && s == Serve(config, free, sz, 0) < |config|
    ensures sz <= BlockSize(config[s].size)
  {
  }

  /** In every reachable state no two live blocks overlap, nor does a live block a free one. */
  lemma NoOverlap(h: Heap, i: nat, a: nat, j: nat, b: nat)
    requires h.Valid() && i < |h.config| && j < |h.config| && a in h.live[i]
    requires (b in h.live[j] && (a != b || i != j)) || b in h.free[j]
    ensures a != b && (a + BlockSize(h.config[i].size) <= b || b + BlockSize(h.config[j].size) <= a)
    ensures a + BlockSize(h.config[i].size) <= h.mem.Length
  {
    hide IsBlock, BlockSize, Linked, NoRepeats;
    assert PoolOk(h.config, h.mem[..], i, h.pools[i], h.free[i], h.live[i]);
    assert PoolOk(h.config, h.mem[..], j, h.pools[j], h.free[j], h.live[j]);
    Disjoint(h.config, i, a, j, b);
    BlockIn(h.config, i, a);
  }

  /** AJ_PoolRealloc leaves a block alone that is not too small and would not fit the pool below. */
  ghost predicate InPlace(config: seq<Config>, i: nat, newSz: nat)
    requires i < |config|
  {
    newSz <= config[i].size && (i == 0 || newSz > config[i - 1].size)
  }

  lemma InHeap(config: seq<Config>, m: seq<byte>, i: nat, p: Record, free: seq<nat>, live: set<nat>, a: nat)
    requires i < |config| && PoolOk(config, m, i, p, free, live) && a in live && Start(config, |config|) <= |m|
    ensures
      && IsBlock(config, i, a) && a > 0 && a + BlockSize(config[i].size) <= |m|
      && BlockSize(config[i].size) >= PTR_SIZE
    ensures a < |m| && p.use > 0
  {
    BlockIn(config, i, a);
    assert live != {};
  }

  lemma EndOf(config: seq<Config>, m: seq<byte>, k: nat, i: nat, p: Record, free: seq<nat>, live: set<nat>, a: nat)
    requires k <= i < |config| && PoolOk(config, m, k, p, free, live) && IsBlock(config, i, a)
    ensures a < p.endOfPool <==> k == i
  {
    BlockIn(config, i, a);
    if k < i {
      SpanMonotone(config, k + 1, i);
    }
  }

  /** Changing the inside of a live block of one pool keeps every pool. */
  lemma Elsewhere(config: seq<Config>, m: seq<byte>, m': seq<byte>, i: nat, a: nat, j: nat, p: Record, free: seq<nat>,
                  live: set<nat>)
    requires i < |config| && j < |config| && IsBlock(config, i, a) && PoolOk(config, m, j, p, free, live)
    requires i == j ==> a in live
    requires |m'| == |m| && forall x :: 0 <= x < |m| && !(a <= x < a + BlockSize(config[i].size)) ==> m'[x] == m[x]
    ensures PoolOk(config, m', j, p, free, live)
  {
    hide IsBlock, Addr, BlockSize;
    forall k | 0 <= k < |free|
      && free[k] + PTR_SIZE <= |m| ensures m'[free[k]..free[k] + PTR_SIZE] == m[free[k]..free[k] + PTR_SIZE] {
      assert free[k] in free;
      Disjoint(config, i, a, j, free[k]);
      WordFits(config[j].size);
    }
    SameLinks(m, m', p.freeList, free);
  }

  lemma WordFits(size: nat)
    ensures BlockSize(size) >= PTR_SIZE
  {
  }

  lemma StoredElsewhere(config: seq<Config>, m: seq<byte>, i: nat, a: nat, n: nat, j: nat, p: Record, free: seq<nat>,
                        live: set<nat>)
    requires
      && i < |config| && j < |config| && i != j && IsBlock(config, i, a)
      && PoolOk(config, m, j, p, free, live) && a + PTR_SIZE <= |m|
    ensures PoolOk(config, Stored(m, a, n), j, p, free, live)
  {
    hide PoolOk, U32, Stored;
    StoredAt(m, a, n);
    WordFits(config[i].size);
    Elsewhere(config, m, Stored(m, a, n), i, a, j, p, free, live);
  }

  /** A live block put in front of the free list keeps the pool. */
  lemma PutFirst(config: seq<Config>, m: seq<byte>, i: nat, p: Record, free: seq<nat>, live: set<nat>, a: nat,
                 p': Record)
    requires
      && i < |config| && PoolOk(config, m, i, p, free, live) && a in live && 0 < a
      && a + PTR_SIZE <= |m| < 0x1_0000_0000
    requires p' == p.(freeList := a, use := p.use - 1)
    ensures PoolOk(config, Stored(m, a, p.freeList), i, p', [a] + free, live - {a})
  {
    hide IsBlock, Start, Addr, U32, ReadU32, Stored;
    var m' := Stored(m, a, p.freeList);
    forall k | 0 <= k < |free|
      && free[k] + PTR_SIZE <= |m| ensures m'[free[k]..free[k] + PTR_SIZE] == m[free[k]..free[k] + PTR_SIZE] {
      assert free[k] in free;
      Disjoint(config, i, a, i, free[k]);
      WordFits(config[i].size);
      StoredApart(m, a, p.freeList, free[k]);
    }
    SameLinks(m, m', p.freeList, free);
    assert p.freeList < 0x1_0000_0000;
    U32RoundTrip(p.freeList);
    StoredAt(m, a, p.freeList);
    assert ([a] + free)[1..] == free;
  }

  /** A block just taken is not one that was live before. */
  lemma Fresh(config: seq<Config>, i: nat, a: nat, s: nat, r: nat)
    requires i < |config| && s < |config| && IsBlock(config, i, a) && IsBlock(config, s, r) && (i != s || a != r)
    ensures a + BlockSize(config[i].size) <= r || r + BlockSize(config[s].size) <= a
  {
    Disjoint(config, i, a, s, r);
  }

  lemma Moved(m: seq<byte>, m1: seq<byte>, m2: seq<byte>, a: nat, r: nat, bytes: seq<byte>)
    requires r + |bytes| <= |m| && m1 == m[..r] + bytes + m[r + |bytes|..] && a + PTR_SIZE <= |m|
    requires exists n :: m2 == Stored(m1, a, n)
    requires a + PTR_SIZE <= r || r + |bytes| <= a
    ensures m2[r..r + |bytes|] == bytes
    ensures forall x :: 0 <= x < |m| && !(r <= x < r + |bytes|) && !(a <= x < a + PTR_SIZE) ==> m2[x] == m[x]
  {
    hide Stored;
    var n :| m2 == Stored(m1, a, n);
    StoredAt(m1, a, n);
    assert m1[r..r + |bytes|] == bytes;
    assert m2[r..r + |bytes|] == m1[r..r + |bytes|];
  }

  lemma ServeStep(config: seq<Config>, free: seq<seq<nat>>, sz: nat, i: nat)
    requires i < |config| == |free|
    ensures sz <= config[i].size && free[i] != [] ==> Serve(config, free, sz, i) == i
    ensures sz <= config[i].size && free[i] == [] && !config[i].borrow ==> Serve(config, free, sz, i) == |config|
    ensures sz > config[i].size || (free[i] == [] && config[i].borrow) ==>
      Serve(config, free, sz, i) == Serve(config, free, sz, i + 1)
    ensures Serve(config, free, sz, |config|) == |config|
  {
  }

  lemma HeadOf(config: seq<Config>, m: seq<byte>, i: nat, p: Record, free: seq<nat>, live: set<nat>)
    requires i < |config| && PoolOk(config, m, i, p, free, live)
    ensures p.freeList == 0 <==> free == []
    ensures free != [] ==>
      && p.freeList == free[0] && free[0] + PTR_SIZE <= |m| && free[0] !in live
      && IsBlock(config, i, free[0])
  {
  }

  /** Taking the first free block keeps the pool. */
  lemma TakeFirst(config: seq<Config>, m: seq<byte>, i: nat, p: Record, free: seq<nat>, live: set<nat>, p': Record)
    requires i < |config| && PoolOk(config, m, i, p, free, live) && free != [] && free[0] + PTR_SIZE <= |m|
    requires p'.endOfPool == p.endOfPool && p'.freeList == Next(m, free[0]) && p'.use == p.use + 1 <= p'.hwm
    ensures PoolOk(config, m, i, p', free[1..], live + {free[0]})
  {
    hide IsBlock, Start, Addr, Next;
    var rest := free[1..];
    forall a | a in rest ensures a in free && a != free[0] {
      var k :| 0 <= k < |rest| && rest[k] == a;
      assert free[k + 1] == a;
    }
    forall k | 0 <= k < config[i].entries ensures Addr(config, i, k) in rest || Addr(config, i, k) in live + {free[0]} {
      if Addr(config, i, k) in free {
        var l :| 0 <= l < |free| && free[l] == Addr(config, i, k);
        assert l > 0 ==> rest[l - 1] == free[l];
      }
    }
  }

  lemma FirstStart(config: seq<Config>)
    ensures Start(config, 0) == POOL_RECORD * |config| && Span(config, 0) == 0
    ensures Start(config, |config|) == POOL_RECORD * |config| + Span(config, |config|)
  {
  }

  lemma StartNext(config: seq<Config>, i: nat)
    requires i < |config|
    ensures Start(config, i) <= Start(config, i + 1) <= Start(config, |config|)
  {
    SpanMonotone(config, i, i + 1);
    SpanMonotone(config, i + 1, |config|);
  }

  lemma NoneLinked(config: seq<Config>, m: seq<byte>, i: nat)
    requires i < |config|
    ensures BlockList(config, i, 0) == [] && Linked(m, 0, [])
  {
  }

  /** The next block of a pool that is being linked is inside the heap. */
  lemma OneMore(config: seq<Config>, i: nat, built: nat)
    requires i < |config| && built < config[i].entries
    ensures
      && Start(config, i) <= Addr(config, i, built)
      && Addr(config, i, built) + BlockSize(config[i].size) <= Start(config, |config|)
    ensures Addr(config, i, built + 1) == Addr(config, i, built) + BlockSize(config[i].size) <= Start(config, i + 1)
    ensures BlockSize(config[i].size) >= PTR_SIZE
  {
    assert IsBlock(config, i, Addr(config, i, built));
    BlockIn(config, i, Addr(config, i, built));
    Distribute(built + 1, BlockSize(config[i].size));
  }

  lemma SizeIs(size: nat)
    ensures BlockSize(size) == size + 4 - size % 4
  {
  }

  lemma AddrEnds(config: seq<Config>, i: nat)
    requires i < |config|
    ensures Addr(config, i, 0) == Start(config, i) && Addr(config, i, config[i].entries) == Start(config, i + 1)
  {
    assert BlockSize(config[i].size) * config[i].entries == config[i].entries * BlockSize(config[i].size);
  }

  lemma LinkOne(config: seq<Config>, m: seq<byte>, i: nat, built: nat, list: nat)
    requires i < |config| && built < config[i].entries && Linked(m, list, BlockList(config, i, built))
    requires Start(config, |config|) <= |m| < 0x1_0000_0000 && Addr(config, i, built) + PTR_SIZE <= |m|
    ensures Linked(Stored(m, Addr(config, i, built), list), Addr(config, i, built), BlockList(config, i, built + 1))
  {
    hide BlockSize, Start, Addr, U32, ReadU32, Stored;
    var a := Addr(config, i, built);
    var blocks := BlockList(config, i, built);
    var m' := Stored(m, a, list);
    assert IsBlock(config, i, a);
    BlockIn(config, i, a);
    BlockListAt(config, i, built);
    forall k | 0 <= k < |blocks|
      && blocks[k] + PTR_SIZE <= |m| ensures m'[blocks[k]..blocks[k] + PTR_SIZE] == m[blocks[k]..blocks[k] + PTR_SIZE] {
      Apart(config, i, built - 1 - k, built);
      StoredApart(m, a, list, blocks[k]);
    }
    SameLinks(m, m', list, blocks);
    assert list < 0x1_0000_0000;
    U32RoundTrip(list);
    StoredAt(m, a, list);
    assert ([a] + blocks)[1..] == blocks;
  }

  lemma Apart(config: seq<Config>, i: nat, k: nat, l: nat)
    requires i < |config| && k < l
    ensures Addr(config, i, k) + PTR_SIZE <= Addr(config, i, l)
  {
    Times(k, l, BlockSize(config[i].size));
  }

  lemma StoredAround(m: seq<byte>, a: nat, n: nat, from: nat, to: nat)
    requires from <= a && a + PTR_SIZE <= to <= |m|
    ensures Stored(m, a, n)[..from] == m[..from] && Stored(m, a, n)[to..] == m[to..]
  {
    hide U32;
  }

  lemma Distribute(n: nat, b: nat)
    requires n > 0
    ensures n * b == (n - 1) * b + b
  {
  }

  /** What is written from the start of pool `i` on does not touch the pools in front. */
  lemma Behind(config: seq<Config>, m: seq<byte>, m': seq<byte>, i: nat, j: nat, p: Record, free: seq<nat>,
               live: set<nat>)
    requires j < i < |config| && PoolOk(config, m, j, p, free, live) && |m'| == |m| && Start(config, i) <= |m|
    requires m'[..Start(config, i)] == m[..Start(config, i)]
    ensures PoolOk(config, m', j, p, free, live)
  {
    hide IsBlock, Addr, BlockSize;
    forall k | 0 <= k < |free|
      && free[k] + PTR_SIZE <= |m| ensures m'[free[k]..free[k] + PTR_SIZE] == m[free[k]..free[k] + PTR_SIZE] {
      assert free[k] in free;
      BlockIn(config, j, free[k]);
      SpanMonotone(config, j + 1, i);
      WordFits(config[j].size);
      SameFront(m, m', Start(config, i), free[k]);
    }
    SameLinks(m, m', p.freeList, free);
  }

  lemma SameFront(m: seq<byte>, m': seq<byte>, to: nat, a: nat)
    requires to <= |m| == |m'| && m'[..to] == m[..to] && a + PTR_SIZE <= to
    ensures m'[a..a + PTR_SIZE] == m[a..a + PTR_SIZE]
  {
    assert m'[..to][a..a + PTR_SIZE] == m'[a..a + PTR_SIZE] && m[..to][a..a + PTR_SIZE] == m[a..a + PTR_SIZE];
  }

  lemma AllFree(config: seq<Config>, m: seq<byte>, i: nat, p: Record)
    requires i < |config| && p == Record(Start(config, i + 1), p.freeList, 0, 0, 0)
    requires Linked(m, p.freeList, BlockList(config, i, config[i].entries))
    ensures PoolOk(config, m, i, p, BlockList(config, i, config[i].entries), {})
  {
    BlockListIs(config, i);
  }
}
