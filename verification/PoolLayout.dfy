/** The memory pools: where their blocks are. */
module PoolLayout {
  import opened Common

  /** AJ_HeapConfig: the pools in order. */
  datatype Config = Config(size: nat, entries: nat, borrow: bool)

  /** The size of a pool's own record, and of a pointer, on a 32-bit target. */
  const POOL_RECORD := 16
  const PTR_SIZE := 4

  /** A block's size: at least one octet more than was asked for, and a multiple of four. */
  function BlockSize(size: nat): (n: nat)
    ensures n % 4 == 0 && size < n <= size + 4
  {
    size + 4 - size % 4
  }

  /** The octets of the first `i` pools. */
  function Span(config: seq<Config>, i: nat): nat
    requires i <= |config|
  {
    if i == 0 then 0 else Span(config, i - 1) + BlockSize(config[i - 1].size) * config[i - 1].entries
  }

  /** Where pool `i` starts. */
  function Start(config: seq<Config>, i: nat): nat
    requires i <= |config|
  {
    POOL_RECORD * |config| + Span(config, i)
  }

  /** Block `k` of pool `i`. */
  function Addr(config: seq<Config>, i: nat, k: nat): nat
    requires i < |config|
  {
    Start(config, i) + k * BlockSize(config[i].size)
  }

  ghost predicate IsBlock(config: seq<Config>, i: nat, a: nat)
    requires i < |config|
  {
    exists k :: 0 <= k < config[i].entries && a == Addr(config, i, k)
  }

  lemma {:induction false} SpanAligned(config: seq<Config>, i: nat)
    requires i <= |config|
    ensures Span(config, i) % 4 == 0
  {
    hide BlockSize;
    if i > 0 {
      SpanAligned(config, i - 1);
      MultipleOfFour(BlockSize(config[i - 1].size), config[i - 1].entries);
      SumAligned(0, Span(config, i - 1), BlockSize(config[i - 1].size) * config[i - 1].entries);
    }
  }

  lemma MultipleOfFour(b: nat, n: nat)
    requires b % 4 == 0
    ensures b * n % 4 == 0 && n * b % 4 == 0
  {
    var q := b / 4;
    assert b * n == 4 * (q * n) && n * b == b * n;
    FourTimes(q * n);
  }

  lemma FourTimes(x: nat)
    ensures 4 * x % 4 == 0
  {
  }

  lemma {:induction false} SpanMonotone(config: seq<Config>, i: nat, j: nat)
    requires i <= j <= |config|
    ensures Span(config, i) <= Span(config, j)
    decreases j
  {
    if i < j {
      SpanMonotone(config, i, j - 1);
    }
  }

  lemma Times(k: nat, n: nat, b: nat)
    requires k < n
    ensures k * b + b <= n * b
  {
    var d := n - k - 1;
    assert n == d + k + 1;
    assert n * b == d * b + k * b + b;
    assert d * b >= 0;
  }

  lemma AddrIn(config: seq<Config>, i: nat, k: nat)
    requires i < |config| && k < config[i].entries
    ensures
      && Start(config, i) <= Addr(config, i, k)
      && Addr(config, i, k) + BlockSize(config[i].size) <= Start(config, i + 1)
  {
    hide BlockSize;
    var b, n := BlockSize(config[i].size), config[i].entries;
    Times(k, n, b);
    assert b * n == n * b && k * b >= 0;
  }

  lemma AddrAligned(config: seq<Config>, i: nat, k: nat)
    requires i < |config|
    ensures Addr(config, i, k) % 4 == 0 && Addr(config, i, k) > 0
  {
    hide BlockSize, Span;
    SpanAligned(config, i);
    MultipleOfFour(BlockSize(config[i].size), k);
    SumAligned(POOL_RECORD * |config|, Span(config, i), k * BlockSize(config[i].size));
  }

  lemma SumAligned(a: nat, b: nat, c: nat)
    requires a % 4 == 0 && b % 4 == 0 && c % 4 == 0
    ensures (a + b + c) % 4 == 0
  {
  }

  /** A block lies in its pool, on a word, and is not the null pointer. */
  lemma BlockIn(config: seq<Config>, i: nat, a: nat)
    requires i < |config| && IsBlock(config, i, a)
    ensures Start(config, i) <= a && a + BlockSize(config[i].size) <= Start(config, i + 1) <= Start(config, |config|)
    ensures a % 4 == 0 && a > 0
  {
    hide BlockSize, Addr, Span;
    var k :| 0 <= k < config[i].entries && a == Addr(config, i, k);
    AddrIn(config, i, k);
    AddrAligned(config, i, k);
    SpanMonotone(config, i + 1, |config|);
  }

  /** Different blocks do not overlap, and no block is in two pools. */
  lemma Disjoint(config: seq<Config>, i: nat, a: nat, j: nat, b: nat)
    requires i < |config| && j < |config| && IsBlock(config, i, a) && IsBlock(config, j, b)
    requires a != b || i != j
    ensures a != b && (a + BlockSize(config[i].size) <= b || b + BlockSize(config[j].size) <= a)
  {
    hide BlockSize;
    BlockIn(config, i, a);
    BlockIn(config, j, b);
    if i < j {
      SpanMonotone(config, i + 1, j);
    } else if j < i {
      SpanMonotone(config, j + 1, i);
    } else {
      var k :| 0 <= k < config[i].entries && a == Addr(config, i, k);
      var l :| 0 <= l < config[i].entries && b == Addr(config, i, l);
      if k < l {
        Times(k, l, BlockSize(config[i].size));
      } else if l < k {
        Times(l, k, BlockSize(config[i].size));
      }
    }
  }

  /** AJ_PoolRequired: room for the records and for every block. */
  method PoolRequired(config: seq<Config>) returns (heapSz: nat)
    ensures heapSz == Start(config, |config|) == 16 * |config| + Span(config, |config|)
  {
    heapSz := POOL_RECORD * |config|;
    for i := 0 to |config|
      invariant heapSz == Start(config, i)
    {
      var sz := config[i].size;
      sz := sz + 4 - sz % 4;
      heapSz := heapSz + sz * config[i].entries;
    }
  }

  /** A heap holds the records and every block if and only if it has the size AJ_PoolRequired gives. */
  lemma {:induction false} AllFit(config: seq<Config>, n: nat, heapSz: nat)
    requires n <= |config| && POOL_RECORD * |config| <= heapSz
    ensures Start(config, n) <= heapSz <==>
            forall i, k :: 0 <= i < n && 0 <= k < config[i].entries ==>
              Addr(config, i, k) + BlockSize(config[i].size) <= heapSz
  {
    hide BlockSize;
    forall i, k | 0 <= i < n && 0 <= k < config[i].entries
      ensures Addr(config, i, k) + BlockSize(config[i].size) <= Start(config, n)
    {
      AddrIn(config, i, k);
      SpanMonotone(config, i + 1, n);
    }
    if n > 0 {
      var e := config[n - 1].entries;
      AllFit(config, n - 1, heapSz);
      if e > 0 {
        LastBlock(config, n - 1);
      } else {
        assert BlockSize(config[n - 1].size) * e == 0;
      }
    }
  }

  lemma LastBlock(config: seq<Config>, i: nat)
    requires i < |config| && config[i].entries > 0
    ensures Addr(config, i, config[i].entries - 1) + BlockSize(config[i].size) == Start(config, i + 1)
  {
    hide BlockSize;
    var b, e := BlockSize(config[i].size), config[i].entries;
    assert (e - 1) * b + b == e * b == b * e;
  }

  /** One pool of one block: eight octets pass AJ_PoolInit's test, and its block starts behind them. */
  lemma RecordsNotCounted()
    ensures var config := [Config(7, 1, false)];
      Span(config, 1) == 8 && Start(config, 1) == 24 && Addr(config, 0, 0) == 16
  {
    var config := [Config(7, 1, false)];
    assert Span(config, 0) == 0;
  }

  // ---- Free lists ----

  /** The pointer stored at `a`. */
  function Next(m: seq<byte>, a: nat): nat
    requires a + PTR_SIZE <= |m|
  {
    ReadU32(m[a..a + PTR_SIZE])
  }

  /** From `head` on, memory links the blocks of `list`. */
  ghost predicate Linked(m: seq<byte>, head: nat, list: seq<nat>)
    decreases |list|
  {
    if list == [] then head == 0
    else head == list[0] > 0 && head + PTR_SIZE <= |m| && Linked(m, Next(m, head), list[1..])
  }

  /** Memory with a pointer stored at `a`. */
  function Stored(m: seq<byte>, a: nat, n: nat): (r: seq<byte>)
    requires a + PTR_SIZE <= |m|
    ensures |r| == |m|
  {
    m[..a] + U32(n) + m[a + PTR_SIZE..]
  }

  lemma StoredAt(m: seq<byte>, a: nat, n: nat)
    requires a + PTR_SIZE <= |m|
    ensures Stored(m, a, n)[a..a + PTR_SIZE] == U32(n)
    ensures forall x :: 0 <= x < |m| && !(a <= x < a + PTR_SIZE) ==> Stored(m, a, n)[x] == m[x]
  {
    hide U32;
  }

  lemma StoredApart(m: seq<byte>, a: nat, n: nat, b: nat)
    requires a + PTR_SIZE <= |m| && b + PTR_SIZE <= |m| && (a + PTR_SIZE <= b || b + PTR_SIZE <= a)
    ensures Stored(m, a, n)[b..b + PTR_SIZE] == m[b..b + PTR_SIZE]
  {
    hide Stored, U32;
    StoredAt(m, a, n);
  }

  ghost predicate NoRepeats(list: seq<nat>) {
    forall k, l :: 0 <= k < l < |list| ==> list[k] != list[l]
  }

  /** Memory that is the same at every link links the same blocks. */
  lemma {:induction false} SameLinks(m: seq<byte>, m': seq<byte>, head: nat, list: seq<nat>)
    requires Linked(m, head, list) && |m'| == |m|
    requires forall k :: 0 <= k < |list| && list[k] + PTR_SIZE <= |m| ==>
      m'[list[k]..list[k] + PTR_SIZE] == m[list[k]..list[k] + PTR_SIZE]
    ensures Linked(m', head, list)
    decreases |list|
  {
    if list != [] {
      assert m'[list[0]..list[0] + PTR_SIZE] == m[list[0]..list[0] + PTR_SIZE];
      SameLinks(m, m', Next(m, head), list[1..]);
    }
  }

  /** The first `n` blocks of pool `i`, last first. */
  function BlockList(config: seq<Config>, i: nat, n: nat): (list: seq<nat>)
    requires i < |config|
    ensures |list| == n
  {
    if n == 0 then [] else [Addr(config, i, n - 1)] + BlockList(config, i, n - 1)
  }

  lemma {:induction false} BlockListAt(config: seq<Config>, i: nat, n: nat)
    requires i < |config|
    ensures forall k :: 0 <= k < n ==> BlockList(config, i, n)[k] == Addr(config, i, n - 1 - k)
  {
    if n > 0 {
      BlockListAt(config, i, n - 1);
    }
  }

  /** A pool's list has each of its blocks once. */
  lemma BlockListIs(config: seq<Config>, i: nat)
    requires i < |config|
    ensures var list := BlockList(config, i, config[i].entries);
      && NoRepeats(list) && (forall a :: a in list ==> IsBlock(config, i, a))
      && forall k :: 0 <= k < config[i].entries ==> Addr(config, i, k) in list
  {
    hide BlockSize;
    var n := config[i].entries;
    var list := BlockList(config, i, n);
    BlockListAt(config, i, n);
    forall k, l | 0 <= k < l < n ensures list[k] != list[l] {
      Times(n - 1 - l, n - 1 - k, BlockSize(config[i].size));
    }
    forall k | 0 <= k < n ensures Addr(config, i, k) in list {
      assert list[n - 1 - k] == Addr(config, i, k);
    }
  }
}
