/** The kernel heap as a sequence of blocks: its invariant, and the changes kmalloc and kfree make to it. */
module HeapChain {

  const HEAP_BASE := 0xD000_0000
  const HEADER := 16       // sizeof(kmemptr_t)
  const PAGE := 0x1000

  datatype Kind = Free | Used | Tail

  /** A block is a header at addr and size bytes of payload after it. */
  datatype Block = Block(addr: nat, size: nat, kind: Kind) {
    function Payload(): nat {
      addr + HEADER
    }

    function End(): nat {
      addr + HEADER + size
    }
  }

  type Chain = seq<Block>

  predicate Joined(c: Chain, i: int) {
    0 <= i < |c| - 1 && c[i + 1].addr == c[i].End()
  }

  predicate Apart(c: Chain, i: int) {
    0 <= i < |c| - 1 && !(c[i].kind == Free && c[i + 1].kind == Free)
  }

  /** The blocks tile the heap: each begins where the one before ends, and the tail is the last header. */
  ghost predicate Tiled(c: Chain, total: nat) {
    && |c| >= 2
    && c[0].addr == HEAP_BASE
    && (forall i :: 0 <= i < |c| - 1 ==> Joined(c, i))
    && (forall i :: 0 <= i < |c| ==> c[i].size % 16 == 0)
    && (forall i :: 0 <= i < |c| ==> (c[i].kind == Tail <==> i == |c| - 1))
    && c[|c| - 1].size == 0
    && c[|c| - 1].End() == HEAP_BASE + total
  }

  /** No two adjacent blocks are free, and the block before the tail is free and not empty. */
  ghost predicate Coalesced(c: Chain) {
    && |c| >= 2
    && (forall i :: 0 <= i < |c| - 1 ==> Apart(c, i))
    && c[|c| - 2].kind == Free && c[|c| - 2].size > 0
  }

  ghost predicate Heap(c: Chain, total: nat) {
    Tiled(c, total) && Coalesced(c)
  }

  // ----- Order of the blocks -----

  lemma {:induction false} Ordered(c: Chain, total: nat, i: nat, j: nat)
    requires Tiled(c, total) && i < j < |c|
    ensures c[i].End() <= c[j].addr
    decreases j
  {
    assert Joined(c, j - 1);
    if j > i + 1 {
      Ordered(c, total, i, j - 1);
    }
  }

  lemma AllOrdered(c: Chain, total: nat)
    requires Tiled(c, total)
    ensures forall i, j :: 0 <= i < j < |c| ==> c[i].End() <= c[j].addr
  {
    forall i, j | 0 <= i < j < |c|
      ensures c[i].End() <= c[j].addr
    {
      Ordered(c, total, i, j);
    }
  }

  lemma Inside(c: Chain, total: nat, i: nat)
    requires Tiled(c, total) && i < |c|
    ensures HEAP_BASE <= c[i].addr < c[i].End() <= HEAP_BASE + total
  {
    if i > 0 {
      Ordered(c, total, 0, i);
    }
    if i < |c| - 1 {
      Ordered(c, total, i, |c| - 1);
    }
  }

  lemma {:induction false} Aligned(c: Chain, total: nat, i: nat)
    requires Tiled(c, total) && i < |c|
    ensures c[i].addr % 16 == 0
  {
    if i > 0 {
      Aligned(c, total, i - 1);
      assert Joined(c, i - 1);
    }
  }

  /** Payloads of different blocks do not meet, and no payload meets a header. */
  lemma PayloadsApart(c: Chain, total: nat, i: nat, j: nat)
    requires Tiled(c, total) && i < |c| && j < |c|
    ensures c[i].Payload() % 16 == 0 && HEAP_BASE + HEADER <= c[i].Payload() && c[i].End() <= HEAP_BASE + total
    ensures i != j ==> c[i].End() <= c[j].addr || c[j].End() <= c[i].addr
    ensures c[i].End() <= c[j].addr || c[j].Payload() <= c[i].Payload()
  {
    Aligned(c, total, i);
    Inside(c, total, i);
    if i < j {
      Ordered(c, total, i, j);
    } else if j < i {
      Ordered(c, total, j, i);
    }
  }

  // ----- Changes to the chain -----

  /** One free block and the tail. */
  function Fresh(total: nat): Chain
    requires total >= 2 * HEADER
  {
    [Block(HEAP_BASE, total - 2 * HEADER, Free), Block(HEAP_BASE + total - HEADER, 0, Tail)]
  }

  lemma FreshHeap(total: nat)
    requires total > 2 * HEADER && total % 16 == 0
    ensures Heap(Fresh(total), total)
  {
    assert Joined(Fresh(total), 0) && Apart(Fresh(total), 0);
  }

  /** Block k is cut after n bytes of payload; its front part becomes used, the rest stays free. */
  function Split(c: Chain, k: nat, n: nat): Chain
    requires k < |c| && n + HEADER <= c[k].size
  {
    var b := c[k];
    c[..k] + [Block(b.addr, n, Used), Block(b.addr + HEADER + n, b.size - n - HEADER, Free)] + c[k + 1..]
  }

  /** Block k swallows the block after it. */
  function Merge(c: Chain, k: nat): Chain
    requires k + 1 < |c|
  {
    c[..k] + [c[k].(size := c[k].size + HEADER + c[k + 1].size)] + c[k + 2..]
  }

  function SetKind(c: Chain, k: nat, kind: Kind): Chain
    requires k < |c|
  {
    c[k := c[k].(kind := kind)]
  }

  /** The block before the tail grows by n bytes. */
  function Grow(c: Chain, n: nat): Chain
    requires |c| >= 2
  {
    var t := |c| - 1;
    c[t - 1 := c[t - 1].(size := c[t - 1].size + n)][t := c[t].(addr := c[t].addr + n)]
  }

  /** The first and the last-but-one bound of the blocks that become one when block k is freed. */
  function Low(c: Chain, k: nat): nat
    requires k < |c|
  {
    if k > 0 && c[k - 1].kind == Free then k - 1 else k
  }

  function High(c: Chain, k: nat): nat
    requires k + 1 < |c|
  {
    if c[k + 1].kind == Free then k + 2 else k + 1
  }

  /** The next block, if free, is swallowed, and block k is then free. */
  function WithNext(c: Chain, k: nat): Chain
    requires k + 1 < |c|
  {
    if c[k + 1].kind == Free then SetKind(Merge(c, k), k, Free) else c
  }

  /** Block k is swallowed by the block before it, if there is one and it is free. */
  function WithPrevious(c: Chain, k: nat): Chain
    requires k < |c|
  {
    if k > 0 && c[k - 1].kind == Free then Merge(c, k - 1) else c
  }

  /** Freeing block k: it and its free neighbours become one free block over the same addresses. */
  function Release(c: Chain, total: nat, k: nat): Chain
    requires Tiled(c, total) && k + 2 < |c|
  {
    var lo, hi := Low(c, k), High(c, k);
    Ordered(c, total, lo, hi);
    c[..lo] + [Block(c[lo].addr, c[hi].addr - c[lo].addr - HEADER, Free)] + c[hi..]
  }

  /** Split leaves the blocks before and after block k as they are. */
  lemma SplitParts(c: Chain, k: nat, n: nat)
    requires k < |c| && n + HEADER <= c[k].size
    ensures var d := Split(c, k, n);
            && |d| == |c| + 1 && d[..k] == c[..k] && d[k + 2..] == c[k + 1..]
            && d[k] == Block(c[k].addr, n, Used)
            && d[k + 1] == Block(c[k].addr + HEADER + n, c[k].size - n - HEADER, Free)
  {
  }

  lemma SplitTiled(c: Chain, total: nat, k: nat, n: nat)
    requires Tiled(c, total) && k < |c| && c[k].kind == Free && n % 16 == 0 && n + HEADER < c[k].size
    ensures Tiled(Split(c, k, n), total)
  {
    var d := Split(c, k, n);
    assert |d| == |c| + 1;
    forall i | 0 <= i < |d|
      ensures i < k ==> d[i] == c[i]
      ensures i > k + 1 ==> d[i] == c[i - 1]
    {
    }
    forall i | 0 <= i < |d| - 1
      ensures Joined(d, i)
    {
      if i < k {
        assert Joined(c, i);
      } else if i > k {
        assert Joined(c, i - 1);
      }
    }
  }

  lemma SplitHeap(c: Chain, total: nat, k: nat, n: nat)
    requires Heap(c, total) && k < |c| && c[k].kind == Free && n % 16 == 0 && n + HEADER < c[k].size
    ensures Heap(Split(c, k, n), total)
    ensures k + 1 < |c| && Split(c, k, n)[|c|] == c[|c| - 1] && |Split(c, k, n)| == |c| + 1
  {
    SplitTiled(c, total, k, n);
    var d := Split(c, k, n);
    forall i | 0 <= i < |d| - 1
      ensures Apart(d, i)
    {
      if i < k {
        assert Apart(c, i);
      } else if i > k {
        assert Apart(c, i - 1);
      }
    }
  }

  lemma MergeTiled(c: Chain, total: nat, k: nat)
    requires Tiled(c, total) && k + 2 < |c|
    ensures Tiled(Merge(c, k), total)
    ensures |Merge(c, k)| == |c| - 1 && Merge(c, k)[|c| - 2] == c[|c| - 1]
  {
    var d := Merge(c, k);
    assert |d| == |c| - 1;
    forall i | 0 <= i < |d|
      ensures i < k ==> d[i] == c[i]
      ensures i > k ==> d[i] == c[i + 1]
    {
    }
    assert Joined(c, k);
    forall i | 0 <= i < |d| - 1
      ensures Joined(d, i)
    {
      if i < k {
        assert Joined(c, i);
      } else {
        assert Joined(c, i + 1);
      }
    }
  }

  lemma SetKindTiled(c: Chain, total: nat, k: nat, kind: Kind)
    requires Tiled(c, total) && k + 1 < |c| && kind != Tail
    ensures Tiled(SetKind(c, k, kind), total)
  {
    var d := SetKind(c, k, kind);
    forall i | 0 <= i < |d| - 1
      ensures Joined(d, i)
    {
      assert Joined(c, i);
    }
  }

  lemma GrowTwice(c: Chain, n: nat, k: nat)
    requires |c| >= 2
    ensures Grow(Grow(c, n), k) == Grow(c, n + k) && Grow(c, 0) == c
  {
  }

  lemma GrowHeap(c: Chain, total: nat, n: nat)
    requires Heap(c, total) && n % 16 == 0
    ensures Heap(Grow(c, n), total + n)
  {
    var d := Grow(c, n);
    forall i | 0 <= i < |d| - 1
      ensures Joined(d, i) && Apart(d, i)
    {
      assert Joined(c, i) && Apart(c, i);
    }
  }

  /** The freed block between its neighbours. */
  lemma ReleaseParts(c: Chain, total: nat, k: nat)
    requires Tiled(c, total) && k + 2 < |c| && c[k].kind == Used
    ensures var d, lo, hi := Release(c, total, k), Low(c, k), High(c, k);
            && hi < |c| && |d| == lo + 1 + |c| - hi
            && (forall i :: 0 <= i < lo ==> d[i] == c[i])
            && d[lo].addr == c[lo].addr && d[lo].kind == Free && d[lo].End() == c[hi].addr
            && (forall i :: lo < i < |d| ==> d[i] == c[i - lo - 1 + hi])
  {
    Ordered(c, total, Low(c, k), High(c, k));
  }

  lemma SpanAligned(c: Chain, total: nat, i: nat, j: nat)
    requires Tiled(c, total) && i < j < |c|
    ensures c[j].addr >= c[i].addr + HEADER && (c[j].addr - c[i].addr - HEADER) % 16 == 0
  {
    Aligned(c, total, i);
    Aligned(c, total, j);
    Ordered(c, total, i, j);
  }

  lemma ReleaseHeap(c: Chain, total: nat, k: nat)
    requires Heap(c, total) && k < |c| && c[k].kind == Used
    ensures k + 2 < |c| && Heap(Release(c, total, k), total)
  {
    var d, lo, hi := Release(c, total, k), Low(c, k), High(c, k);
    ReleaseParts(c, total, k);
    SpanAligned(c, total, lo, hi);
    Ordered(c, total, lo, |c| - 2);
    assert Joined(c, |c| - 2);
    forall i | 0 <= i < |d| - 1
      ensures Joined(d, i) && Apart(d, i)
    {
      if i < lo {
        assert Joined(c, i) && Apart(c, i);
      } else if i > lo {
        assert Joined(c, i - lo - 1 + hi) && Apart(c, i - lo - 1 + hi);
      } else {
        assert Apart(c, hi - 1);
      }
    }
  }

  // Release through the steps of kfree: swallow the next block, be swallowed by the previous one.

  lemma ReleaseAlone(c: Chain, total: nat, k: nat)
    requires Tiled(c, total) && k + 2 < |c| && c[k].kind == Used
    requires Low(c, k) == k && High(c, k) == k + 1
    ensures Release(c, total, k) == SetKind(c, k, Free)
  {
    assert Joined(c, k);
  }

  lemma ReleaseWithNext(c: Chain, total: nat, k: nat)
    requires Tiled(c, total) && k + 2 < |c| && c[k].kind == Used
    requires Low(c, k) == k && High(c, k) == k + 2
    ensures Release(c, total, k) == SetKind(Merge(c, k), k, Free)
  {
    assert Joined(c, k) && Joined(c, k + 1);
  }

  lemma ReleaseWithPrevious(c: Chain, total: nat, k: nat)
    requires Tiled(c, total) && k + 2 < |c| && c[k].kind == Used
    requires Low(c, k) == k - 1 && High(c, k) == k + 1
    ensures Release(c, total, k) == Merge(c, k - 1)
  {
    assert Joined(c, k - 1) && Joined(c, k);
  }

  lemma ReleaseWithBoth(c: Chain, total: nat, k: nat)
    requires Tiled(c, total) && k + 2 < |c| && c[k].kind == Used
    requires Low(c, k) == k - 1 && High(c, k) == k + 2
    ensures Release(c, total, k) == Merge(SetKind(Merge(c, k), k, Free), k - 1)
  {
    assert Joined(c, k - 1) && Joined(c, k) && Joined(c, k + 1);
    var e := SetKind(Merge(c, k), k, Free);
    assert e[..k - 1] == c[..k - 1] && e[k - 1] == c[k - 1] && e[k + 1..] == c[k + 2..];
    assert e[k].size == c[k].size + HEADER + c[k + 1].size;
  }

  /** The next block's part leaves the blocks before block k, and block k where it is. */
  lemma NextJoined(c: Chain, total: nat, k: nat)
    requires Tiled(c, total) && k + 2 < |c| && c[k].kind == Used
    ensures var d := WithNext(c, k);
            && k + 1 < |d| && d[k].addr == c[k].addr && (k > 0 ==> d[k - 1] == c[k - 1] && c[k].addr == c[k - 1].End())
            && d[k + 1] == (if c[k + 1].kind == Free then c[k + 2] else c[k + 1])
            && c[k].addr + HEADER <= d[k].End() && c[k].addr + HEADER <= d[k + 1].addr
  {
    assert k > 0 ==> Joined(c, k - 1);
    assert Joined(c, k) && Joined(c, k + 1);
    Ordered(c, total, k, k + 1);
  }

  /** Where block k is found once it has been merged with its free neighbours: inside the payload of the
      previous block, or at the same index. */
  lemma Whereabouts(c: Chain, total: nat, k: nat)
    requires Tiled(c, total) && k + 2 < |c| && c[k].kind == Used
    ensures k < |WithNext(c, k)|
    ensures var e := WithPrevious(WithNext(c, k), k);
            if k > 0 && c[k - 1].kind == Free then
              k < |e| && e[k - 1].Payload() <= c[k].addr && c[k].addr + HEADER <= e[k - 1].End()
            else k + 1 < |e| && e[k].addr == c[k].addr
  {
    NextJoined(c, total, k);
  }

  /** The three ifs of kfree in order: the next block, the previous block, and block k itself when it has
      been merged with neither. */
  lemma ReleaseInSteps(c: Chain, total: nat, k: nat)
    requires Tiled(c, total) && k + 2 < |c| && c[k].kind == Used
    ensures k < |WithNext(c, k)|
    ensures var next, previous := c[k + 1].kind == Free, k > 0 && c[k - 1].kind == Free;
            var e := WithPrevious(WithNext(c, k), k);
            Release(c, total, k) == if next || previous then e else SetKind(e, k, Free)
  {
    if c[k + 1].kind == Free {
      if k > 0 && c[k - 1].kind == Free {
        ReleaseWithBoth(c, total, k);
      } else {
        ReleaseWithNext(c, total, k);
      }
    } else if k > 0 && c[k - 1].kind == Free {
      ReleaseWithPrevious(c, total, k);
    } else {
      ReleaseAlone(c, total, k);
    }
  }
}
