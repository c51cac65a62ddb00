/** What holds of the heap over whole runs: the chain is a function of the live blocks and the length. */
module HeapRuns {
  import opened HeapChain
  import opened HeapScan
  import opened HeapStore

  // ----- The chain is determined by the live blocks and the length -----

  lemma SameAddressSameBlock(c: Chain, total: nat, i: nat, j: nat)
    requires Tiled(c, total) && i < |c| && j < |c| && c[i].addr == c[j].addr
    ensures i == j
  {
    AllOrdered(c, total);
  }

  lemma FreeNotShorter(c: Chain, d: Chain, total: nat, i: nat)
    requires Heap(c, total) && Heap(d, total) && Live(c) == Live(d)
    requires i < |c| && i < |d| && c[i].addr == d[i].addr && c[i].kind == Free && d[i].kind == Free
    ensures d[i].size <= c[i].size
  {
    AllOrdered(d, total);
    var next := c[i + 1];
    assert Joined(c, i) && Apart(c, i);
    if next.kind == Used {
      assert next in Live(d);
    } else {
      assert d[|d| - 1].addr == next.addr;
    }
  }

  lemma SameBlockAt(c: Chain, d: Chain, total: nat, i: nat)
    requires Heap(c, total) && Heap(d, total) && Live(c) == Live(d)
    requires i < |c| && i < |d| && c[i].addr == d[i].addr
    ensures c[i] == d[i]
  {
    AllOrdered(c, total);
    AllOrdered(d, total);
    if c[i].kind == Used {
      assert c[i] in Live(d);
    } else if d[i].kind == Used {
      assert d[i] in Live(c);
    } else if c[i].kind == Free && d[i].kind == Free {
      FreeNotShorter(c, d, total, i);
      FreeNotShorter(d, c, total, i);
    } else {
      assert d[|d| - 1].addr == c[|c| - 1].addr;
    }
  }

  lemma {:induction false} SameFrom(c: Chain, d: Chain, total: nat, i: nat)
    requires Heap(c, total) && Heap(d, total) && Live(c) == Live(d)
    requires i < |c| && i < |d| && c[i].addr == d[i].addr
    ensures c[i..] == d[i..]
    decreases |c| - i
  {
    SameBlockAt(c, d, total, i);
    if c[i].kind != Tail {
      assert Joined(c, i) && Joined(d, i);
      SameFrom(c, d, total, i + 1);
      assert c[i..] == [c[i]] + c[i + 1..] && d[i..] == [d[i]] + d[i + 1..];
    }
  }

  /** Two heaps of the same length with the same live blocks are the same chain. */
  lemma LiveBlocksDetermineChain(c: Chain, d: Chain, total: nat)
    requires Heap(c, total) && Heap(d, total) && Live(c) == Live(d)
    ensures c == d
  {
    SameFrom(c, d, total, 0);
    assert c[0..] == c && d[0..] == d;
  }

  /** Once everything is freed the heap is a single free block. */
  lemma AllFreedIsOneBlock(c: Chain, total: nat)
    requires Heap(c, total) && Live(c) == {}
    ensures total >= 2 * HEADER && c == Fresh(total)
  {
    AllOrdered(c, total);
    Aligned(c, total, |c| - 1);
    assert c[0].End() <= c[|c| - 1].addr;
    LiveBlocksDetermineChain(c, Fresh(total), total);
  }

  // ----- What each operation does to the live blocks -----

  lemma LiveAfterSplit(c: Chain, total: nat, k: nat, n: nat)
    requires Tiled(c, total) && k < |c| && c[k].kind == Free && n + HEADER <= c[k].size
    ensures Live(Split(c, k, n)) == Live(c) + {Block(c[k].addr, n, Used)}
    ensures Block(c[k].addr, n, Used) !in Live(c)
  {
    var d, u := Split(c, k, n), Block(c[k].addr, n, Used);
    forall b: Block | b.kind == Used
      ensures b in d <==> b in c || b == u
    {
      assert c == c[..k] + [c[k]] + c[k + 1..];
    }
    if u in c {
      var j :| 0 <= j < |c| && c[j] == u;
      SameAddressSameBlock(c, total, j, k);
    }
  }

  lemma LiveAfterRelease(c: Chain, total: nat, k: nat)
    requires Heap(c, total) && k < |c| && c[k].kind == Used
    ensures k + 2 < |c| && Live(Release(c, total, k)) == Live(c) - {c[k]}
  {
    var d, lo, hi := Release(c, total, k), Low(c, k), High(c, k);
    ReleaseParts(c, total, k);
    forall b: Block | b.kind == Used
      ensures b in d <==> b in c && b != c[k]
    {
      if b in d {
        var i :| 0 <= i < |d| && d[i] == b;
        var j := if i < lo then i else i - lo - 1 + hi;
        assert c[j] == b && j != k;
        if b == c[k] {
          SameAddressSameBlock(c, total, j, k);
        }
      }
      if b in c && b != c[k] {
        var j :| 0 <= j < |c| && c[j] == b;
        assert d[if j < lo then j else j + lo + 1 - hi] == b;
      }
    }
  }

  lemma LiveAfterGrow(c: Chain, total: nat, n: nat)
    requires Heap(c, total)
    ensures Live(Grow(c, n)) == Live(c)
  {
    var d := Grow(c, n);
    forall b: Block | b.kind == Used
      ensures b in d <==> b in c
    {
      if b in d {
        var i :| 0 <= i < |d| && d[i] == b;
        assert c[i] == b;
      }
      if b in c {
        var i :| 0 <= i < |c| && c[i] == b;
        assert d[i] == b;
      }
    }
  }

  // ----- Freeing by address -----

  ghost predicate Without(c: Chain, total: nat, a: nat, d: Chain) {
    Heap(d, total) && Live(d) == set b | b in Live(c) && b.addr != a
  }

  /** The heap in which the block whose header is at address a is not live, and the others are. */
  ghost function FreeAt(c: Chain, total: nat, a: nat): (d: Chain)
    requires Heap(c, total)
    ensures Without(c, total, a, d)
  {
    WithoutExists(c, total, a);
    var d :| Without(c, total, a, d);
    d
  }

  lemma OnlyBlockAt(c: Chain, total: nat, k: nat)
    requires Tiled(c, total) && k < |c|
    ensures forall b :: b in Live(c) && b.addr == c[k].addr ==> b == c[k]
  {
    AllOrdered(c, total);
    forall b | b in Live(c) && b.addr == c[k].addr
      ensures b == c[k]
    {
      var j :| 0 <= j < |c| && c[j] == b;
    }
  }

  lemma ReleaseIsWithout(c: Chain, total: nat, k: nat)
    requires Heap(c, total) && k < |c| && c[k].kind == Used
    ensures k + 2 < |c| && Without(c, total, c[k].addr, Release(c, total, k))
  {
    ReleaseHeap(c, total, k);
    LiveAfterRelease(c, total, k);
    OnlyBlockAt(c, total, k);
  }

  lemma WithoutExists(c: Chain, total: nat, a: nat)
    requires Heap(c, total)
    ensures exists d :: Without(c, total, a, d)
  {
    if exists k :: 0 <= k < |c| && c[k].kind == Used && c[k].addr == a {
      var k :| 0 <= k < |c| && c[k].kind == Used && c[k].addr == a;
      ReleaseIsWithout(c, total, k);
    } else {
      assert Live(c) == set b | b in Live(c) && b.addr != a;
      assert Without(c, total, a, c);
    }
  }

  /** What is left after freeing a live block is the chain with that block and its free neighbours made
      one; where no block is live, freeing changes nothing. */
  lemma FreeAtIsRelease(c: Chain, total: nat, k: nat)
    requires Heap(c, total) && k < |c| && c[k].kind == Used
    ensures k + 2 < |c| && FreeAt(c, total, c[k].addr) == Release(c, total, k)
  {
    ReleaseIsWithout(c, total, k);
    LiveBlocksDetermineChain(FreeAt(c, total, c[k].addr), Release(c, total, k), total);
  }

  lemma FreeAtNothing(c: Chain, total: nat, a: nat)
    requires Heap(c, total) && forall b :: b in Live(c) ==> b.addr != a
    ensures FreeAt(c, total, a) == c
  {
    assert Live(c) == set b | b in Live(c) && b.addr != a;
    LiveBlocksDetermineChain(FreeAt(c, total, a), c, total);
  }

  /** Freeing two blocks in either order gives the same chain. */
  lemma FreeOrderIrrelevant(c: Chain, total: nat, a: nat, b: nat)
    requires Heap(c, total)
    ensures FreeAt(FreeAt(c, total, a), total, b) == FreeAt(FreeAt(c, total, b), total, a)
  {
    var d, e := FreeAt(FreeAt(c, total, a), total, b), FreeAt(FreeAt(c, total, b), total, a);
    assert Live(d) == set x | x in Live(c) && x.addr != a && x.addr != b;
    assert Live(e) == set x | x in Live(c) && x.addr != a && x.addr != b;
    LiveBlocksDetermineChain(d, e, total);
  }

  /** Cutting a block makes its front part live. */
  lemma CutLive(c: Chain, total: nat, k: nat, n: nat)
    requires Heap(c, total) && k < |c| && Fits(c[k], n) && n % 16 == 0
    ensures var d, u := Split(c, k, n), Block(c[k].addr, n, Used);
            Heap(d, total) && Live(d) == Live(c) + {u} && u !in Live(c)
  {
    SplitHeap(c, total, k, n);
    LiveAfterSplit(c, total, k, n);
  }

  /** Freeing the part that was cut gives back the chain. */
  lemma CutThenFree(c: Chain, total: nat, k: nat, n: nat)
    requires Heap(c, total) && k < |c| && Fits(c[k], n) && n % 16 == 0
    ensures Heap(Split(c, k, n), total) && FreeAt(Split(c, k, n), total, c[k].addr) == c
  {
    var d := Split(c, k, n);
    CutLive(c, total, k, n);
    OnlyBlockAt(c, total, k);
    assert Live(FreeAt(d, total, c[k].addr)) == Live(c);
    LiveBlocksDetermineChain(FreeAt(d, total, c[k].addr), c, total);
  }

  // ----- Requests -----

  /** The heap as it was, with the growth that the request made. */
  ghost function GrownFor(c: Chain, total: nat, n: nat): Chain
    requires Heap(c, total)
  {
    if total < SCAN_LIMIT && NoneFits(c, n) then Grow(c, Growth(c, n)) else c
  }

  lemma OutcomeTotal(c: Chain, total: nat, n: nat)
    requires Heap(c, total)
    ensures Outcome(c, total, n).total == if total < SCAN_LIMIT && NoneFits(c, n) then total + Growth(c, n) else total
  {
    var k := FirstFit(c, n, 0);
    assert k < |c| ==> Fits(c[k], n);
  }

  /** Growth aside, a request leaves the invariant and the live blocks as they are. */
  lemma GrownHeap(c: Chain, total: nat, n: nat)
    requires Requestable(c, total, n)
    ensures var g := Outcome(c, total, n).total - total;
            && 0 <= g <= HEAP_LIMIT - total && g % PAGE == 0
            && Heap(GrownFor(c, total, n), total + g) && Live(GrownFor(c, total, n)) == Live(c)
  {
    var g := Growth(c, n);
    OutcomeTotal(c, total, n);
    if total < SCAN_LIMIT && NoneFits(c, n) {
      GrowthKeepsHeap(c, total, n);
      LiveAfterGrow(c, total, g);
    }
  }

  /** A request that returns has grown the heap, or not, and then cut one block of it, or none. */
  lemma OutcomeCuts(c: Chain, total: nat, n: nat) returns (k: nat)
    requires Requestable(c, total, n)
    ensures var r, e := Outcome(c, total, n), GrownFor(c, total, n);
            && Heap(e, r.total) && Live(e) == Live(c)
            && total <= r.total <= HEAP_LIMIT && (r.total - total) % PAGE == 0
            && k < |e|
            && if r.p == 0 then r.c == e else Fits(e[k], n) && r.c == Split(e, k, n) && r.p == e[k].Payload()
  {
    GrownHeap(c, total, n);
    k := FirstFit(c, n, 0);
    if k == |c| {
      k := |c| - 2;
    }
  }

  /** d has the live blocks of c, and with a pointer one more: new, aligned and of the size asked for. */
  ghost predicate Adds(c: Chain, d: Chain, p: nat, n: nat) {
    if p == 0 then Live(d) == Live(c)
    else
      && p >= HEADER && p % 16 == 0
      && Block(p - HEADER, n, Used) !in Live(c)
      && Live(d) == Live(c) + {Block(p - HEADER, n, Used)}
  }

  lemma AddsOne(c: Chain, d: Chain, p: nat, n: nat)
    requires Adds(c, d, p, n)
    ensures Live(d) == if p < HEADER then Live(c) else Live(c) + {Block(p - HEADER, n, Used)}
    ensures p != 0 ==> p >= HEADER && p % 16 == 0 && Block(p - HEADER, n, Used) in d && Block(p - HEADER, n, Used) !in Live(c)
  {
    assert p != 0 ==> Block(p - HEADER, n, Used) in Live(d);
  }

  lemma CutAdds(c: Chain, total: nat, k: nat, n: nat)
    requires Heap(c, total) && k < |c| && Fits(c[k], n) && n % 16 == 0
    ensures Heap(Split(c, k, n), total) && Adds(c, Split(c, k, n), c[k].Payload(), n)
  {
    CutLive(c, total, k, n);
    Aligned(c, total, k);
  }

  /** Every request that returns keeps the invariant and adds what it returns to the live blocks. */
  lemma OutcomeHeap(c: Chain, total: nat, n: nat)
    requires Requestable(c, total, n)
    ensures var r := Outcome(c, total, n);
            && Heap(r.c, r.total) && Adds(c, r.c, r.p, n)
            && total <= r.total <= HEAP_LIMIT && (r.total - total) % PAGE == 0
  {
    var r, e := Outcome(c, total, n), GrownFor(c, total, n);
    var k := OutcomeCuts(c, total, n);
    if r.p != 0 {
      CutAdds(e, r.total, k, n);
      assert Adds(e, r.c, r.p, n);
    }
  }

  /** Freeing what a request returned restores the chain, apart from the growth it made. */
  lemma RequestThenFree(c: Chain, total: nat, n: nat)
    requires Requestable(c, total, n) && Outcome(c, total, n).p != 0
    ensures var r := Outcome(c, total, n);
            Heap(r.c, r.total) && r.p >= HEADER && FreeAt(r.c, r.total, r.p - HEADER) == GrownFor(c, total, n)
  {
    var k := OutcomeCuts(c, total, n);
    CutThenFree(GrownFor(c, total, n), Outcome(c, total, n).total, k, n);
  }

  lemma CutReturned(e: Chain, total: nat, k: nat, n: nat, p: nat, d: Chain)
    requires Heap(e, total) && k < |e| && Fits(e[k], n) && n % 16 == 0 && d == Split(e, k, n) && p == e[k].Payload()
    ensures p >= HEADER && Block(p - HEADER, n, Used) in Live(d) && Heap(d, total) && FreeAt(d, total, p - HEADER) == e
  {
    CutLive(e, total, k, n);
    CutThenFree(e, total, k, n);
  }

  /** What a request returned may be given back, and the chain is then as before, apart from the growth. */
  lemma RequestAndFree(c: Chain, total: nat, n: nat, p: nat, d: Chain, after: nat)
    requires Requestable(c, total, n) && Returned(p, d, after) == Outcome(c, total, n)
    ensures if p == 0 then d == GrownFor(c, total, n)
            else && p >= HEADER && Block(p - HEADER, n, Used) in Live(d)
                 && Heap(d, after) && FreeAt(d, after, p - HEADER) == GrownFor(c, total, n)
  {
    var k := OutcomeCuts(c, total, n);
    if p != 0 {
      CutReturned(GrownFor(c, total, n), after, k, n, p, d);
    }
  }

  // ----- The promise to the caller -----

  /** The block returned for b bytes: aligned, new, long enough exactly for b up to 2^32 - 32, and apart from
      every other block with its header. */
  ghost predicate Granted(p: nat, b: nat, c: Chain, d: Chain) {
    && p >= HEADER && p % 16 == 0
    && var u := Block(p - HEADER, AlignBlock(b), Used);
    && u in d && u !in Live(c)
    && (b <= u.size <==> b <= WRAP - 32)
    && forall x :: x in d && x != u ==> x.End() <= u.addr || u.End() <= x.addr
  }

  lemma RequestGranted(c: Chain, total: nat, b: nat)
    requires b < WRAP && Requestable(c, total, AlignBlock(b)) && Outcome(c, total, AlignBlock(b)).p != 0
    ensures Granted(Outcome(c, total, AlignBlock(b)).p, b, c, Outcome(c, total, AlignBlock(b)).c)
  {
    OutcomeHeap(c, total, AlignBlock(b));
    var r := Outcome(c, total, AlignBlock(b));
    AddedIsGranted(c, r.c, r.total, r.p, b);
  }

  lemma AddedIsGranted(c: Chain, d: Chain, total: nat, p: nat, b: nat)
    requires Heap(d, total) && p != 0 && Adds(c, d, p, AlignBlock(b)) && b < WRAP && AlignBlock(b) + HEADER < WRAP
    ensures Granted(p, b, c, d)
  {
    AddsOne(c, d, p, AlignBlock(b));
    LongEnough(b);
    ApartFromOthers(d, total, Block(p - HEADER, AlignBlock(b), Used));
  }

  lemma LongEnough(b: nat)
    requires b < WRAP && AlignBlock(b) + HEADER < WRAP
    ensures b <= AlignBlock(b) <==> b <= WRAP - 32
  {
    AlignBlockIsLeast(b);
  }

  lemma ApartFromOthers(c: Chain, total: nat, u: Block)
    requires Tiled(c, total) && u in c
    ensures forall x :: x in c && x != u ==> x.End() <= u.addr || u.End() <= x.addr
  {
    var i: nat :| i < |c| && c[i] == u;
    forall x | x in c && x != u
      ensures x.End() <= u.addr || u.End() <= x.addr
    {
      var j: nat :| j < |c| && c[j] == x;
      PayloadsApart(c, total, i, j);
    }
  }
}
