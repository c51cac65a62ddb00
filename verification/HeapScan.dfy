/** The search loop of kmalloc as a transition system: when it stops, with what, and when it never does. */
module HeapScan {
  import opened Arithmetic
  import opened HeapChain

  const WRAP := 0x1_0000_0000
  const SCAN_LIMIT := 0x300_0000     // 48 MiB: from here on the scaled end of the heap wraps around
  const HEAP_LIMIT := 0x1000_0000    // KERNEL_HEAP_END - KERNEL_HEAP_START

  /** align_block, in 32 bits. */
  function AlignBlock(b: nat): nat {
    if b % 16 != 0 then (b + (16 - b % 16)) % WRAP else b
  }

  /** Rounding up gives the least multiple of 16 that is enough, unless it wraps around. */
  lemma AlignBlockIsLeast(b: nat)
    requires b < WRAP
    ensures AlignBlock(b) % 16 == 0
    ensures b <= AlignBlock(b) <==> b <= WRAP - 16
    ensures b <= WRAP - 16 ==> AlignBlock(b) < b + 16
  {
  }

  /** head + total_length, which C scales by sizeof(kmemptr_t), in 32 bits. */
  function ScanEnd(total: nat): nat {
    (HEAP_BASE + HEADER * total) % WRAP
  }

  lemma ScanEndWraps(total: nat, a: nat)
    requires 0 < total <= HEAP_LIMIT && HEAP_BASE <= a < HEAP_BASE + total
    ensures a < ScanEnd(total) <==> total < SCAN_LIMIT
  {
    if total < SCAN_LIMIT {
      assert HEAP_BASE + HEADER * total < WRAP;
    } else {
      assert WRAP <= HEAP_BASE + HEADER * total < 2 * WRAP;
    }
  }

  predicate Fits(b: Block, n: nat) {
    b.kind == Free && b.size > n + HEADER
  }

  /** The first block from i on that fits, or |c|. */
  function FirstFit(c: Chain, n: nat, i: nat): (k: nat)
    requires i <= |c|
    ensures i <= k <= |c|
    ensures k < |c| ==> Fits(c[k], n)
    ensures forall j :: i <= j < k ==> !Fits(c[j], n)
    decreases |c| - i
  {
    if i == |c| || Fits(c[i], n) then i else FirstFit(c, n, i + 1)
  }

  ghost predicate NoneFits(c: Chain, n: nat) {
    forall i :: 0 <= i < |c| ==> !Fits(c[i], n)
  }

  /** The bytes asked of kmem_morecore, in 32 bits, and the pages that makes. */
  function SizeRequired(c: Chain, n: nat): nat
    requires |c| >= 2
  {
    (n + HEADER - c[|c| - 2].size) % WRAP
  }

  function PagesRequired(c: Chain, n: nat): nat
    requires |c| >= 2
  {
    SizeRequired(c, n) / PAGE + if SizeRequired(c, n) % PAGE != 0 then 1 else 0
  }

  function Growth(c: Chain, n: nat): nat
    requires |c| >= 2
  {
    PagesRequired(c, n) * PAGE
  }

  lemma GrowthKeepsHeap(c: Chain, total: nat, n: nat)
    requires Heap(c, total)
    ensures Growth(c, n) % PAGE == 0 && Heap(Grow(c, Growth(c, n)), total + Growth(c, n))
  {
    WholePages(PagesRequired(c, n), Growth(c, n));
    GrowHeap(c, total, Growth(c, n));
  }

  lemma WholePages(p: nat, g: nat)
    requires g == p * PAGE
    ensures g % PAGE == 0
  {
    Euclid(g, p, 0, PAGE);
  }

  // ----- The loop -----

  /** Looking at block i, or returned with pointer p. */
  datatype Scan = Looking(i: nat, c: Chain, total: nat) | Returned(p: nat, c: Chain, total: nat)

  ghost predicate ScanState(s: Scan) {
    Heap(s.c, s.total) && (s.Looking? ==> s.i < |s.c|)
  }

  /** The end of a turn: either the block is cut or the next one is looked at. */
  function CutOrNext(c: Chain, total: nat, i: nat, n: nat): Scan
    requires i < |c|
  {
    if Fits(c[i], n) then Returned(c[i].Payload(), Split(c, i, n), total) else Looking(i + 1, c, total)
  }

  lemma CutOrNextKeepsState(c: Chain, total: nat, i: nat, n: nat)
    requires Heap(c, total) && i + 1 < |c| && n % 16 == 0
    ensures ScanState(CutOrNext(c, total, i, n))
  {
    if Fits(c[i], n) {
      SplitHeap(c, total, i, n);
    }
  }

  /** One turn of the loop: its test, growth at the tail, and what becomes of the block. */
  function Turn(s: Scan, n: nat): (t: Scan)
    requires s.Looking? && ScanState(s)
  {
    if !(s.c[s.i].addr < ScanEnd(s.total)) then Returned(0, s.c, s.total)
    else if s.c[s.i].kind == Tail then CutOrNext(Grow(s.c, Growth(s.c, n)), s.total + Growth(s.c, n), 0, n)
    else CutOrNext(s.c, s.total, s.i, n)
  }

  function Turns(s: Scan, n: nat, count: nat): Scan
    requires ScanState(s) && n % 16 == 0
    decreases count
  {
    if count == 0 || s.Returned? then s
    else
      TurnKeepsState(s, n);
      Turns(Turn(s, n), n, count - 1)
  }

  lemma TurnKeepsState(s: Scan, n: nat)
    requires s.Looking? && ScanState(s) && n % 16 == 0
    ensures ScanState(Turn(s, n))
  {
    if s.c[s.i].kind == Tail {
      var g := Growth(s.c, n);
      GrowthKeepsHeap(s.c, s.total, n);
      CutOrNextKeepsState(Grow(s.c, g), s.total + g, 0, n);
    } else {
      CutOrNextKeepsState(s.c, s.total, s.i, n);
    }
  }

  // ----- What the loop comes to -----

  /** The last block falls short of the need by whole pages: growing makes it equal, never greater. */
  ghost predicate FallsShortByPages(c: Chain, n: nat)
    requires |c| >= 2
  {
    (n + HEADER - c[|c| - 2].size) % PAGE == 0
  }

  /** The exact condition under which the loop never ends. */
  ghost predicate Diverges(c: Chain, total: nat, n: nat)
    requires |c| >= 2
  {
    NoneFits(c, n) && FallsShortByPages(c, n) && total + Growth(c, n) < SCAN_LIMIT
  }

  /** What kmalloc returns and leaves behind whenever it returns. */
  ghost function Outcome(c: Chain, total: nat, n: nat): Scan
    requires Heap(c, total)
  {
    var k := FirstFit(c, n, 0);
    var g, d, last := Growth(c, n), Grow(c, Growth(c, n)), |c| - 2;
    if total >= SCAN_LIMIT then Returned(0, c, total)
    else if k < |c| then Returned(c[k].Payload(), Split(c, k, n), total)
    else if Fits(d[last], n) && (total + g < SCAN_LIMIT || last == 0) then
      Returned(d[last].Payload(), Split(d, last, n), total + g)
    else Returned(0, d, total + g)
  }

  /** When nothing fits, the subtraction in the request does not underflow, and the growth is the least
      number of pages that reaches the need; it exceeds the need unless the shortage was whole pages. */
  lemma GrowthIsLeast(c: Chain, total: nat, n: nat)
    requires Heap(c, total) && NoneFits(c, n) && n + HEADER < WRAP
    ensures c[|c| - 2].size <= n + HEADER
    ensures SizeRequired(c, n) == n + HEADER - c[|c| - 2].size
    ensures n + HEADER <= c[|c| - 2].size + Growth(c, n) < n + HEADER + PAGE
    ensures Fits(Grow(c, Growth(c, n))[|c| - 2], n) <==> !FallsShortByPages(c, n)
  {
    assert !Fits(c[|c| - 2], n);
  }

  /** Where a search that began with chain c can be: on its first pass, or after its one growth. */
  ghost predicate OnFirstPass(s: Scan, c: Chain, total: nat, n: nat) {
    s.Looking? && s.c == c && s.total == total && s.i < |c| && forall j :: 0 <= j < s.i ==> !Fits(c[j], n)
  }

  ghost predicate OnSecondPass(s: Scan, c: Chain, total: nat, n: nat)
    requires |c| >= 2
  {
    var g := Growth(c, n);
    && total < SCAN_LIMIT && NoneFits(c, n)
    && s.Looking? && s.c == Grow(c, g) && s.total == total + g && 0 < s.i < |c|
    && forall j :: 0 <= j < s.i ==> !Fits(s.c[j], n)
  }

  lemma FirstFitIs(c: Chain, n: nat, k: nat)
    requires k <= |c| && (k < |c| ==> Fits(c[k], n))
    requires forall j :: 0 <= j < k ==> !Fits(c[j], n)
    ensures FirstFit(c, n, 0) == k
  {
  }

  lemma FirstPassTurn(s: Scan, c: Chain, total: nat, n: nat)
    requires Heap(c, total) && 0 < total <= HEAP_LIMIT && n % 16 == 0 && n + HEADER < WRAP
    requires OnFirstPass(s, c, total, n)
    ensures ScanState(s)
    ensures var t := Turn(s, n);
            if t.Returned? then t == Outcome(c, total, n) && !Diverges(c, total, n)
            else (OnFirstPass(t, c, total, n) && t.i == s.i + 1) || OnSecondPass(t, c, total, n)
  {
    Inside(c, total, s.i);
    ScanEndWraps(total, c[s.i].addr);
    var t := Turn(s, n);
    if total >= SCAN_LIMIT {
    } else if c[s.i].kind != Tail {
      if Fits(c[s.i], n) {
        FirstFitIs(c, n, s.i);
      }
    } else {
      assert NoneFits(c, n);
      FirstFitIs(c, n, |c|);
      GrowthIsLeast(c, total, n);
      var d := Grow(c, Growth(c, n));
      assert |c| > 2 ==> d[0] == c[0];
    }
  }

  /** Once the last block equals the need, no more growth is asked for. */
  lemma NoFurtherGrowth(c: Chain, total: nat, n: nat)
    requires Heap(c, total) && NoneFits(c, n) && n + HEADER < WRAP && FallsShortByPages(c, n)
    ensures var d := Grow(c, Growth(c, n)); Growth(d, n) == 0 && Grow(d, 0) == d
  {
    GrowthIsLeast(c, total, n);
    var d := Grow(c, Growth(c, n));
    assert d[|d| - 2].size == n + HEADER;
  }

  /** At the tail again: the last block still equals the need, and the search starts over. */
  lemma SecondPassAtTail(s: Scan, c: Chain, total: nat, n: nat)
    requires Heap(c, total) && n % 16 == 0 && n + HEADER < WRAP && ScanState(s)
    requires OnSecondPass(s, c, total, n) && s.i == |c| - 1 && s.c[s.i].addr < ScanEnd(s.total)
    ensures FallsShortByPages(c, n) && Turn(s, n) == Looking(1, s.c, s.total)
  {
    GrowthIsLeast(c, total, n);
    assert !Fits(s.c[|c| - 2], n);
    NoFurtherGrowth(c, total, n);
    assert !Fits(s.c[0], n);
  }

  /** On a block: only the last one can have come to fit. */
  lemma SecondPassOnBlock(s: Scan, c: Chain, total: nat, n: nat)
    requires Heap(c, total) && n % 16 == 0 && n + HEADER < WRAP && ScanState(s)
    requires OnSecondPass(s, c, total, n) && s.i < |c| - 1 && s.c[s.i].addr < ScanEnd(s.total)
    ensures Turn(s, n) == if Fits(s.c[s.i], n) then Returned(s.c[s.i].Payload(), Split(s.c, s.i, n), s.total)
                          else Looking(s.i + 1, s.c, s.total)
    ensures Fits(s.c[s.i], n) <==> s.i == |c| - 2 && !FallsShortByPages(c, n)
  {
    GrowthIsLeast(c, total, n);
    assert s.i < |c| - 2 ==> s.c[s.i] == c[s.i];
  }

  /** Past the limit the loop's test fails at once. */
  lemma SecondPassPastLimit(s: Scan, c: Chain, total: nat, n: nat)
    requires Heap(c, total) && 0 < total && n % 16 == 0 && n + HEADER < WRAP && ScanState(s)
    requires OnSecondPass(s, c, total, n) && SCAN_LIMIT <= s.total <= HEAP_LIMIT
    ensures Turn(s, n) == Returned(0, s.c, s.total) && Turn(s, n) == Outcome(c, total, n)
  {
    Inside(s.c, s.total, s.i);
    ScanEndWraps(s.total, s.c[s.i].addr);
    FirstFitIs(c, n, |c|);
    assert |c| == 2 ==> !Fits(s.c[0], n);
  }

  lemma SecondPassTurn(s: Scan, c: Chain, total: nat, n: nat)
    requires Heap(c, total) && 0 < total && n % 16 == 0 && n + HEADER < WRAP
    requires OnSecondPass(s, c, total, n) && s.total <= HEAP_LIMIT
    ensures ScanState(s)
    ensures var t := Turn(s, n);
            if t.Returned? then t == Outcome(c, total, n) && !Diverges(c, total, n)
            else OnSecondPass(t, c, total, n) && (Diverges(c, total, n) || (t.i == s.i + 1 && s.i < |c| - 2))
  {
    GrowthKeepsHeap(c, total, n);
    if s.total >= SCAN_LIMIT {
      SecondPassPastLimit(s, c, total, n);
    } else {
      Inside(s.c, s.total, s.i);
      ScanEndWraps(s.total, s.c[s.i].addr);
      if s.i == |c| - 1 {
        SecondPassAtTail(s, c, total, n);
      } else {
        SecondPassOnBlock(s, c, total, n);
        FirstFitIs(c, n, |c|);
      }
    }
  }

  ghost predicate Searching(s: Scan, c: Chain, total: nat, n: nat)
    requires |c| >= 2
  {
    OnFirstPass(s, c, total, n) || OnSecondPass(s, c, total, n)
  }

  /** A request the loop can meet without leaving the address range set aside for the heap. */
  ghost predicate Requestable(c: Chain, total: nat, n: nat) {
    && Heap(c, total) && 0 < total <= HEAP_LIMIT
    && n % 16 == 0 && n + HEADER < WRAP
    && (NoneFits(c, n) && total < SCAN_LIMIT ==> total + Growth(c, n) <= HEAP_LIMIT)
  }

  /** While the search goes on it is on one of its two passes; growth happens on the first only. */
  lemma SearchingTurn(s: Scan, c: Chain, total: nat, n: nat)
    requires Requestable(c, total, n) && Searching(s, c, total, n)
    ensures ScanState(s)
    ensures var t := Turn(s, n);
            if t.Returned? then t == Outcome(c, total, n) && !Diverges(c, total, n)
            else if OnSecondPass(s, c, total, n) then OnSecondPass(t, c, total, n)
            else OnSecondPass(t, c, total, n) || (OnFirstPass(t, c, total, n) && t.i == s.i + 1)
    ensures var t := Turn(s, n); t.Looking? && !Diverges(c, total, n) ==> TurnsLeft(t, c) < TurnsLeft(s, c)
    ensures !Diverges(c, total, n) && s.c[s.i].kind == Tail && s.total < SCAN_LIMIT ==>
              OnFirstPass(s, c, total, n) && !OnSecondPass(s, c, total, n) && NoneFits(c, n)
  {
    if OnSecondPass(s, c, total, n) {
      SecondPassTurn(s, c, total, n);
    } else {
      FirstPassTurn(s, c, total, n);
    }
  }

  /** A bound on the turns still to come. */
  ghost function TurnsLeft(s: Scan, c: Chain): int
    requires s.Looking?
  {
    if s.c == c then 2 * |c| - s.i else |c| - s.i
  }

  /** kmalloc's search ends within two passes over the chain, with the outcome stated, unless it
      diverges. */
  lemma {:induction false} SearchEnds(s: Scan, c: Chain, total: nat, n: nat, count: nat)
    requires Requestable(c, total, n) && Searching(s, c, total, n) && !Diverges(c, total, n)
    requires count >= TurnsLeft(s, c)
    ensures ScanState(s) && Turns(s, n, count) == Outcome(c, total, n)
    decreases count
  {
    SearchingTurn(s, c, total, n);
    var t := Turn(s, n);
    if t.Looking? {
      SearchEnds(t, c, total, n, count - 1);
    }
  }

  /** In the diverging case no number of turns returns, and after the first pass nothing changes. */
  lemma {:induction false} SearchNeverEnds(s: Scan, c: Chain, total: nat, n: nat, count: nat)
    requires Requestable(c, total, n) && Searching(s, c, total, n) && Diverges(c, total, n)
    ensures ScanState(s) && Turns(s, n, count).Looking?
    ensures OnSecondPass(s, c, total, n) || count >= |c| - s.i ==> OnSecondPass(Turns(s, n, count), c, total, n)
    decreases count
  {
    SearchingTurn(s, c, total, n);
    if count > 0 {
      var t := Turn(s, n);
      assert Searching(t, c, total, n);
      SearchNeverEnds(t, c, total, n, count - 1);
      assert Turns(s, n, count) == Turns(t, n, count - 1);
    }
  }

  /** kmalloc's search, from its start, comes to an end exactly when it does not diverge, and then within
      two passes over the chain. */
  lemma SearchEndsExactly(c: Chain, total: nat, n: nat)
    requires Requestable(c, total, n)
    ensures ScanState(Looking(0, c, total))
    ensures Diverges(c, total, n) <==> forall count :: Turns(Looking(0, c, total), n, count).Looking?
    ensures !Diverges(c, total, n) ==> Turns(Looking(0, c, total), n, 2 * |c|) == Outcome(c, total, n)
  {
    var s := Looking(0, c, total);
    if Diverges(c, total, n) {
      forall count: nat
        ensures Turns(s, n, count).Looking?
      {
        SearchNeverEnds(s, c, total, n, count);
      }
    } else {
      SearchEnds(s, c, total, n, 2 * |c|);
    }
  }

  /** An input for which it never ends: the heap just made and a request of 4048 bytes, whose need is the
      very size of the one free block. */
  lemma FreshHeapCanDiverge()
    ensures Requestable(Fresh(PAGE), PAGE, AlignBlock(4048)) && Diverges(Fresh(PAGE), PAGE, AlignBlock(4048))
  {
    FreshHeap(PAGE);
  }

  /** A request that returns gives NULL exactly when the scaled end of the heap has wrapped around: from
      the outset, or through the growth just made unless the only block is the one that now fits. */
  lemma NullExactly(c: Chain, total: nat, n: nat)
    requires Requestable(c, total, n) && !Diverges(c, total, n)
    ensures Outcome(c, total, n).p == 0 <==>
              total >= SCAN_LIMIT
              || (NoneFits(c, n) && total + Growth(c, n) >= SCAN_LIMIT && (FallsShortByPages(c, n) || |c| > 2))
  {
    var k := FirstFit(c, n, 0);
    if k == |c| {
      GrowthIsLeast(c, total, n);
    } else {
      assert Fits(c[k], n);
    }
  }

  /** Such a request: 16 bytes from a heap of 48 MiB that is all free. */
  lemma LongHeapGivesNull()
    ensures var c := Fresh(SCAN_LIMIT);
            && Requestable(c, SCAN_LIMIT, AlignBlock(16)) && !Diverges(c, SCAN_LIMIT, AlignBlock(16))
            && Fits(c[0], AlignBlock(16)) && Outcome(c, SCAN_LIMIT, AlignBlock(16)).p == 0
  {
    FreshHeap(SCAN_LIMIT);
  }

  lemma FirstFitIsLowest(c: Chain, total: nat, n: nat, j: nat)
    requires Heap(c, total) && j < |c| && Fits(c[j], n)
    ensures var k := FirstFit(c, n, 0); k <= j && c[k].addr <= c[j].addr
  {
    var k := FirstFit(c, n, 0);
    if k < j {
      Ordered(c, total, k, j);
    }
  }

  lemma CutParts(c: Chain, total: nat, n: nat, k: nat)
    requires Heap(c, total) && n % 16 == 0 && k < |c| && Fits(c[k], n)
    ensures var d := Split(c, k, n);
            && |d| == |c| + 1 && d[k] == Block(c[k].addr, n, Used)
            && d[k + 1].kind == Free && d[k + 1].size >= 16 && d[k + 1].End() == c[k].End()
            && d[..k] == c[..k] && d[k + 2..] == c[k + 1..]
  {
    SplitParts(c, k, n);
    assert c[k].size % 16 == 0;
  }

  /** While something fits, the lowest such block is cut: its front part is returned, at least 16 bytes stay
      free behind it, and no other block is touched. */
  lemma LowestIsCut(c: Chain, total: nat, n: nat, j: nat)
    requires Requestable(c, total, n) && total < SCAN_LIMIT && j < |c| && Fits(c[j], n)
    ensures var r, k := Outcome(c, total, n), FirstFit(c, n, 0);
            && k <= j && r.total == total && |r.c| == |c| + 1
            && r.p == c[k].Payload() && c[k].addr <= c[j].addr
            && r.c[k] == Block(c[k].addr, n, Used)
            && r.c[k + 1].kind == Free && r.c[k + 1].size >= 16 && r.c[k + 1].End() == c[k].End()
            && r.c[..k] == c[..k] && r.c[k + 2..] == c[k + 1..]
  {
    FirstFitIsLowest(c, total, n, j);
    CutParts(c, total, n, FirstFit(c, n, 0));
  }
}
