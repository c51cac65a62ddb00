/** The kernel heap manager: headers kept in the memory they manage, read and written through the
    page tables. */
module Kmem {
  import opened Arithmetic
  import opened Mmu
  import opened Tables
  import opened FrameBitmaps
  import opened Paging
  import opened HeapChain
  import opened HeapScan
  import opened HeapStore
  import opened HeapPages
  import opened HeapRuns
  import opened HeapTraces
  import opened Seals

  const KMEM_FREE := 0x00
  const KMEM_USED := 0x01
  const KMEM_TAIL := 0x81

  /** A store to the low byte of a word. */
  function WithByte(w: Word, byte: nat): (r: Word)
    requires byte < 256
    ensures r % 256 == byte && r / 256 == w / 256
  {
    w - w % 256 + byte
  }

  lemma HeaderAligned(a: nat)
    requires a % 16 == 0
    ensures a % 4 == 0 && (a + NEXT) % 4 == 0 && (a + SIZE) % 4 == 0 && (a + FLAGS) % 4 == 0
  {
    FieldAligned(a, 0);
    FieldAligned(a, NEXT);
    FieldAligned(a, SIZE);
    FieldAligned(a, FLAGS);
  }

  lemma FieldAligned(a: nat, offset: nat)
    requires a % 16 == 0 && offset % 4 == 0
    ensures (a + offset) % 4 == 0
  {
    Euclid(a, 4 * (a / 16), 0, 4);
    SumOfMultiples(a, offset, 4);
  }

  lemma CutAligned(a: nat, n: nat)
    requires a % 16 == 0 && n % 16 == 0
    ensures (a + HEADER + n) % 16 == 0
  {
    SumOfMultiples(a, HEADER, 16);
    SumOfMultiples(a + HEADER, n, 16);
  }

  predicate Roomy(b: Block) {
    b.kind == Free && b.size > 0
  }

  /** The header at a is linked to itself, free, and of a size no heap has; the other words are as before. */
  ghost predicate Spoiled(v: View, w: View, a: nat) {
    HeaderAt(w, a, a, a, WRAP - 16, Flag(Free)) && SameOutside(v, w, a, a + FLAGS)
  }

  lemma SpoiledForGood(v: View, w: View, c: Chain, total: nat, k: nat)
    requires Tiled(c, total) && Represents(v, c) && k < |c| && Spoiled(v, w, c[k].addr) && total <= HEAP_LIMIT
    ensures forall d :: Tiled(d, total) ==> !Represents(w, d)
  {
    forall d | Tiled(d, total)
      ensures !Represents(w, d)
    {
      NoChainLeft(v, w, c, d, total, k);
    }
  }

  class KernelHeap {
    const vm: AddressSpace
    ghost const boot: Memory      // physical memory when the heap was made
    ghost const begun: set<nat>   // the frames used then
    var head: nat
    var firstFree: nat
    var tail: nat
    var totalLength: nat
    ghost var chain: Chain   // the blocks
    ghost var words: View    // the words of the heap region, read through the page tables

    /** The frames used when the heap was made, the directory and the tables apart: of the kernel image, of
        unusable regions, of the bitmap. */
    ghost function Kept(): set<nat> {
      PlainFrames(boot, vm.cr3, begun)
    }

    /** The heap region is mapped page by page, and words is what it holds; no page is on one of these frames,
        and their words are as when the heap was made. */
    ghost predicate Backed()
      reads this, vm.phys, vm.bitmap, vm.bitmap.ptr
    {
      && vm.Valid() && begun <= vm.bitmap.Used() && vm.bitmap.Home() <= Kept()
      && Housed(vm.Mem(), vm.cr3, vm.bitmap.Used(), totalLength, words, boot, Kept(), vm.bitmap.Home())
    }

    ghost predicate Ready()
      reads this, vm.phys, vm.bitmap, vm.bitmap.ptr
    {
      && vm.phys.Length == WORDS && vm.Separate() && totalLength % PAGE == 0
      && forall k :: Seen(MemoryPart, k) ==> Backed()
    }

    /** Its words hold the chain, which tiles it; kmem_info points to the first block and the tail. */
    ghost predicate Linked()
      reads this
    {
      && 0 < totalLength
      && Tiled(chain, totalLength) && Represents(words, chain)
      && head == HEAP_BASE && firstFree == HEAP_BASE && tail == chain[|chain| - 1].addr
    }

    ghost function Snapshot(): State
      reads this
    {
      State(chain, totalLength, words)
    }

    /** The invariant between calls. */
    ghost predicate Valid()
      reads this, vm.phys, vm.bitmap, vm.bitmap.ptr
    {
      Ready() && forall k :: Seen(BlocksPart, k) ==> Linked() && Coalesced(chain)
    }

    /** a is the address of a word of the heap region. */
    predicate InRegion(a: int)
      reads this
    {
      HEAP_BASE <= a < HEAP_BASE + totalLength && a % 4 == 0
    }

    /** a is the address of a possible header. */
    predicate InRegionHeader(a: int)
      reads this
    {
      InRegion(a) && InRegion(a + NEXT) && InRegion(a + SIZE) && InRegion(a + FLAGS)
    }

    lemma Region()
      requires Ready()
      ensures totalLength % PAGE == 0 && totalLength <= HEAP_LIMIT
      ensures forall a: int :: a in words <==> InRegion(a)
    {
      assert Seen(MemoryPart, 0);
      BackingKeys(vm.Mem(), vm.cr3, vm.bitmap.Used(), totalLength, words);
    }

    /** The entries of the page directory. */
    ghost function Dirs(): (d: seq<Word>)
      requires vm.phys.Length == WORDS
      reads this, vm.phys
      ensures |d| == 1024
    {
      Directory(vm.Mem(), vm.cr3)
    }

    // ----- Loads and stores -----

    method Get(a: Word) returns (w: Word)
      requires Ready() && InRegion(a)
      ensures a in words && w == words[a]
    {
      Region();
      assert Seen(MemoryPart, 0);
      HousedWord(vm.Mem(), vm.cr3, vm.bitmap.Used(), totalLength, words, a);
      w := vm.Load(a);
    }

    method Put(a: Word, w: Word)
      requires Ready() && InRegion(a)
      modifies vm.phys, this`words
      ensures Ready() && words == old(words)[a := w] && Dirs() == old(Dirs())
    {
      Region();
      assert Seen(MemoryPart, 0);
      HousedStored(vm.Mem(), vm.cr3, vm.bitmap.Used(), totalLength, words, a, w, boot, Kept(), vm.bitmap.Home());
      vm.Store(a, w);
      words := words[a := w];
      assert vm.bitmap.Used() == old(vm.bitmap.Used());
      assert Backed();
    }

    /** A store to the low byte of a word, which becomes w. */
    method PutByte(a: Word, byte: nat) returns (ghost w: Word)
      requires Ready() && InRegion(a) && byte < 256
      modifies vm.phys, this`words
      ensures Ready() && words == old(words)[a := w] && Dirs() == old(Dirs())
      ensures a in old(words) && w == WithByte(old(words)[a], byte)
    {
      var word := Get(a);
      w := WithByte(word, byte);
      Put(a, WithByte(word, byte));
    }

    /** kmemptr_next */
    method Next(scratch: Word) returns (r: Word)
      requires Ready() && scratch + FLAGS < WORD_LIMIT && InRegionHeader(scratch)
      ensures scratch + FLAGS in words && scratch + NEXT in words
      ensures r == if words[scratch + FLAGS] % 256 != KMEM_TAIL then words[scratch + NEXT] else 0
    {
      var next := Get(scratch + NEXT);
      var flags := Get(scratch + FLAGS);
      if flags % 256 != KMEM_TAIL {
        r := next;
      } else {
        r := 0;
      }
    }

    // ----- Mapping -----

    /** The page that the heap grows into. */
    function NextPage(): Word
      requires totalLength < HEAP_LIMIT
      reads this
    {
      HEAP_BASE + totalLength
    }

    /** alloc_map_page just above the heap, which becomes one page longer. */
    method MapNextPage() returns (ghost t: nat, ghost f: nat)
      requires Ready() && totalLength < HEAP_LIMIT
      requires vm.FramesToMap(NextPage()) <= vm.bitmap.Available()
      modifies vm.phys, vm.bitmap.ptr, this`words, this`totalLength
      ensures Ready() && totalLength == old(totalLength) + PAGE && Extends(old(words), words)
      ensures vm.bitmap.Available() == old(vm.bitmap.Available()) - old(vm.FramesToMap(NextPage()))
      ensures var i := old(Dir(NextPage())); Dirs() == old(Dirs())[i := Dirs()[i]]
      ensures PageMade(old(vm.Mem()), vm.Mem(), vm.cr3, old(vm.bitmap.Used()), vm.bitmap.lastChecked, vm.bitmap.Limit(),
                       old(NextPage()), t, f, 3)
      ensures t < FRAMES && f < FRAMES
      ensures vm.bitmap.Used() == WithTableFrame(old(vm.Mem()), vm.cr3, old(vm.bitmap.Used()), old(NextPage()), t) + {f}
    {
      NextPageInRegion();
      ghost var m, used := vm.Mem(), vm.bitmap.Used();
      var va := NextPage();
      t, f := vm.AllocMapPage(va, 3);
      ghost var n, u := vm.Mem(), vm.bitmap.Used();
      var next := totalLength + PAGE;
      ghost var v := HousedGrown(m, n, vm.cr3, used, u, totalLength, words, va, t, f, next, boot, Kept(), vm.bitmap.Home());
      words, totalLength := v, next;
      BackedAgain(n, u, next, v);
    }

    lemma NextPageInRegion()
      requires Ready() && totalLength < HEAP_LIMIT
      ensures Backed() && Dir(NextPage()) != 1023
    {
      assert Seen(MemoryPart, 0);
    }

    lemma BackedAgain(m: Memory, used: set<nat>, total: nat, v: View)
      requires vm.Valid() && vm.Mem() == m && vm.bitmap.Used() == used && totalLength == total && words == v
      requires begun <= used && vm.bitmap.Home() <= Kept()
      requires Housed(m, vm.cr3, used, total, v, boot, Kept(), vm.bitmap.Home())
      ensures Ready()
    {
      assert Backed();
    }

    // ----- kmem_init -----

    constructor (vm: AddressSpace)
      requires vm.Valid() && vm.FramesToMap(HEAP_BASE) <= vm.bitmap.Available()
      requires InPlace(vm.Mem(), vm.cr3, vm.bitmap.Home())
      modifies vm.phys, vm.bitmap.ptr
      ensures this.vm == vm && Valid() && totalLength == PAGE && chain == Fresh(PAGE)
      ensures vm.bitmap.Available() == old(vm.bitmap.Available()) - old(vm.FramesToMap(HEAP_BASE))
      ensures boot == old(vm.Mem()) && begun == old(vm.bitmap.Used())
      ensures PageFrame(vm.Mem(), vm.cr3, 0).Some?
      ensures Took(Present(Entry(boot, vm.cr3, 832)), begun, FrameOf(Entry(vm.Mem(), vm.cr3, 832)),
                   PageFrame(vm.Mem(), vm.cr3, 0).value)
    {
      this.vm, totalLength, words := vm, 0, map[];
      boot, begun := vm.Mem(), vm.bitmap.Used();
      head, firstFree, tail := HEAP_BASE, HEAP_BASE, HEAP_BASE + PAGE - HEADER;
      chain := Fresh(PAGE);
      new;
      assert Backed();
      MapFirstPage();
      FreshHeap(PAGE);
    }

    /** The first page with its two headers. */
    method MapFirstPage()
      requires Ready() && totalLength == 0 && head == HEAP_BASE && tail == HEAP_BASE + PAGE - HEADER
      requires boot == vm.Mem() && begun == vm.bitmap.Used() && vm.FramesToMap(HEAP_BASE) <= vm.bitmap.Available()
      modifies vm.phys, vm.bitmap.ptr, this`words, this`totalLength
      ensures Ready() && totalLength == PAGE && Represents(words, Fresh(PAGE))
      ensures vm.bitmap.Available() == old(vm.bitmap.Available()) - old(vm.FramesToMap(HEAP_BASE))
      ensures PageFrame(vm.Mem(), vm.cr3, 0).Some?
      ensures Took(Present(Entry(boot, vm.cr3, 832)), begun, FrameOf(Entry(vm.Mem(), vm.cr3, 832)),
                   PageFrame(vm.Mem(), vm.cr3, 0).value)
    {
      assert Backed() by {
        assert Seen(MemoryPart, 0);
      }
      ghost var t, f := MapNextPage();
      ghost var n := vm.Mem();
      LayHeaders(head, tail);
      FirstPage(n, t, f);
    }

    /** Of the frames that were free then, the lowest became a table, if there was none, and the next the page's;
        no others were taken. */
    ghost predicate Took(present: bool, used: set<nat>, t: nat, f: nat)
      reads vm.bitmap, vm.bitmap.ptr
    {
      var b := vm.bitmap;
      && LowestTaken(used, b.lastChecked - b.lastChecked % 8, b.Limit(), !present, t, f)
      && b.Used() == (if present then used else used + {t}) + {f}
    }

    /** Where the first page is, and its table. */
    lemma FirstPage(n: Memory, t: Frame, f: Frame)
      requires Ready() && totalLength == PAGE && WellFormed(boot, vm.cr3, begun)
      requires Dirs() == Directory(boot, vm.cr3)[832 := Entry(n, vm.cr3, 832)]
      requires PageMade(boot, n, vm.cr3, begun, vm.bitmap.lastChecked, vm.bitmap.Limit(), HEAP_BASE, t, f, 3)
      requires vm.bitmap.Used() == WithTableFrame(boot, vm.cr3, begun, HEAP_BASE, t) + {f}
      ensures PageFrame(vm.Mem(), vm.cr3, 0) == Some(f)
      ensures Took(Present(Entry(boot, vm.cr3, 832)), begun, FrameOf(Entry(vm.Mem(), vm.cr3, 832)), f)
    {
      assert Seen(MemoryPart, 0) && Seen(FramesPart, 0);
      assert Dirs()[832] == Entry(vm.Mem(), vm.cr3, 832);
      FirstPageIs(boot, vm.Mem(), vm.cr3, begun, t, f, PageFrame(vm.Mem(), vm.cr3, 0).value);
    }

    /** The headers of the first block and of the tail. */
    method LayHeaders(first: Word, last: Word)
      requires Ready() && totalLength == PAGE && first == HEAP_BASE && last == HEAP_BASE + PAGE - HEADER
      modifies vm.phys, this`words
      ensures Ready() && Represents(words, Fresh(PAGE)) && Dirs() == old(Dirs())
    {
      ghost var w0 := words;
      Put(first, first);
      Put(first + SIZE, PAGE - 2 * HEADER);
      ghost var f0 := PutByte(first + FLAGS, KMEM_FREE);
      Put(first + NEXT, last);
      Put(last, first);
      Put(last + SIZE, 0);
      ghost var f1 := PutByte(last + FLAGS, KMEM_TAIL);
      Put(last + NEXT, last);
      FreshStored(w0, words, f0, f1);
    }

    // ----- kmem_morecore -----

    /** There are frames enough to map k pages from page p on. */
    ghost predicate Affords(p: nat, k: nat)
      requires vm.phys.Length == WORDS && p + k <= HEAP_PAGES
      reads this, vm.phys, vm.bitmap, vm.bitmap.ptr
    {
      forall j :: Seen(FramesPart, j) ==> FramesFor(Dirs(), p, k) <= vm.bitmap.Available()
    }

    /** The bytes of the frames that can still be taken, and twice those of the heap.  A page of the heap takes
        two frames at most, so growth never makes this less. */
    ghost function Budget(): nat
      reads this, vm.bitmap, vm.bitmap.ptr
    {
      vm.bitmap.Available() * PAGE + 2 * totalLength
    }

    /** One turn of the loop. */
    method AddPage()
      requires Valid() && totalLength < HEAP_LIMIT && vm.FramesToMap(NextPage()) <= vm.bitmap.Available()
      modifies this, vm.phys, vm.bitmap.ptr
      ensures Valid() && totalLength == old(totalLength) + PAGE
      ensures |old(chain)| >= 2 && chain == Grow(old(chain), PAGE)
      ensures vm.bitmap.Available() == old(vm.bitmap.Available()) - old(vm.FramesToMap(NextPage()))
      ensures var i := old(Dir(NextPage())); Dirs() == old(Dirs())[i := Dirs()[i]]
      ensures SameBelow(old(words), words, old(chain)[|old(chain)| - 2].addr)
      ensures Budget() >= old(Budget())
    {
      assert Seen(BlocksPart, 0);
      ghost var c, total := chain, totalLength;
      ghost var t, f := MapNextPage();
      ExtendsRepresents(old(words), words, c);
      TakeInPage(total);
    }

    /** The new page becomes part of the last block. */
    method TakeInPage(ghost total: nat)
      requires Ready() && totalLength == total + PAGE && head == HEAP_BASE && firstFree == HEAP_BASE
      requires Heap(chain, total) && Represents(words, chain) && tail == chain[|chain| - 1].addr
      modifies this`words, this`tail, this`chain, vm.phys
      ensures Valid() && |old(chain)| >= 2 && chain == Grow(old(chain), PAGE) && Dirs() == old(Dirs())
      ensures SameBelow(old(words), words, old(chain)[|old(chain)| - 2].addr)
    {
      ghost var c := chain;
      MoveTail(c, total);
      GrowHeap(c, total, PAGE);
      chain := Grow(c, PAGE);
      assert Linked() && Coalesced(chain);
    }

    method MoveTail(ghost c: Chain, ghost total: nat)
      requires Ready() && totalLength == total + PAGE
      requires Heap(c, total) && Represents(words, c) && tail == c[|c| - 1].addr
      modifies this`words, this`tail, vm.phys
      ensures Ready() && tail == old(tail) + PAGE && Dirs() == old(Dirs())
      ensures Represents(words, Grow(c, PAGE)) && SameBelow(old(words), words, c[|c| - 2].addr)
    {
      ghost var v := words;
      TailReachable(c, total);
      ghost var f := StoreTail(c[|c| - 2].addr, c[|c| - 2].size);
      GrowStores(v, words, c, total, f);
    }

    lemma TailReachable(c: Chain, total: nat)
      requires Ready() && totalLength == total + PAGE
      requires Heap(c, total) && Represents(words, c) && tail == c[|c| - 1].addr
      ensures tail + PAGE + FLAGS < WORD_LIMIT && InRegion(tail) && InRegionHeader(tail + PAGE)
      ensures var a, size := c[|c| - 2].addr, c[|c| - 2].size;
              && InRegionHeader(a) && a + HEADER + size == tail
              && HasHeader(words, a) && tail in words
              && words[tail] == a && words[a + FLAGS] % 256 == KMEM_FREE && words[a + SIZE] == size
    {
      var last := |c| - 2;
      assert totalLength <= HEAP_LIMIT by {
        Region();
      }
      Inside(c, total, last);
      Aligned(c, total, last);
      Aligned(c, total, last + 1);
      assert Joined(c, last) && Header(words, c, last) && Header(words, c, last + 1);
      HeaderInRegion(c[last].addr);
      HeaderInRegion(tail);
      SumOfMultiples(tail, PAGE, 16);
      HeaderInRegion(tail + PAGE);
    }

    lemma HeaderInRegion(a: nat)
      requires a % 16 == 0 && HEAP_BASE <= a && a + HEADER <= HEAP_BASE + totalLength
      ensures InRegionHeader(a)
    {
      HeaderAligned(a);
    }

    /** The new page is added to the block before the tail.  That block is always free, so the branch for
        a used one is never taken. */
    method StoreTail(ghost a: nat, ghost size: nat) returns (ghost f: Word)
      requires Ready() && InRegion(tail) && tail + PAGE + FLAGS < WORD_LIMIT && a + HEADER + size == tail
      requires InRegionHeader(a) && InRegionHeader(tail + PAGE) && HasHeader(words, a) && tail in words
      requires words[tail] == a && words[a + FLAGS] % 256 == KMEM_FREE && words[a + SIZE] == size
      modifies this`words, this`tail, vm.phys
      ensures Ready() && tail == old(tail) + PAGE && Dirs() == old(Dirs()) && f % 256 == KMEM_TAIL
      ensures var t := old(tail) + PAGE;
              words == old(words)[a + SIZE := size + PAGE][t := a][t + SIZE := 0][t + FLAGS := f]
                                 [a + NEXT := t][t + NEXT := t]
    {
      var previous := Get(tail);
      var flags := Get(previous + FLAGS);
      var kind := flags % 256;
      if kind == KMEM_FREE {
        f := GrowBlock(previous, tail, size);
      } else if kind == KMEM_USED {
        assert false;
      }
    }

    method GrowBlock(previous: Word, oldTail: Word, ghost size: nat) returns (ghost f: Word)
      requires Ready() && oldTail + PAGE + FLAGS < WORD_LIMIT && previous + HEADER + size == oldTail
      requires InRegionHeader(previous) && InRegionHeader(oldTail + PAGE)
      requires previous + SIZE in words && words[previous + SIZE] == size
      modifies this`words, this`tail, vm.phys
      ensures Ready() && tail == oldTail + PAGE && Dirs() == old(Dirs()) && f % 256 == KMEM_TAIL
      ensures var a, t := previous, oldTail + PAGE;
              words == old(words)[a + SIZE := size + PAGE][t := a][t + SIZE := 0][t + FLAGS := f]
                                 [a + NEXT := t][t + NEXT := t]
    {
      var length := AddPageTo(previous, size);
      tail := previous + length + HEADER;
      assert tail == oldTail + PAGE;
      f := WriteTail(previous, tail);
    }

    /** The block's size, grown by a page and read again. */
    method AddPageTo(previous: Word, ghost size: nat) returns (length: Word)
      requires Ready() && InRegion(previous + SIZE) && previous + SIZE < WORD_LIMIT && size + PAGE < WORD_LIMIT
      requires previous + SIZE in words && words[previous + SIZE] == size
      modifies this`words, vm.phys
      ensures Ready() && Dirs() == old(Dirs())
      ensures words == old(words)[previous + SIZE := size + PAGE] && length == size + PAGE
    {
      length := Get(previous + SIZE);
      Put(previous + SIZE, length + PAGE);
      length := Get(previous + SIZE);
    }

    method WriteTail(previous: Word, last: Word) returns (ghost f: Word)
      requires Ready() && last + FLAGS < WORD_LIMIT && previous + NEXT < WORD_LIMIT
      requires InRegionHeader(last) && InRegion(previous + NEXT)
      modifies this`words, vm.phys
      ensures Ready() && Dirs() == old(Dirs()) && f % 256 == KMEM_TAIL
      ensures words == old(words)[last := previous][last + SIZE := 0][last + FLAGS := f][previous + NEXT := last][last + NEXT := last]
    {
      Put(last, previous);
      Put(last + SIZE, 0);
      f := PutByte(last + FLAGS, KMEM_TAIL);
      Put(previous + NEXT, last);
      Put(last + NEXT, last);
    }

    /** kmem_morecore; pages is the number of pages so far. */
    method MoreCore(blockCount: nat, ghost pages: nat)
      requires Valid() && totalLength == pages * PAGE && pages + blockCount <= HEAP_PAGES
      requires Affords(pages, blockCount)
      modifies this, vm.phys, vm.bitmap.ptr
      ensures Valid() && totalLength == (pages + blockCount) * PAGE
      ensures |old(chain)| >= 2 && chain == Grow(old(chain), blockCount * PAGE)
      ensures SameBelow(old(words), words, old(chain)[|old(chain)| - 2].addr)
      ensures Budget() >= old(Budget())
    {
      assert |chain| >= 2 by {
        assert Seen(BlocksPart, 0);
      }
      ghost var c, v := chain, words;
      GrowTwice(c, 0, 0);
      ghost var p, rest, g := pages, blockCount, 0;
      var i := 0;
      while i < blockCount
        invariant i <= blockCount && p == pages + i && rest == blockCount - i && g == i * PAGE
        invariant Valid() && totalLength == p * PAGE
        invariant chain == Grow(c, g) && SameBelow(v, words, c[|c| - 2].addr)
        invariant Affords(p, rest) && Budget() >= old(Budget())
      {
        p, rest := AddPageOf(p, rest);
        GrowTwice(c, g, PAGE);
        i, g := i + 1, g + PAGE;
      }
    }

    /** A turn of the loop with rest pages to come. */
    method AddPageOf(ghost p: nat, ghost rest: nat) returns (ghost next: nat, ghost after: nat)
      requires Valid() && totalLength == p * PAGE && rest > 0 && p + rest <= HEAP_PAGES
      requires Affords(p, rest)
      modifies this, vm.phys, vm.bitmap.ptr
      ensures Valid() && next == p + 1 && after == rest - 1 && totalLength == next * PAGE
      ensures |old(chain)| >= 2 && chain == Grow(old(chain), PAGE)
      ensures SameBelow(old(words), words, old(chain)[|old(chain)| - 2].addr)
      ensures Affords(next, after)
      ensures Budget() >= old(Budget())
    {
      ghost var dirs, frames := Dirs(), vm.bitmap.Available();
      ghost var i, taken := FramesToMapNext(p, rest);
      AddPage();
      next, after := p + 1, rest - 1;
      FramesForNext(dirs, Dirs(), p, rest, next, after, frames, vm.bitmap.Available());
      StillAffords(next, after);
    }

    /** The next page can be mapped. */
    lemma FramesToMapNext(p: nat, rest: nat) returns (i: nat, taken: nat)
      requires Ready() && totalLength == p * PAGE && rest > 0 && p + rest <= HEAP_PAGES && Affords(p, rest)
      ensures totalLength < HEAP_LIMIT && i == 832 + p / 1024 && i == Dir(NextPage())
      ensures taken == FramesAt(Dirs(), p) && taken == vm.FramesToMap(NextPage())
      ensures taken <= vm.bitmap.Available() && FramesFor(Dirs(), p, rest) <= vm.bitmap.Available()
    {
      assert Seen(FramesPart, 0);
      NextFrames(p);
      i, taken := 832 + p / 1024, FramesAt(Dirs(), p);
    }

    lemma StillAffords(p: nat, k: nat)
      requires vm.phys.Length == WORDS && p + k <= HEAP_PAGES && FramesFor(Dirs(), p, k) <= vm.bitmap.Available()
      ensures Affords(p, k)
    {
    }

    lemma NextFrames(p: nat)
      requires Ready() && totalLength == p * PAGE && p < HEAP_PAGES
      ensures totalLength < HEAP_LIMIT && Dir(NextPage()) == 832 + p / 1024
      ensures vm.FramesToMap(NextPage()) == FramesAt(Dirs(), p)
    {
      PageParts(p);
      assert Seen(MemoryPart, 0);
      if p % 1024 != 0 {
        TableThere(vm.Mem(), vm.cr3, vm.bitmap.Used(), p);
      }
    }

    // ----- kmalloc -----

    /** A block that fits is cut in two, the front part becoming used. */
    method CutBlock(scratch: Word, bsize: Word, ghost k: nat)
      requires Valid() && k < |chain| && scratch == chain[k].addr && Fits(chain[k], bsize) && bsize % 16 == 0
      modifies this`words, this`chain, vm.phys
      ensures Valid() && chain == Split(old(chain), k, bsize)
      ensures k + 1 < |old(chain)| && SameOutside(old(words), words, old(chain)[k].addr, old(chain)[k + 1].addr)
    {
      assert Seen(BlocksPart, 0);
      ghost var c := chain;
      SplitHeap(c, totalLength, k, bsize);
      CutWords(scratch, bsize, k);
      chain := Split(c, k, bsize);
      assert Linked() && Coalesced(chain);
    }

    method CutWords(scratch: Word, bsize: Word, ghost k: nat)
      requires Ready() && Linked() && k + 1 < |chain| && scratch == chain[k].addr
      requires Fits(chain[k], bsize) && bsize % 16 == 0
      modifies this`words, vm.phys
      ensures Ready() && Represents(words, Split(chain, k, bsize))
      ensures SameOutside(old(words), words, chain[k].addr, chain[k + 1].addr)
    {
      ghost var v := words;
      CutReachable(k, bsize);
      assert Header(v, chain, k);
      var next := Next(scratch);
      ghost var f0, f1 := StoreCut(scratch, bsize, next, scratch + HEADER + bsize, chain[k].size);
      SplitStores(v, words, chain, totalLength, k, bsize, f0, f1);
    }

    lemma CutReachable(k: nat, n: nat)
      requires Ready() && Linked() && k < |chain| && Fits(chain[k], n) && n % 16 == 0
      ensures k + 1 < |chain|
      ensures var a, b, d := chain[k].addr, chain[k].addr + HEADER + n, chain[k + 1].addr;
              && InRegionHeader(a) && InRegionHeader(b) && InRegionHeader(d) && b + HEADER < d < WORD_LIMIT
    {
      assert Joined(chain, k);
      BlockInRegion(k);
      BlockInRegion(k + 1);
      CutAligned(chain[k].addr, n);
      HeaderInRegion(chain[k].addr + HEADER + n);
    }

    lemma BlockInRegion(k: nat)
      requires Ready() && Linked() && k < |chain|
      ensures InRegionHeader(chain[k].addr) && chain[k].addr % 16 == 0 && chain[k].End() < WORD_LIMIT
      ensures chain[k].End() <= HEAP_BASE + totalLength
    {
      Inside(chain, totalLength, k);
      Aligned(chain, totalLength, k);
      HeaderInRegion(chain[k].addr);
      assert totalLength <= HEAP_LIMIT by {
        Region();
      }
    }

    /** The stores of kmalloc when it cuts a block, in 32 bits.  The new header comes after that of the block,
        or falls on it. */
    method StoreCut(scratch: Word, bsize: Word, next: Word, ghost newPtr: Word, ghost length: nat)
      returns (ghost f0: Word, ghost f1: Word)
      requires Ready() && newPtr == (scratch + HEADER + bsize) % WRAP && (bsize + HEADER) % WRAP < length
      requires (newPtr == scratch || scratch + HEADER <= newPtr) && scratch + HEADER <= next
      requires newPtr + FLAGS < next || newPtr == scratch
      requires InRegionHeader(scratch) && InRegionHeader(newPtr) && InRegion(next) && newPtr + FLAGS < WORD_LIMIT
      requires scratch + SIZE in words && words[scratch + SIZE] == length
      requires scratch + NEXT in words && words[scratch + NEXT] == next
      modifies this`words, vm.phys
      ensures Ready() && f0 % 256 == KMEM_USED && f1 % 256 == KMEM_FREE
      ensures var a, b := scratch, newPtr;
              words == old(words)[next := b][b + SIZE := length - (bsize + HEADER) % WRAP][b := a][b + NEXT := next]
                                 [a + SIZE := bsize][a + NEXT := b][a + FLAGS := f0][b + FLAGS := f1]
    {
      var newHeader := (scratch + HEADER + bsize) % WRAP;
      Put(next, newHeader);
      var size := Get(scratch + SIZE);
      Put(newHeader + SIZE, size - (bsize + HEADER) % WRAP);
      f0, f1 := LinkCut(scratch, newHeader, bsize, next);
    }

    method LinkCut(scratch: Word, newPtr: Word, bsize: Word, ghost d: Word) returns (ghost f0: Word, ghost f1: Word)
      requires Ready() && (newPtr == scratch || scratch + HEADER <= newPtr) && newPtr + FLAGS < WORD_LIMIT
      requires InRegionHeader(scratch) && InRegionHeader(newPtr) && scratch + FLAGS < WORD_LIMIT
      requires scratch + NEXT in words && words[scratch + NEXT] == d
      modifies this`words, vm.phys
      ensures Ready() && f0 % 256 == KMEM_USED && f1 % 256 == KMEM_FREE
      ensures var a, b := scratch, newPtr;
              words == old(words)[b := a][b + NEXT := d][a + SIZE := bsize][a + NEXT := b][a + FLAGS := f0][b + FLAGS := f1]
    {
      Put(newPtr, scratch);
      var next := Get(scratch + NEXT);
      Put(newPtr + NEXT, next);
      f0, f1 := StoreFront(scratch, newPtr, bsize);
    }

    /** The front part's size, link and flag, and the flag of the other part. */
    method StoreFront(scratch: Word, newPtr: Word, bsize: Word) returns (ghost f0: Word, ghost f1: Word)
      requires Ready() && newPtr + FLAGS < WORD_LIMIT && scratch + FLAGS < WORD_LIMIT
      requires InRegionHeader(scratch) && InRegionHeader(newPtr)
      modifies this`words, vm.phys
      ensures Ready() && f0 % 256 == KMEM_USED && f1 % 256 == KMEM_FREE
      ensures var a, b := scratch, newPtr;
              words == old(words)[a + SIZE := bsize][a + NEXT := b][a + FLAGS := f0][b + FLAGS := f1]
    {
      Put(scratch + SIZE, bsize);
      Put(scratch + NEXT, newPtr);
      f0 := PutByte(scratch + FLAGS, KMEM_USED);
      f1 := PutByte(newPtr + FLAGS, KMEM_FREE);
    }

    lemma BlockAt(k: nat)
      requires Valid() && k < |chain|
      ensures totalLength > 0 && Heap(chain, totalLength) && firstFree == chain[0].addr && head == HEAP_BASE
      ensures InRegionHeader(chain[k].addr) && HasHeader(words, chain[k].addr) && chain[k].End() < WORD_LIMIT
      ensures Header(words, chain, k)
    {
      assert Seen(BlocksPart, 0);
      BlockInRegion(k);
      assert Header(words, chain, k);
    }

    /** What the header of the tail leads to. */
    lemma LastIsFree()
      requires Valid() && |chain| >= 2
      ensures var t, b := chain[|chain| - 1].addr, chain[|chain| - 2];
              && InRegion(t) && t < WORD_LIMIT && InRegionHeader(b.addr) && b.End() < WORD_LIMIT
              && t in words && words[t] == b.addr && HasHeader(words, b.addr)
              && words[b.addr + FLAGS] % 256 == KMEM_FREE && words[b.addr + SIZE] == b.size
    {
      BlockAt(|chain| - 1);
      BlockAt(|chain| - 2);
    }

    /** The growth asked for at the tail. */
    method GrowFor(scratch: Word, bsize: Word, ghost pages: nat)
      requires Valid() && |chain| >= 2 && scratch == chain[|chain| - 1].addr && bsize + HEADER < WRAP
      requires totalLength == pages * PAGE && pages + PagesRequired(chain, bsize) <= HEAP_PAGES
      requires Affords(pages, PagesRequired(chain, bsize))
      modifies this, vm.phys, vm.bitmap.ptr
      ensures Valid() && chain == Grow(old(chain), Growth(old(chain), bsize))
      ensures totalLength == old(totalLength) + Growth(old(chain), bsize)
      ensures SameBelow(old(words), words, old(chain)[|old(chain)| - 2].addr)
      ensures Budget() >= old(Budget())
    {
      LastIsFree();
      var previous := Get(scratch);
      var flags := Get(previous + FLAGS);
      var sizeReq := bsize + HEADER;
      if flags % 256 == KMEM_FREE {
        var size := Get(previous + SIZE);
        sizeReq := (sizeReq - size) % WRAP;
      }
      assert sizeReq == SizeRequired(chain, bsize);
      MoreCore(sizeReq / PAGE + if sizeReq % PAGE != 0 then 1 else 0, pages);
    }

    /** The block is cut if it fits, otherwise passed over. */
    method TryBlock(scratch: Word, bsize: Word, ghost k: nat) returns (found: bool, r: Word)
      requires Valid() && k < |chain| && scratch == chain[k].addr && chain[k].kind != Tail
      requires bsize % 16 == 0 && bsize + HEADER < WRAP
      modifies this`words, this`chain, vm.phys
      ensures Valid() && found == Fits(old(chain)[k], bsize)
      ensures found ==> r == old(chain)[k].Payload() && chain == Split(old(chain), k, bsize)
      ensures !found ==> k + 1 < |chain| && r == chain[k + 1].addr && unchanged(this, vm.phys)
      ensures PayloadsKept(old(words), words, Live(old(chain)))
    {
      BlockAt(k);
      var flags := Get(scratch + FLAGS);
      var size := Get(scratch + SIZE);
      if flags % 256 == KMEM_FREE && size > (bsize + HEADER) % WRAP {
        CutBlock(scratch, bsize, k);
        KeptByCut(old(words), words, old(chain), totalLength, k);
        return true, scratch + HEADER;
      } else {
        r := Next(scratch);
        return false, r;
      }
    }

    /** The growth at the tail, through which every live payload keeps its words. */
    method GrowAtTail(scratch: Word, bsize: Word, ghost pages: nat)
      requires Valid() && |chain| >= 2 && scratch == chain[|chain| - 1].addr && bsize + HEADER < WRAP
      requires totalLength == pages * PAGE && pages + PagesRequired(chain, bsize) <= HEAP_PAGES
      requires Affords(pages, PagesRequired(chain, bsize))
      modifies this, vm.phys, vm.bitmap.ptr
      ensures Valid() && chain == Grow(old(chain), Growth(old(chain), bsize))
      ensures totalLength == old(totalLength) + Growth(old(chain), bsize)
      ensures PayloadsKept(old(words), words, Live(old(chain))) && Live(chain) == Live(old(chain))
      ensures firstFree == chain[0].addr
      ensures Budget() >= old(Budget())
    {
      BlockAt(0);
      ghost var c, v, total := chain, words, totalLength;
      GrowFor(scratch, bsize, pages);
      KeptByGrowth(v, words, c, total);
      LiveAfterGrow(c, total, Growth(c, bsize));
      BlockAt(0);
    }

    /** One turn of kmalloc's loop at block k: growth at the tail, then the block is tried. */
    method LookAt(scratch: Word, bsize: Word, ghost k: nat, ghost pages: nat) returns (found: bool, r: Word)
      requires Valid() && k < |chain| && scratch == chain[k].addr && scratch < ScanEnd(totalLength)
      requires bsize % 16 == 0 && bsize + HEADER < WRAP && |chain| >= 2 && totalLength == pages * PAGE
      requires chain[k].kind == Tail ==>
                 pages + PagesRequired(chain, bsize) <= HEAP_PAGES && Affords(pages, PagesRequired(chain, bsize))
      modifies this, vm.phys, vm.bitmap.ptr
      ensures Valid() && ScanState(Looking(k, old(chain), old(totalLength)))
      ensures var t := Turn(Looking(k, old(chain), old(totalLength)), bsize);
              if found then t == Returned(r, chain, totalLength)
              else t.Looking? && t == Looking(t.i, chain, totalLength) && t.i < |chain| && r == chain[t.i].addr
      ensures !found && old(chain)[k].kind != Tail ==> unchanged(this, vm.phys, vm.bitmap.ptr)
      ensures PayloadsKept(old(words), words, Live(old(chain)))
      ensures Budget() >= old(Budget())
    {
      BlockAt(k);
      ghost var c, v, j := chain, words, k;
      var at := scratch;
      var flags := Get(scratch + FLAGS);
      if flags % 256 == KMEM_TAIL {
        GrowAtTail(scratch, bsize, pages);
        j := 0;
        at := firstFree;
      }
      ghost var mid := words;
      found, r := TryBlock(at, bsize, j);
      KeptTwice(v, mid, words, Live(c));
    }

    /** The frames that the growth for a request of n bytes takes, if it makes any. */
    ghost predicate AffordsGrowth(n: nat)
      requires vm.phys.Length == WORDS && totalLength % PAGE == 0 && Requestable(chain, totalLength, n)
      reads this, vm.phys, vm.bitmap, vm.bitmap.ptr
    {
      NoneFits(chain, n) && totalLength < SCAN_LIMIT ==>
        totalLength / PAGE + PagesRequired(chain, n) <= HEAP_PAGES && Affords(totalLength / PAGE, PagesRequired(chain, n))
    }

    /** A budget of two frames for each page up to limit affords every growth that stays below it. */
    lemma BudgetAffords(n: nat, limit: nat)
      requires Valid() && Requestable(chain, totalLength, n) && Budget() >= 2 * limit
      requires NoneFits(chain, n) && totalLength < SCAN_LIMIT ==> totalLength + Growth(chain, n) <= limit
      ensures AffordsGrowth(n)
    {
      var p, k := totalLength / PAGE, PagesRequired(chain, n);
      Region();
      assert totalLength == p * PAGE;
      if NoneFits(chain, n) && totalLength < SCAN_LIMIT {
        assert p + k <= HEAP_PAGES;
        assert 2 * k <= vm.bitmap.Available();
        FramesForAtMost(Dirs(), p, k);
        StillAffords(p, k);
      }
    }

    /** Where a request of n bytes stands that began with blocks c and words v, the search being at s. */
    ghost predicate Underway(s: Scan, c: Chain, total: nat, v: View, n: nat)
      requires vm.phys.Length == WORDS && totalLength % PAGE == 0
      reads this, vm.phys, vm.bitmap, vm.bitmap.ptr
    {
      && Requestable(c, total, n) && !Diverges(c, total, n)
      && Searching(s, c, total, n) && s.c == chain && s.total == totalLength
      && PayloadsKept(v, words, Live(c)) && Live(chain) == Live(c)
      && (OnSecondPass(s, c, total, n) || (chain == c && totalLength == total && AffordsGrowth(n)))
    }

    ghost predicate Searches(s: Scan, c: Chain, total: nat, v: View, n: nat)
      requires vm.phys.Length == WORDS && totalLength % PAGE == 0
      reads this, vm.phys, vm.bitmap, vm.bitmap.ptr
    {
      && s.Looking? && s.i < |chain|
      && forall k :: Seen(SearchPart, k) ==> Underway(s, c, total, v, n)
    }

    /** One turn of the loop, and how the search stands after it. */
    method Advance(scratch: Word, bsize: Word, ghost s: Scan, ghost c: Chain, ghost total: nat, ghost v: View)
      returns (found: bool, r: Word, ghost t: Scan)
      requires Valid() && Searches(s, c, total, v, bsize)
      requires scratch == chain[s.i].addr && scratch < ScanEnd(totalLength)
      modifies this, vm.phys, vm.bitmap.ptr
      ensures Valid()
      ensures found ==> Finished(r, c, total, v, bsize)
      ensures !found ==> Searches(t, c, total, v, bsize) && 0 <= TurnsLeft(t, c) < TurnsLeft(s, c) && r == chain[t.i].addr
      ensures Budget() >= old(Budget())
    {
      assert Seen(SearchPart, 0);
      SearchingTurn(s, c, total, bsize);
      t := Turn(s, bsize);
      ghost var mid := words;
      BlockAt(s.i);
      ScanEndWraps(totalLength, scratch);
      found, r := LookAt(scratch, bsize, s.i, totalLength / PAGE);
      KeptTwice(v, mid, words, Live(c));
      if !found {
        LiveAfterGrow(c, total, Growth(c, bsize));
        assert Underway(t, c, total, v, bsize);
      }
    }

    /** The outcome of a request of n bytes that began with blocks c and words v. */
    ghost predicate Finished(p: nat, c: Chain, total: nat, v: View, n: nat)
      reads this
    {
      && Heap(c, total) && Returned(p, chain, totalLength) == Outcome(c, total, n)
      && PayloadsKept(v, words, Live(c))
    }

    /** The loop ends with its test failing: kmalloc returns NULL. */
    lemma Exhausted(s: Scan, c: Chain, total: nat, v: View, n: nat)
      requires Valid() && Searches(s, c, total, v, n) && !(chain[s.i].addr < ScanEnd(totalLength))
      ensures Finished(0, c, total, v, n)
    {
      assert Seen(SearchPart, 0);
      SearchingTurn(s, c, total, n);
    }

    /** kmalloc, for a request whose search ends. */
    method Kmalloc(bsize: Word) returns (p: Word)
      requires Valid() && Requestable(chain, totalLength, AlignBlock(bsize))
      requires !Diverges(chain, totalLength, AlignBlock(bsize)) && AffordsGrowth(AlignBlock(bsize))
      modifies this, vm.phys, vm.bitmap.ptr
      ensures Valid() && Finished(p, old(chain), old(totalLength), old(words), AlignBlock(bsize))
      ensures p != 0 ==> Granted(p, bsize, old(chain), chain)
      ensures Budget() >= old(Budget())
    {
      ghost var c, v, total := chain, words, totalLength;
      var size := AlignBlock(bsize);
      if Outcome(c, total, size).p != 0 {
        RequestGranted(c, total, bsize);
      }
      ghost var s := Looking(0, chain, totalLength);
      BlockAt(0);
      assert Underway(s, c, total, v, size);
      var scratch := firstFree;
      while scratch < (head + HEADER * totalLength) % WRAP && scratch != 0
        invariant Valid() && head == HEAP_BASE
        invariant Searches(s, c, total, v, size) && scratch == chain[s.i].addr && Budget() >= old(Budget())
        decreases TurnsLeft(s, c)
      {
        var found, r;
        found, r, s := Advance(scratch, size, s, c, total, v);
        if found {
          return r;
        }
        scratch := r;
        HeadIsBase();
      }
      InBlocks(s.i);
      Exhausted(s, c, total, v, size);
      return 0;
    }

    /** kmalloc for the requests whose need wraps around to zero, which every free block exceeds that is not
        empty.  The first such block is cut so that the new header falls on its own: what is returned is shorter
        than the request, its header is linked to itself with the size 0xFFFFFFF0 and marked free, and the
        words are no longer those of any chain. */
    method KmallocWrapping(bsize: Word) returns (p: Word, ghost k: nat)
      requires Valid() && WRAP - 32 < bsize <= WRAP - 16
      modifies this`words, vm.phys
      ensures totalLength >= SCAN_LIMIT ==> p == 0 && Valid() && words == old(words)
      ensures totalLength < SCAN_LIMIT ==> k < |chain| && FirstRoomy(k) && p == chain[k].Payload()
      ensures totalLength < SCAN_LIMIT ==> HeapSpoiled(old(words), k) && chain[k].size < bsize
    {
      var size := AlignBlock(bsize);
      k := 0;
      IsSound();
      BlockAt(0);
      var scratch := firstFree;
      while scratch < (head + HEADER * totalLength) % WRAP && scratch != 0
        invariant Valid() && head == HEAP_BASE && words == old(words)
        invariant k < |chain| - 1 && scratch == chain[k].addr && NoneRoomy(k)
        decreases |chain| - k
      {
        InHeap(k);
        ScanEndWraps(totalLength, scratch);
        var found, r := TurnWrapping(scratch, size, k);
        if found {
          return r, k;
        }
        scratch, k := r, k + 1;
        HeadIsBase();
      }
      InHeap(k);
      ScanEndWraps(totalLength, scratch);
      return 0, k;
    }

    ghost predicate NoneRoomy(k: nat)
      requires k <= |chain|
      reads this
    {
      forall j: nat :: j < k ==> !Roomy(chain[j])
    }

    ghost predicate FirstRoomy(k: nat)
      requires k < |chain|
      reads this
    {
      Roomy(chain[k]) && NoneRoomy(k)
    }

    /** The header of block k has been spoiled, and the words v with it: no chain is left. */
    ghost predicate HeapSpoiled(v: View, k: nat)
      requires k < |chain|
      reads this
    {
      Spoiled(v, words, chain[k].addr) && forall d :: Tiled(d, totalLength) ==> !Represents(words, d)
    }

    /** One turn of the loop for such a request. */
    method TurnWrapping(scratch: Word, size: Word, ghost k: nat) returns (found: bool, r: Word)
      requires Valid() && k < |chain| - 1 && scratch == chain[k].addr && size == WRAP - 16
      modifies this`words, vm.phys
      ensures found == Roomy(chain[k])
      ensures found ==> r == chain[k].Payload() && HeapSpoiled(old(words), k) && chain[k].size < WRAP - 32
      ensures !found ==> Valid() && words == old(words) && k + 1 < |chain| - 1 && r == chain[k + 1].addr
    {
      NotAtTail(k);
      var flags := Get(scratch + FLAGS);
      assert flags % 256 != KMEM_TAIL;
      var length := Get(scratch + SIZE);
      if flags % 256 == KMEM_FREE && length > (size + HEADER) % WRAP {
        SpoilBlock(scratch, size, k);
        return true, scratch + HEADER;
      }
      r := Next(scratch);
      return false, r;
    }

    lemma InHeap(k: nat)
      requires Valid() && k < |chain|
      ensures HEAP_BASE <= chain[k].addr < HEAP_BASE + totalLength && 0 < totalLength <= HEAP_LIMIT
    {
      BlockAt(k);
      Region();
      Inside(chain, totalLength, k);
    }

    /** What the header of a block before the tail holds; the block before the tail has room. */
    lemma NotAtTail(k: nat)
      requires Valid() && k < |chain| - 1
      ensures InRegionHeader(chain[k].addr) && HasHeader(words, chain[k].addr) && chain[k].End() < WORD_LIMIT
      ensures HEAP_BASE <= chain[k].addr < HEAP_BASE + totalLength && 0 < totalLength <= HEAP_LIMIT
      ensures words[chain[k].addr + FLAGS] % 256 == Flag(chain[k].kind) && chain[k].kind != Tail
      ensures words[chain[k].addr + SIZE] == chain[k].size && words[chain[k].addr + NEXT] == chain[k + 1].addr
      ensures !Roomy(chain[k]) ==> k + 1 < |chain| - 1
    {
      BlockAt(k);
      InHeap(k);
    }

    method SpoilBlock(scratch: Word, size: Word, ghost k: nat)
      requires Valid() && k < |chain| - 1 && scratch == chain[k].addr && Roomy(chain[k]) && size == WRAP - 16
      modifies this`words, vm.phys
      ensures HeapSpoiled(old(words), k) && chain[k].size < WRAP - 32
    {
      ghost var v := words;
      BlockAt(k);
      BlockAt(k + 1);
      assert Represents(v, chain) by {
        assert Seen(BlocksPart, 0);
      }
      assert Joined(chain, k);
      SpoilHeader(scratch, size, chain[k].size, chain[k + 1].addr);
      Region();
      SpoiledForGood(v, words, chain, totalLength, k);
    }

    /** The stores of the cut, which fall on one header. */
    method SpoilHeader(scratch: Word, size: Word, ghost length: nat, ghost d: Word)
      requires Ready() && size == WRAP - 16 && InRegionHeader(scratch) && scratch + FLAGS < WORD_LIMIT && length > 0
      requires InRegion(d) && scratch + HEADER <= d && d in words && words[d] == scratch
      requires HasHeader(words, scratch) && words[scratch + SIZE] == length && Links(scratch, d)
      modifies this`words, vm.phys
      ensures Ready() && HeaderAt(words, scratch, scratch, scratch, size, Flag(Free))
      ensures SameOutside(old(words), words, scratch, scratch + FLAGS)
    {
      ghost var v := words;
      var next := Next(scratch);
      ghost var f0, f1 := StoreCut(scratch, size, next, scratch, length);
      SpoilingStores(v, words, scratch, d, length, size, f0, f1);
    }

    lemma HeadIsBase()
      requires Valid()
      ensures head == HEAP_BASE
    {
      assert Seen(BlocksPart, 0);
    }

    lemma InBlocks(k: nat)
      requires Valid() && k < |chain|
      ensures chain[k].addr != 0
    {
      BlockAt(k);
    }

    // ----- kfree -----

    /** The words that link two blocks and the one after them. */
    ghost predicate Triple(a: nat, s0: nat, b: nat, s1: nat, d: nat)
      reads this
    {
      && a + HEADER + s0 == b && b + HEADER + s1 == d && d < WORD_LIMIT
      && InRegionHeader(a) && InRegionHeader(b) && InRegion(d)
      && Links(a, b) && Links(b, d)
      && a + SIZE in words && b + SIZE in words && words[a + SIZE] == s0 && words[b + SIZE] == s1
    }

    lemma Neighbours(k: nat)
      requires Ready() && Linked() && k + 2 < |chain|
      ensures Triple(chain[k].addr, chain[k].size, chain[k + 1].addr, chain[k + 1].size, chain[k + 2].addr)
    {
      BlockInRegion(k);
      BlockInRegion(k + 1);
      BlockInRegion(k + 2);
      assert Joined(chain, k) && Joined(chain, k + 1);
      assert Header(words, chain, k) && Header(words, chain, k + 1);
    }

    /** The block after the next one. */
    method NextButOne(scratch: Word, ghost b: nat, ghost d: nat) returns (after: Word)
      requires Ready() && scratch + HEADER <= b && b + HEADER <= d < WORD_LIMIT
      requires InRegionHeader(scratch) && InRegionHeader(b) && Links(scratch, b) && Links(b, d)
      ensures after == d
    {
      var next := Next(scratch);
      after := Next(next);
    }

    /** The block at a is not the tail, and its header leads to b. */
    ghost predicate Links(a: nat, b: nat)
      reads this
    {
      a + NEXT in words && a + FLAGS in words && words[a + NEXT] == b && words[a + FLAGS] % 256 != KMEM_TAIL
    }

    /** The next block is swallowed. */
    method StoreSwallow(scratch: Word, ghost s0: nat, ghost b: nat, ghost s1: nat, ghost d: nat)
      requires Ready() && Triple(scratch, s0, b, s1, d)
      modifies this`words, vm.phys
      ensures Ready()
      ensures words == old(words)[d := scratch][scratch + SIZE := s0 + HEADER + s1][scratch + NEXT := d]
    {
      var after := NextButOne(scratch, b, d);
      Put(after, scratch);
      var next := Next(scratch);
      AddSize(scratch, next, s0, s1);
      after := NextButOne(scratch, b, d);
      Put(scratch + NEXT, after);
    }

    /** The size of another block, with its header, is added to a block's own. */
    method AddSize(a: Word, other: Word, ghost s0: nat, ghost s1: nat)
      requires Ready() && a + FLAGS < WORD_LIMIT && other + FLAGS < WORD_LIMIT && s0 + HEADER + s1 < WORD_LIMIT
      requires InRegion(a + SIZE) && InRegion(other + SIZE)
      requires a + SIZE in words && other + SIZE in words && words[a + SIZE] == s0 && words[other + SIZE] == s1
      modifies this`words, vm.phys
      ensures Ready() && words == old(words)[a + SIZE := s0 + HEADER + s1]
    {
      var more := Get(other + SIZE);
      var size := Get(a + SIZE);
      Put(a + SIZE, size + (more + HEADER));
    }

    /** The block is swallowed by the one before it. */
    method StoreSwallowed(previous: Word, scratch: Word, ghost s0: nat, ghost s1: nat, ghost d: nat)
      requires Ready() && Triple(previous, s0, scratch, s1, d)
      modifies this`words, vm.phys
      ensures Ready()
      ensures words == old(words)[previous + SIZE := s0 + HEADER + s1][d := previous][previous + NEXT := d]
    {
      AddSize(previous, scratch, s0, s1);
      var next := Next(scratch);
      Put(next, previous);
      next := Next(scratch);
      Put(previous + NEXT, next);
    }

    method SwallowNextWords(scratch: Word, ghost k: nat)
      requires Ready() && Linked() && k + 2 < |chain| && scratch == chain[k].addr
      modifies this`words, vm.phys
      ensures Ready() && Represents(words, Merge(chain, k))
      ensures OnlyAt(old(words), words, scratch + NEXT, scratch + SIZE, chain[k + 2].addr)
    {
      ghost var c, v := chain, words;
      Neighbours(k);
      StoreSwallow(scratch, c[k].size, c[k + 1].addr, c[k + 1].size, c[k + 2].addr);
      MergeStores(v, words, c, totalLength, k);
    }

    method SwallowedWords(previous: Word, scratch: Word, ghost k: nat)
      requires Ready() && Linked() && k + 2 < |chain| && previous == chain[k].addr && scratch == chain[k + 1].addr
      modifies this`words, vm.phys
      ensures Ready() && Represents(words, Merge(chain, k))
      ensures OnlyAt(old(words), words, previous + NEXT, previous + SIZE, chain[k + 2].addr)
    {
      ghost var c, v := chain, words;
      Neighbours(k);
      StoreSwallowed(previous, scratch, c[k].size, c[k + 1].size, c[k + 2].addr);
      MergeStores(v, words, c, totalLength, k);
    }

    method SwallowNext(scratch: Word, ghost k: nat)
      requires Ready() && Linked() && k + 2 < |chain| && scratch == chain[k].addr
      modifies this`words, this`chain, vm.phys
      ensures Ready() && Linked() && chain == Merge(old(chain), k)
      ensures OnlyAt(old(words), words, scratch + NEXT, scratch + SIZE, old(chain)[k + 2].addr)
    {
      MergeTiled(chain, totalLength, k);
      SwallowNextWords(scratch, k);
      chain := Merge(chain, k);
    }

    method SwallowedByPrevious(previous: Word, scratch: Word, ghost k: nat)
      requires Ready() && Linked() && k + 2 < |chain| && previous == chain[k].addr && scratch == chain[k + 1].addr
      modifies this`words, this`chain, vm.phys
      ensures Ready() && Linked() && chain == Merge(old(chain), k)
      ensures OnlyAt(old(words), words, previous + NEXT, previous + SIZE, old(chain)[k + 2].addr)
    {
      MergeTiled(chain, totalLength, k);
      SwallowedWords(previous, scratch, k);
      chain := Merge(chain, k);
    }

    method MarkFree(scratch: Word, ghost k: nat)
      requires Ready() && Linked() && k + 1 < |chain| && scratch == chain[k].addr
      modifies this`words, this`chain, vm.phys
      ensures Ready() && Linked() && chain == SetKind(old(chain), k, Free)
      ensures OnlyAt(old(words), words, scratch + FLAGS, scratch + FLAGS, scratch + FLAGS)
      ensures scratch + FLAGS in words && words[scratch + FLAGS] % 256 == KMEM_FREE
    {
      ghost var c, v := chain, words;
      BlockInRegion(k);
      ghost var f := PutByte(scratch + FLAGS, KMEM_FREE);
      SetKindStored(v, words, c, totalLength, k, Free);
      SetKindTiled(c, totalLength, k, Free);
      chain := SetKind(c, k, Free);
    }

    /** The next block is swallowed, and then this one is marked free. */
    method SwallowAndFree(scratch: Word, ghost k: nat)
      requires Ready() && Linked() && k + 2 < |chain| && scratch == chain[k].addr
      modifies this`words, this`chain, vm.phys
      ensures Ready() && Linked() && chain == SetKind(Merge(old(chain), k), k, Free)
      ensures OnlyHeaders(old(words), words, old(chain))
      ensures scratch + FLAGS in words && words[scratch + FLAGS] % 256 == KMEM_FREE
    {
      ghost var c, v := chain, words;
      HeaderOf(c, k);
      HeaderOf(c, k + 2);
      SwallowNext(scratch, k);
      ghost var mid := words;
      OnlyHeadersNext(v, v, mid, c, scratch + NEXT, scratch + SIZE, c[k + 2].addr);
      MarkFree(scratch, k);
      OnlyHeadersNext(v, mid, words, c, scratch + FLAGS, scratch + FLAGS, scratch + FLAGS);
    }

    /** So it is if the next block is free. */
    method AbsorbNext(scratch: Word, ghost k: nat)
      requires Ready() && Linked() && k + 2 < |chain| && scratch == chain[k].addr && chain[k].kind == Used
      modifies this`words, this`chain, vm.phys
      ensures Ready() && Linked() && chain == WithNext(old(chain), k)
      ensures OnlyHeaders(old(words), words, old(chain))
      ensures scratch + FLAGS in words
      ensures words[scratch + FLAGS] % 256 == if old(chain)[k + 1].kind == Free then KMEM_FREE else KMEM_USED
    {
      Neighbours(k);
      assert Header(words, chain, k) && Header(words, chain, k + 1);
      var next := Next(scratch);
      var flags := Get(next + FLAGS);
      if flags % 256 == KMEM_FREE && flags % 256 != KMEM_TAIL {
        SwallowAndFree(scratch, k);
      }
    }

    /** The block is swallowed by the one before it, if there is one and it is free. */
    method JoinPrevious(previous: Word, scratch: Word, ghost k: nat)
      requires Ready() && Linked() && k + 1 < |chain| && scratch == chain[k].addr && previous == PrevAddr(chain, k)
      requires k == 0 || chain[k - 1].kind != Tail
      modifies this`words, this`chain, vm.phys
      ensures Ready() && Linked() && chain == WithPrevious(old(chain), k)
      ensures OnlyAt(old(words), words, previous + NEXT, previous + SIZE, old(chain)[k + 1].addr)
    {
      PreviousFlag(k);
      var flags := Get(previous + FLAGS);
      if flags % 256 == KMEM_FREE && previous != scratch {
        SwallowedByPrevious(previous, scratch, k - 1);
      }
    }

    /** What the previous pointer of block k leads to, which is block k itself for the first block. */
    lemma PreviousFlag(k: nat)
      requires Ready() && Linked() && k + 1 < |chain|
      ensures var p := PrevAddr(chain, k);
              && InRegionHeader(p) && p + FLAGS < WORD_LIMIT && p + FLAGS in words
              && (p == chain[k].addr <==> k == 0)
              && (k > 0 ==> (words[p + FLAGS] % 256 == KMEM_FREE <==> chain[k - 1].kind == Free))
    {
      var j := if k > 0 then k - 1 else k;
      BlockInRegion(j);
      assert Header(words, chain, j);
      if k > 0 {
        Ordered(chain, totalLength, k - 1, k);
      }
    }

    /** A block that is still marked used is marked free; when it has been swallowed, its header is by now
        part of a payload. */
    method MarkIfUsed(scratch: Word, ghost k: nat, ghost stale: bool)
      requires Ready() && Linked() && k + 1 < |chain| && InRegionHeader(scratch) && scratch + FLAGS < WORD_LIMIT
      requires if stale then chain[k].Payload() <= scratch && scratch + HEADER <= chain[k].End() else scratch == chain[k].addr
      requires scratch + FLAGS in words
      modifies this`words, this`chain, vm.phys
      ensures Ready() && Linked() && scratch + FLAGS in words && words[scratch + FLAGS] % 256 != KMEM_USED
      ensures var used := old(words[scratch + FLAGS]) % 256 == KMEM_USED;
              chain == if used && !stale then SetKind(old(chain), k, Free) else old(chain)
      ensures OnlyAt(old(words), words, scratch + FLAGS, scratch + FLAGS, scratch + FLAGS)
    {
      ghost var c, v := chain, words;
      var flags := Get(scratch + FLAGS);
      if flags % 256 == KMEM_USED {
        ghost var f := PutByte(scratch + FLAGS, KMEM_FREE);
        chain := if stale then c else SetKind(c, k, Free);
        FlagStored(v, words, c, chain, totalLength, k, stale, scratch + FLAGS);
      }
    }

    /** The block swallows the next one and is swallowed by the previous one, where they are free. */
    method Coalesce(scratch: Word, previous: Word, ghost k: nat)
      requires Ready() && Linked() && k + 2 < |chain| && chain[k].kind == Used
      requires scratch == chain[k].addr && previous == PrevAddr(chain, k)
      modifies this`words, this`chain, vm.phys
      ensures Ready() && Linked() && k < |WithNext(old(chain), k)| && chain == WithPrevious(WithNext(old(chain), k), k)
      ensures OnlyHeaders(old(words), words, old(chain))
      ensures scratch + FLAGS in words
      ensures words[scratch + FLAGS] % 256 == if old(chain)[k + 1].kind == Free then KMEM_FREE else KMEM_USED
    {
      ghost var c, v := chain, words;
      NextJoined(c, totalLength, k);
      HeadersAround(c, totalLength, k);
      AbsorbNext(scratch, k);
      ghost var d, mid := chain, words;
      JoinPrevious(previous, scratch, k);
      OnlyHeadersNext(v, mid, words, c, previous + NEXT, previous + SIZE, d[k + 1].addr);
    }

    /** The last if: what has become of chain c without its used block k. */
    method FinishFree(scratch: Word, ghost c: Chain, ghost k: nat)
      requires Ready() && Linked() && InRegionHeader(scratch) && scratch + FLAGS < WORD_LIMIT && scratch + FLAGS in words
      requires Tiled(c, totalLength) && k + 2 < |c| && c[k].kind == Used && scratch == c[k].addr
      requires k < |WithNext(c, k)| && chain == WithPrevious(WithNext(c, k), k)
      requires words[scratch + FLAGS] % 256 == if c[k + 1].kind == Free then KMEM_FREE else KMEM_USED
      modifies this`words, this`chain, vm.phys
      ensures Ready() && Linked() && chain == Release(c, totalLength, k)
      ensures OnlyAt(old(words), words, scratch + FLAGS, scratch + FLAGS, scratch + FLAGS)
      ensures scratch + FLAGS in words && words[scratch + FLAGS] % 256 != KMEM_USED
    {
      ghost var merged := k > 0 && c[k - 1].kind == Free;
      ReleaseInSteps(c, totalLength, k);
      Whereabouts(c, totalLength, k);
      MarkIfUsed(scratch, if merged then k - 1 else k, merged);
    }

    /** The body of kfree for the used block k. */
    method FreeBlock(scratch: Word, previous: Word, ghost k: nat)
      requires Ready() && Linked() && k + 2 < |chain| && chain[k].kind == Used
      requires scratch == chain[k].addr && previous == PrevAddr(chain, k)
      modifies this`words, this`chain, vm.phys
      ensures Ready() && Linked() && chain == Release(old(chain), totalLength, k)
      ensures OnlyHeaders(old(words), words, old(chain))
      ensures scratch + FLAGS in words && words[scratch + FLAGS] % 256 != KMEM_USED
    {
      ghost var c, v := chain, words;
      BlockInRegion(k);
      HeaderOf(c, k);
      Coalesce(scratch, previous, k);
      ghost var mid := words;
      FinishFree(scratch, c, k);
      OnlyHeadersNext(v, mid, words, c, scratch + FLAGS, scratch + FLAGS, scratch + FLAGS);
    }

    /** kfree */
    method Kfree(ptr: Word)
      requires Valid() && HEADER <= ptr && InRegionHeader(ptr - HEADER)
      requires MarkedUsed(words, ptr - HEADER) ==> LiveAt(chain, ptr - HEADER)
      modifies this`words, this`chain, vm.phys
      ensures Valid() && Heap(old(chain), totalLength)
      ensures chain == FreeAt(old(chain), totalLength, ptr - HEADER)
      ensures PayloadsKept(old(words), words, Live(old(chain)))
      ensures !MarkedUsed(words, ptr - HEADER)
      ensures !old(MarkedUsed(words, ptr - HEADER)) ==> chain == old(chain) && words == old(words)
    {
      var scratch := ptr - HEADER;
      var previous := Get(scratch);
      var flags := Get(scratch + FLAGS);
      if flags % 256 == KMEM_USED {
        ghost var k: nat :| k < |chain| && chain[k].kind == Used && chain[k].addr == scratch;
        BlockAt(k);
        FreeLive(scratch, previous, k);
      } else {
        NothingLive(scratch);
      }
    }

    /** The block is live. */
    method FreeLive(scratch: Word, previous: Word, ghost k: nat)
      requires Valid() && k < |chain| && chain[k].kind == Used && chain[k].addr == scratch && previous == PrevAddr(chain, k)
      modifies this`words, this`chain, vm.phys
      ensures Valid() && Heap(old(chain), totalLength) && chain == FreeAt(old(chain), totalLength, scratch)
      ensures PayloadsKept(old(words), words, Live(old(chain))) && !MarkedUsed(words, scratch)
    {
      ghost var c, v := chain, words;
      assert Seen(BlocksPart, 0);
      FreeAtIsRelease(c, totalLength, k);
      ReleaseHeap(c, totalLength, k);
      FreeBlock(scratch, previous, k);
      KeptByHeaders(v, words, c, totalLength);
    }

    /** No block is. */
    lemma NothingLive(scratch: nat)
      requires Valid() && !MarkedUsed(words, scratch)
      ensures Heap(chain, totalLength) && chain == FreeAt(chain, totalLength, scratch)
    {
      assert Seen(BlocksPart, 0);
      LiveIsMarked(words, chain, scratch);
      FreeAtNothing(chain, totalLength, scratch);
    }

    /** A caller's store into memory it was given: the heap stands, and no other word changes. */
    method StorePayload(a: Word, w: Word)
      requires Valid() && a in words && InPayload(chain, a)
      modifies this`words, vm.phys
      ensures Valid() && words == old(words)[a := w]
    {
      ghost var b :| b in Live(chain) && b.Payload() <= a < b.End();
      ghost var k: nat :| k < |chain| && chain[k] == b;
      ghost var v := words;
      Region();
      assert Seen(BlocksPart, 0);
      Put(a, w);
      PayloadStored(v, words, chain, totalLength, k, a);
      assert Linked() && Coalesced(chain);
    }

    // ----- What holds between any two calls -----

    /** Every page of the heap is mapped, to a used frame that is neither the directory's nor a table's nor
        one of the bitmap's. */
    lemma HeapIsMapped(p: nat)
      requires Valid() && p < totalLength / PAGE
      ensures p < HEAP_PAGES && PageFrame(vm.Mem(), vm.cr3, p).Some?
      ensures var f := PageFrame(vm.Mem(), vm.cr3, p).value;
              f in vm.bitmap.Used() && OffTables(vm.Mem(), vm.cr3, f) && f !in vm.bitmap.Home()
    {
      assert Seen(MemoryPart, 0);
    }

    /** No two pages of the heap are on one frame. */
    lemma HeapMappedApart(p: nat, q: nat)
      requires Valid() && p < q < totalLength / PAGE
      ensures q < HEAP_PAGES && PageFrame(vm.Mem(), vm.cr3, p) != PageFrame(vm.Mem(), vm.cr3, q)
    {
      assert Seen(MemoryPart, 0);
    }

    /** Every frame used when the heap was made is still used; those that hold no table have not been written to
        since, have not become tables, and no page of the heap is on them. */
    lemma KeptFramesUntouched()
      requires Valid()
      ensures begun <= vm.bitmap.Used()
      ensures WordsKept(boot, vm.Mem(), Kept()) && Reserved(vm.Mem(), vm.cr3, vm.bitmap.Used(), Kept())
      ensures totalLength / PAGE <= HEAP_PAGES && forall p: nat :: p < totalLength / PAGE ==>
                PageFrame(vm.Mem(), vm.cr3, p).Some? && PageFrame(vm.Mem(), vm.cr3, p).value !in Kept()
    {
      assert Seen(MemoryPart, 0);
    }

    /** No store made since the heap was made has reached the frames that the bitmap lies in, and these are
        used, hold no table and are still mapped to themselves. */
    lemma BitmapFramesUntouched()
      requires Valid()
      ensures WordsKept(boot, vm.Mem(), vm.bitmap.Home())
      ensures Reserved(vm.Mem(), vm.cr3, vm.bitmap.Used(), vm.bitmap.Home()) && InPlace(vm.Mem(), vm.cr3, vm.bitmap.Home())
    {
      assert Seen(MemoryPart, 0);
    }

    /** The word at address a, read through the page tables. */
    ghost function ReadWord(a: Word): Option<Word>
      requires vm.phys.Length == WORDS
      reads vm.phys
    {
      var c := Access(vm.Mem(), vm.cr3, a);
      if c.Some? then Some(Read(vm.Mem(), c.value)) else None
    }

    /** The words of the heap region are those of memory. */
    lemma WordsInMemory(a: Word)
      requires Valid() && a in words
      ensures ReadWord(a) == Some(words[a])
    {
      assert Seen(MemoryPart, 0);
      HousedWord(vm.Mem(), vm.cr3, vm.bitmap.Used(), totalLength, words, a);
    }

    /** And they are the headers of the chain: prev and next are inverse, the first block is its own
        predecessor and the tail its own successor; each block begins 16 bytes after the payload before it
        would, at 0xD0000000 the first. */
    lemma HeadersInWords(k: nat)
      requires Valid() && k < |chain|
      ensures var a := chain[k].addr;
              && a in words && a + 4 in words && a + 8 in words && a + 12 in words
              && words[a] == chain[if k == 0 then 0 else k - 1].addr
              && words[a + 4] == chain[if k == |chain| - 1 then k else k + 1].addr
              && words[a + 8] == chain[k].size
              && words[a + 12] % 256 == match chain[k].kind case Free => 0x00 case Used => 0x01 case Tail => 0x81
      ensures chain[0].addr == 0xD000_0000 && (k + 1 < |chain| ==> chain[k + 1].addr == chain[k].addr + 16 + chain[k].size)
    {
      BlockAt(k);
      assert k + 1 < |chain| ==> Joined(chain, k);
    }

    /** No two adjacent blocks are free, and the block before the tail is. */
    lemma ChainIsCoalesced()
      requires Valid()
      ensures |chain| >= 2 && Tiled(chain, totalLength) && chain[|chain| - 2].kind == Free && chain[|chain| - 2].size > 0
      ensures forall i: nat :: i + 1 < |chain| && chain[i].kind == Free ==> chain[i + 1].kind != Free
    {
      assert Seen(BlocksPart, 0);
      forall i: nat | i + 1 < |chain| && chain[i].kind == Free
        ensures chain[i + 1].kind != Free
      {
        assert Apart(chain, i);
      }
    }

    lemma IsSound()
      requires Valid()
      ensures Sound(Snapshot())
    {
      Region();
      assert Seen(BlocksPart, 0);
    }

    /** The payload of a live block that is not empty begins with a word of the region. */
    lemma InRegionOf(b: Block)
      requires Valid() && b in Live(chain) && b.size > 0
      ensures b.Payload() in words && InPayload(chain, b.Payload())
    {
      var k: nat :| k < |chain| && chain[k] == b;
      Region();
      assert Seen(BlocksPart, 0);
      PayloadsApart(chain, totalLength, k, k);
      assert b.Payload() % 4 == 0 by {
        HeaderAligned(b.Payload());
      }
    }

    /** A pointer to a live block may be passed to kfree. */
    lemma Freeable(p: nat, n: nat)
      requires Valid() && p >= HEADER && Block(p - HEADER, n, Used) in Live(chain)
      ensures InRegionHeader(p - HEADER) && LiveAt(chain, p - HEADER) && MarkedUsed(words, p - HEADER)
    {
      var k: nat :| k < |chain| && chain[k] == Block(p - HEADER, n, Used);
      BlockAt(k);
    }
  }
}
