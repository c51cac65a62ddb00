/** Start-up: from the memory the boot loader leaves to a heap whose invariant holds. */
module Kernel {
  import opened Mmu
  import opened Tables
  import opened Boot
  import opened Frames
  import opened Regions
  import opened FrameBitmaps
  import opened Paging
  import opened HeapChain
  import opened HeapScan
  import opened HeapStore
  import opened HeapPages
  import opened HeapRuns
  import opened HeapTraces
  import opened Kmem

  /** Frame f is bound to be free once the bitmap has been made. */
  ghost predicate StaysFree(f: nat, before: set<nat>, regions: seq<Region>, marked: set<nat>) {
    f !in before && f !in marked && !TouchedBy(regions, f, false)
  }

  /** What the boot loader leaves: a cleared page directory which lies, with the first page table, in the
      kernel image, which begins at a page boundary; a bitmap with room for all it is told of, within the memory
      that is mapped to itself, in frames that are marked and apart from these two; and spare frames. */
  ghost predicate Bootable(phys: array<Word>, pd: Frame, pt: Frame, memory: array<bv8>, loc: nat, size: nat,
                           regions: seq<Region>, kernelStart: nat, kernelEnd: nat, spare: set<nat>)
    reads phys, memory
  {
    var marked := MarkedFrames(kernelStart, kernelEnd, loc, size);
    && phys.Length == WORDS && pd != pt && phys as object != memory as object
    && (forall i: nat :: i < 1024 ==> Entry(phys[..], pd, i) == 0)
    && LOW_BYTES <= memory.Length && 8 * memory.Length <= FRAME_LIMIT
    && AllInBounds(regions, 8 * memory.Length)
    && kernelEnd / 0x1000 < 8 * memory.Length && (loc + size) / 0x1000 < 8 * memory.Length
    && kernelStart % 0x1000 == 0
    && kernelStart / 0x1000 <= pd <= kernelEnd / 0x1000 && kernelStart / 0x1000 <= pt <= kernelEnd / 0x1000
    && RangeFrames(loc, memory.Length) <= marked - {pd, pt} && loc + memory.Length <= 0x40_0000
    && forall f :: f in spare ==> f < 8 * memory.Length && StaysFree(f, UsedFrames(memory[..]), regions, marked)
  }

  /** What create_bitmap leaves used: what the regions leave, and the marks. */
  ghost function FirstUsed(before: set<nat>, regions: seq<Region>, guard: Guard, kernelStart: nat, kernelEnd: nat,
                           loc: nat, size: nat): set<nat>
  {
    RegionsApplied(before, regions, guard) + MarkedFrames(kernelStart, kernelEnd, loc, size)
  }

  /** The frames in used are in use, and apart from those of the two tables made at boot they have been left alone
      since memory was m: no store has reached them, they hold no table, and no page of the heap is on them. */
  ghost predicate LeftAlone(heap: KernelHeap, m: Memory, used: set<nat>, pd: Frame, pt: Frame)
    requires heap.vm.phys.Length == WORDS
    reads heap, heap.vm, heap.vm.phys, heap.vm.bitmap, heap.vm.bitmap.ptr
  {
    var n, plain := heap.vm.Mem(), used - {pd, pt};
    && used <= heap.vm.bitmap.Used()
    && WordsKept(m, n, plain) && (forall f :: f in plain ==> OffTables(n, heap.vm.cr3, f))
    && heap.totalLength / PAGE <= HEAP_PAGES
    && forall p: nat :: p < heap.totalLength / PAGE ==>
         PageFrame(n, heap.vm.cr3, p).Some? && PageFrame(n, heap.vm.cr3, p).value !in plain
  }

  /** What start-up fixes for good: the frames used, and the words of those that hold no table. */
  ghost predicate StartedFrom(heap: KernelHeap, m: Memory, used: set<nat>, pd: Frame, pt: Frame) {
    heap.begun == used && heap.vm.cr3 == pd && heap.Kept() == used - {pd, pt} && WordsKept(m, heap.boot, used - {pd, pt})
  }

  /** It holds between any two calls, from then on. */
  lemma StaysLeftAlone(heap: KernelHeap, m: Memory, used: set<nat>, pd: Frame, pt: Frame)
    requires heap.Valid() && StartedFrom(heap, m, used, pd, pt)
    ensures LeftAlone(heap, m, used, pd, pt)
  {
    heap.KeptFramesUntouched();
  }

  /** Of the frames not in used, the lowest has become the table of the heap's first pages, and the next its first
      page; no others are in use. */
  ghost predicate TookTwo(heap: KernelHeap, used: set<nat>)
    requires heap.vm.phys.Length == WORDS
    reads heap, heap.vm, heap.vm.phys, heap.vm.bitmap, heap.vm.bitmap.ptr
  {
    var t, page := FrameOf(Entry(heap.vm.Mem(), heap.vm.cr3, 0xD000_0000 / 0x40_0000)), PageFrame(heap.vm.Mem(), heap.vm.cr3, 0);
    && page.Some?
    && IsLowestFree(used, 0, heap.vm.bitmap.Limit(), t) && IsLowestFree(used + {t}, 0, heap.vm.bitmap.Limit(), page.value)
    && heap.vm.bitmap.Used() == used + {t} + {page.value}
  }

  /** init_paging and create_bitmap. */
  method MakeSpace(phys: array<Word>, pd: Frame, pt: Frame, memory: array<bv8>, loc: nat, size: nat,
                   regions: seq<Region>, kernelStart: nat, kernelEnd: nat, guard: Guard, ghost spare: set<nat>)
    returns (vm: AddressSpace)
    requires Bootable(phys, pd, pt, memory, loc, size, regions, kernelStart, kernelEnd, spare)
    modifies phys, memory
    ensures vm.Valid() && vm.phys == phys && vm.bitmap.ptr == memory && vm.cr3 == pd && fresh(vm) && fresh(vm.bitmap)
    ensures vm.bitmap.lastChecked == 0 && Booted(phys[..], pd, pt) && InPlace(phys[..], pd, vm.bitmap.Home())
    ensures vm.bitmap.Used() == FirstUsed(UsedFrames(old(memory[..])), regions, guard, kernelStart, kernelEnd, loc, size)
    ensures WordsKept(old(phys[..]), phys[..], vm.bitmap.Used() - {pd, pt})
    ensures vm.bitmap.Available() >= |spare|
    ensures forall f: nat :: ReservedBy(regions, f) ==> f in vm.bitmap.Used()
    ensures forall f: nat :: f < 256 || kernelStart / 0x1000 <= f <= kernelEnd / 0x1000 ==> f in vm.bitmap.Used()
  {
    InitPaging(phys, pd, pt);
    var bitmap := new FrameBitmap.Create(memory, loc, size, regions, kernelStart, kernelEnd, guard);
    forall f: nat | kernelStart / 0x1000 <= f <= kernelEnd / 0x1000
      ensures f in bitmap.Used()
    {
      AlignedRangeMarked(kernelStart, kernelEnd, f);
    }
    BootTables(phys[..], pd, pt, bitmap.Used(), bitmap.Home());
    LowFramesInPlace(phys[..], pd, pt, bitmap.Home());
    SpareIsFindable(bitmap.Used(), bitmap.Limit(), spare);
    vm := new AddressSpace(phys, pd, bitmap);
  }

  /** init_paging, create_bitmap and kmem_init, in this order; of the frames in spare, at most two are taken. */
  method StartUp(phys: array<Word>, pd: Frame, pt: Frame, memory: array<bv8>, loc: nat, size: nat,
                 regions: seq<Region>, kernelStart: nat, kernelEnd: nat, guard: Guard, ghost spare: set<nat>)
    returns (heap: KernelHeap)
    requires Bootable(phys, pd, pt, memory, loc, size, regions, kernelStart, kernelEnd, spare)
    requires |spare| >= 2
    modifies phys, memory
    ensures heap.Valid() && heap.vm.phys == phys && heap.vm.bitmap.ptr == memory && heap.vm.cr3 == pd
    ensures heap.totalLength == PAGE && heap.chain == Fresh(PAGE)
    ensures heap.vm.bitmap.Available() >= |spare| - 2 && fresh(heap)
    ensures var used := FirstUsed(UsedFrames(old(memory[..])), regions, guard, kernelStart, kernelEnd, loc, size);
            TookTwo(heap, used) && StartedFrom(heap, old(phys[..]), used, pd, pt) && LeftAlone(heap, old(phys[..]), used, pd, pt)
    ensures heap.begun == RegionsApplied(UsedFrames(old(memory[..])), regions, guard)
                          + MarkedFrames(kernelStart, kernelEnd, loc, size)
    ensures forall f: nat :: ReservedBy(regions, f) ==> f in heap.begun
    ensures forall f: nat :: f < 256 || kernelStart / 0x1000 <= f <= kernelEnd / 0x1000 ==> f in heap.begun
  {
    ghost var m := phys[..];
    var vm := MakeSpace(phys, pd, pt, memory, loc, size, regions, kernelStart, kernelEnd, guard, spare);
    ghost var used := vm.bitmap.Used();
    BootPlain(phys[..], pd, pt, used);
    heap := new KernelHeap(vm);
    TookThem(heap, used);
    StaysLeftAlone(heap, m, used, pd, pt);
  }

  lemma TookThem(heap: KernelHeap, used: set<nat>)
    requires heap.vm.phys.Length == WORDS && PageFrame(heap.vm.Mem(), heap.vm.cr3, 0).Some? && heap.vm.bitmap.lastChecked == 0
    requires heap.Took(false, used, FrameOf(Entry(heap.vm.Mem(), heap.vm.cr3, 832)),
                       PageFrame(heap.vm.Mem(), heap.vm.cr3, 0).value)
    ensures TookTwo(heap, used)
  {
  }

  /** At boot all used frames but two hold no table. */
  lemma BootPlain(m: Memory, pd: Frame, pt: Frame, used: set<nat>)
    requires Booted(m, pd, pt)
    ensures PlainFrames(m, pd, used) == used - {pd, pt} && !Present(Entry(m, pd, 832))
  {
    assert Present(Entry(m, pd, 0)) && FrameOf(Entry(m, pd, 0)) == pt;
  }

  lemma LowFramesInPlace(m: Memory, pd: Frame, pt: Frame, home: set<nat>)
    requires Booted(m, pd, pt) && forall f :: f in home ==> f < 1024
    ensures InPlace(m, pd, home)
  {
    forall f: nat | f in home
      ensures Walk(m, pd, f * 0x1000) == Some(Place(f, 0))
    {
      LowFrame(m, pd, pt, f);
    }
  }

  lemma SpareIsFindable(used: set<nat>, limit: nat, spare: set<nat>)
    requires forall f :: f in spare ==> f < limit && f !in used
    ensures |Findable(used, 0, limit)| >= |spare|
  {
    var s := Findable(used, 0, limit);
    assert spare <= s;
    assert |s - spare| == |s| - |spare|;
  }

  /** A live block is given back. */
  method GiveBack(heap: KernelHeap, p: Word, ghost n: nat)
    requires heap.Valid() && p >= HEADER && Block(p - HEADER, n, Used) in Live(heap.chain)
    modifies heap`words, heap`chain, heap.vm.phys
    ensures heap.Valid() && Heap(old(heap.chain), heap.totalLength)
    ensures heap.chain == FreeAt(old(heap.chain), heap.totalLength, p - HEADER)
    ensures Step(old(heap.Snapshot()), Kfree(p), heap.Snapshot())
  {
    heap.Freeable(p, n);
    heap.IsSound();
    heap.Kfree(p);
    heap.IsSound();
  }

  /** A block is asked for and given back: the chain is as before, apart from growth. */
  method MallocAndFree(heap: KernelHeap, bsize: Word)
    requires heap.Valid() && Requestable(heap.chain, heap.totalLength, AlignBlock(bsize))
    requires !Diverges(heap.chain, heap.totalLength, AlignBlock(bsize)) && heap.AffordsGrowth(AlignBlock(bsize))
    modifies heap, heap.vm.phys, heap.vm.bitmap.ptr
    ensures heap.Valid() && Heap(old(heap.chain), old(heap.totalLength))
    ensures heap.chain == GrownFor(old(heap.chain), old(heap.totalLength), AlignBlock(bsize))
  {
    ghost var c, total, n := heap.chain, heap.totalLength, AlignBlock(bsize);
    var p := heap.Kmalloc(bsize);
    ghost var d, after := heap.chain, heap.totalLength;
    RequestAndFree(c, total, n, p, d, after);
    if p != 0 {
      GiveBack(heap, p, n);
    }
  }

  /** A call to the heap, or a store by a caller. */
  method Serve(heap: KernelHeap, call: Call)
    requires heap.Valid() && Proper(heap.Snapshot(), call)
    requires match call
             case Kmalloc(b) => b < WORD_LIMIT && heap.AffordsGrowth(AlignBlock(b))
             case Kfree(p) => p < WORD_LIMIT && heap.InRegionHeader(p - HEADER)
             case Store(a, w) => true
    modifies heap, heap.vm.phys, heap.vm.bitmap.ptr
    ensures heap.Valid() && Step(old(heap.Snapshot()), call, heap.Snapshot())
    ensures heap.Budget() >= old(heap.Budget())
  {
    match call
    case Kmalloc(b) =>
      var p := heap.Kmalloc(b);
      heap.IsSound();
    case Kfree(p) =>
      heap.Kfree(p);
      heap.IsSound();
    case Store(a, w) =>
      heap.Region();
      heap.StorePayload(a, w);
      heap.IsSound();
  }

  lemma FeasibleCall(heap: KernelHeap, call: Call, limit: nat)
    requires heap.Valid() && Proper(heap.Snapshot(), call) && Feasible(heap.Snapshot(), call, limit)
    requires heap.Budget() >= 2 * limit
    ensures match call
            case Kmalloc(b) => b < WORD_LIMIT && heap.AffordsGrowth(AlignBlock(b))
            case Kfree(p) => p < WORD_LIMIT && heap.InRegionHeader(p - HEADER)
            case Store(a, w) => true
  {
    match call
    case Kmalloc(b) =>
      heap.Region();
      heap.BudgetAffords(AlignBlock(b), limit);
    case Kfree(p) => heap.Region();
    case Store(a, w) =>
  }

  /** Any calls that can be served make a run. */
  method ServeAll(heap: KernelHeap, calls: seq<Call>, ghost limit: nat) returns (ghost states: seq<State>)
    requires heap.Valid() && Servable(heap.Snapshot(), calls, limit) && heap.Budget() >= 2 * limit
    modifies heap, heap.vm.phys, heap.vm.bitmap.ptr
    ensures heap.Valid() && Run(states, calls)
    ensures states[0] == old(heap.Snapshot()) && states[|calls|] == heap.Snapshot()
    decreases |calls|
  {
    ghost var s := heap.Snapshot();
    heap.IsSound();
    if calls == [] {
      return [s];
    }
    FeasibleCall(heap, calls[0], limit);
    Serve(heap, calls[0]);
    ghost var t := heap.Snapshot();
    assert Servable(t, calls[1..], limit);
    states := ServeAll(heap, calls[1..], limit);
    RunPrepended(s, calls[0], states, calls[1..]);
    assert calls == [calls[0]] + calls[1..];
    states := [s] + states;
  }

  /** From the boot loader's memory on, any calls that can be served on the fresh heap make a run from it. */
  method BootAndServe(phys: array<Word>, pd: Frame, pt: Frame, memory: array<bv8>, loc: nat, size: nat,
                      regions: seq<Region>, kernelStart: nat, kernelEnd: nat, guard: Guard, ghost spare: set<nat>,
                      calls: seq<Call>, ghost limit: nat)
    returns (heap: KernelHeap, ghost states: seq<State>)
    requires Bootable(phys, pd, pt, memory, loc, size, regions, kernelStart, kernelEnd, spare)
    requires |spare| >= 2 && |spare| * PAGE >= 2 * limit
    requires forall v :: Represents(v, Fresh(PAGE)) && Covers(v, PAGE) ==>
               Servable(State(Fresh(PAGE), PAGE, v), calls, limit)
    modifies phys, memory
    ensures heap.Valid() && Run(states, calls) && states[|calls|] == heap.Snapshot()
    ensures states[0].c == Fresh(PAGE) && states[0].total == PAGE && heap.vm.phys == phys
    ensures var used := FirstUsed(UsedFrames(old(memory[..])), regions, guard, kernelStart, kernelEnd, loc, size);
            StartedFrom(heap, old(phys[..]), used, pd, pt) && LeftAlone(heap, old(phys[..]), used, pd, pt)
  {
    ghost var m, before := phys[..], UsedFrames(memory[..]);
    heap := StartUp(phys, pd, pt, memory, loc, size, regions, kernelStart, kernelEnd, guard, spare);
    heap.IsSound();
    states := ServeAll(heap, calls, limit);
    StaysLeftAlone(heap, m, FirstUsed(before, regions, guard, kernelStart, kernelEnd, loc, size), pd, pt);
  }

  // ----- The calls of kmain -----

  const FIRST := 0x2000   // bytes of the first request
  const SECOND := 16      // those of the second, an int, rounded up

  /** The first request on a fresh heap grows it by two pages and takes the front of its only block. */
  lemma FirstRequest()
    ensures Requestable(Fresh(PAGE), PAGE, FIRST) && !Diverges(Fresh(PAGE), PAGE, FIRST)
    ensures NoneFits(Fresh(PAGE), FIRST) && PagesRequired(Fresh(PAGE), FIRST) == 2
    ensures Heap(Fresh(3 * PAGE), 3 * PAGE)
    ensures Outcome(Fresh(PAGE), PAGE, FIRST) ==
              Returned(HEAP_BASE + HEADER, OneTaken(), 3 * PAGE)
  {
    var c, d := Fresh(PAGE), Fresh(3 * PAGE);
    FreshHeap(PAGE);
    FreshHeap(3 * PAGE);
    assert Grow(c, 2 * PAGE) == d;
    FirstFitIs(c, FIRST, 2);
  }

  /** The second takes the front of what is left. */
  lemma SecondRequest()
    ensures var c := OneTaken();
            && Requestable(c, 3 * PAGE, SECOND) && !Diverges(c, 3 * PAGE, SECOND) && !NoneFits(c, SECOND)
            && Fits(c[1], SECOND)
            && Outcome(c, 3 * PAGE, SECOND) == Returned(c[1].Payload(), Split(c, 1, SECOND), 3 * PAGE)
  {
    FirstRequest();
    SplitHeap(Fresh(3 * PAGE), 3 * PAGE, 0, FIRST);
    var c := OneTaken();
    FirstFitIs(c, SECOND, 1);
  }

  const FIRST_TAKEN := Block(HEAP_BASE, FIRST, Used)
  const SECOND_TAKEN := Block(HEAP_BASE + HEADER + FIRST, SECOND, Used)

  /** The chain while the first block is taken, and while both are. */
  ghost function OneTaken(): Chain {
    Split(Fresh(3 * PAGE), 0, FIRST)
  }

  ghost function BothTaken(): (c: Chain)
    ensures |c| > 1 && c[0] == FIRST_TAKEN && c[1] == SECOND_TAKEN
  {
    Split(OneTaken(), 1, SECOND)
  }

  lemma LiveWhileOneTaken()
    ensures Live(OneTaken()) == {FIRST_TAKEN}
  {
    FreshHeap(3 * PAGE);
    CutLive(Fresh(3 * PAGE), 3 * PAGE, 0, FIRST);
  }

  lemma LiveWhileTaken()
    ensures Heap(BothTaken(), 3 * PAGE) && Live(BothTaken()) == {FIRST_TAKEN, SECOND_TAKEN}
  {
    FirstRequest();
    SecondRequest();
    CutLive(Fresh(3 * PAGE), 3 * PAGE, 0, FIRST);
    CutLive(OneTaken(), 3 * PAGE, 1, SECOND);
  }

  /** A request of b bytes returns block u, leaving chain d and this length. */
  ghost predicate Takes(c: Chain, total: nat, b: nat, u: Block, d: Chain, after: nat) {
    && Requestable(c, total, AlignBlock(b)) && !Diverges(c, total, AlignBlock(b))
    && Outcome(c, total, AlignBlock(b)) == Returned(u.Payload(), d, after)
    && u in Live(d) && u.size > 0
  }

  lemma FirstTakes(c: Chain) returns (d: Chain)
    requires c == Fresh(PAGE)
    ensures Takes(c, PAGE, 0x2000, FIRST_TAKEN, d, 3 * PAGE) && d == OneTaken()
    ensures NoneFits(c, AlignBlock(0x2000)) && PagesRequired(c, AlignBlock(0x2000)) == 2
  {
    FirstRequest();
    LiveWhileOneTaken();
    d := OneTaken();
  }

  lemma SecondTakes(c: Chain) returns (d: Chain)
    requires c == OneTaken()
    ensures Takes(c, 3 * PAGE, 4, SECOND_TAKEN, d, 3 * PAGE) && d == BothTaken() && Live(d) == {FIRST_TAKEN, SECOND_TAKEN}
    ensures !NoneFits(c, AlignBlock(4))
  {
    SecondRequest();
    LiveWhileTaken();
    d := BothTaken();
  }

  /** A request that returns block u, and a store of w to its first word. */
  method TakeAndStore(heap: KernelHeap, bsize: Word, w: Word, ghost u: Block, ghost d: Chain, ghost total: nat)
    returns (value: Word, ghost states: seq<State>)
    requires heap.Valid() && Takes(heap.chain, heap.totalLength, bsize, u, d, total)
    requires heap.AffordsGrowth(AlignBlock(bsize))
    modifies heap, heap.vm.phys, heap.vm.bitmap.ptr
    ensures heap.Valid() && heap.chain == d && heap.totalLength == total && value == u.Payload()
    ensures Run(states, [Kmalloc(bsize), Store(value, w)])
    ensures states[0] == old(heap.Snapshot()) && states[2] == heap.Snapshot()
  {
    ghost var s := heap.Snapshot();
    heap.IsSound();
    value := heap.Kmalloc(bsize);
    ghost var t := heap.Snapshot();
    heap.IsSound();
    heap.InRegionOf(u);
    heap.StorePayload(value, w);
    states := TwoStepRun(s, Kmalloc(bsize), t, Store(value, w), heap.Snapshot());
  }

  /** The first request of kmain and the store to what it returned. */
  method TakeFirst(heap: KernelHeap) returns (value: Word, ghost states: seq<State>)
    requires heap.Valid() && heap.totalLength == PAGE && heap.chain == Fresh(PAGE) && heap.Affords(1, 2)
    modifies heap, heap.vm.phys, heap.vm.bitmap.ptr
    ensures heap.Valid() && heap.totalLength == 3 * PAGE && heap.chain == OneTaken()
    ensures value == 0xD000_0010 && Run(states, [Kmalloc(0x2000), Store(value, 10)])
    ensures states[0] == old(heap.Snapshot()) && states[2] == heap.Snapshot()
  {
    ghost var d := FirstTakes(heap.chain);
    value, states := TakeAndStore(heap, 0x2000, 10, FIRST_TAKEN, d, 3 * PAGE);
  }

  /** The second. */
  method TakeSecond(heap: KernelHeap) returns (value2: Word, ghost states: seq<State>)
    requires heap.Valid() && heap.totalLength == 3 * PAGE && heap.chain == OneTaken()
    modifies heap, heap.vm.phys, heap.vm.bitmap.ptr
    ensures heap.Valid() && heap.totalLength == 3 * PAGE && heap.chain == BothTaken()
    ensures value2 == 0xD000_2020 && Run(states, [Kmalloc(4), Store(value2, 5)])
    ensures states[0] == old(heap.Snapshot()) && states[2] == heap.Snapshot()
  {
    ghost var d := SecondTakes(heap.chain);
    value2, states := TakeAndStore(heap, 4, 5, SECOND_TAKEN, d, 3 * PAGE);
  }

  /** Both blocks are given back, in the order they were taken. */
  method GiveTwo(heap: KernelHeap, value: Word, value2: Word) returns (ghost states: seq<State>)
    requires heap.Valid() && heap.totalLength == 3 * PAGE && heap.chain == BothTaken()
    requires value == 0xD000_0010 && value2 == 0xD000_2020
    modifies heap`words, heap`chain, heap.vm.phys
    ensures heap.Valid() && heap.chain == Fresh(3 * PAGE) && Run(states, [Kfree(value), Kfree(value2)])
    ensures states[0] == old(heap.Snapshot()) && states[2] == heap.Snapshot()
  {
    ghost var s := heap.Snapshot();
    heap.IsSound();
    LiveWhileTaken();
    GiveBack(heap, value, FIRST);
    ghost var t := heap.Snapshot();
    assert Live(heap.chain) == {SECOND_TAKEN};
    GiveBack(heap, value2, SECOND);
    assert Live(heap.chain) == {};
    heap.IsSound();
    AllFreedIsOneBlock(heap.chain, 3 * PAGE);
    states := TwoStepRun(s, Kfree(value), t, Kfree(value2), heap.Snapshot());
  }

  /** The debugging part of kmain: two blocks are taken, written to and given back, which leaves the heap as
      it was made, two pages longer. */
  method Kmain(heap: KernelHeap) returns (value: Word, value2: Word, ghost states: seq<State>)
    requires heap.Valid() && heap.totalLength == PAGE && heap.chain == Fresh(PAGE) && heap.Affords(1, 2)
    modifies heap, heap.vm.phys, heap.vm.bitmap.ptr
    ensures heap.Valid() && heap.totalLength == 3 * PAGE && heap.chain == Fresh(3 * PAGE)
    ensures value == 0xD000_0010 && value2 == 0xD000_2020
    ensures Run(states, [Kmalloc(0x2000), Store(value, 10), Kmalloc(4), Store(value2, 5), Kfree(value), Kfree(value2)])
    ensures states[0] == old(heap.Snapshot()) && states[6] == heap.Snapshot()
  {
    ghost var more, last;
    value, states := TakeFirst(heap);
    value2, more := TakeSecond(heap);
    states := RunAppended(states, [Kmalloc(0x2000), Store(value, 10)], more, [Kmalloc(4), Store(value2, 5)]);
    last := GiveTwo(heap, value, value2);
    states := RunAppended(states, [Kmalloc(0x2000), Store(value, 10)] + [Kmalloc(4), Store(value2, 5)],
                          last, [Kfree(value), Kfree(value2)]);
    assert [Kmalloc(0x2000), Store(value, 10)] + [Kmalloc(4), Store(value2, 5)] + [Kfree(value), Kfree(value2)]
        == [Kmalloc(0x2000), Store(value, 10), Kmalloc(4), Store(value2, 5), Kfree(value), Kfree(value2)];
  }

  // ----- The same as a run -----

  const VALUE := FIRST_TAKEN.Payload()
  const VALUE2 := SECOND_TAKEN.Payload()

  const FREES := [Kfree(VALUE), Kfree(VALUE2)]
  const KMAIN_CALLS := [Kmalloc(FIRST), Store(VALUE, 10), Kmalloc(4), Store(VALUE2, 5)] + FREES

  /** A live block of a sound state whose first word lies in the heap may be freed and stored to. */
  lemma LiveIsProper(s: State, b: Block, w: Word)
    requires Sound(s) && b in Live(s.c) && b.size > 0 && s.total <= HEAP_LIMIT
    ensures Proper(s, Kfree(b.Payload())) && Feasible(s, Kfree(b.Payload()), s.total)
    ensures Proper(s, Store(b.Payload(), w))
  {
    var k: nat :| k < |s.c| && s.c[k] == b;
    assert Header(s.v, s.c, k);
    PayloadsApart(s.c, s.total, k, k);
  }

  lemma SecondFreeServable(s: State)
    requires Sound(s) && s.total == 3 * PAGE && SECOND_TAKEN in Live(s.c)
    ensures Servable(s, [Kfree(VALUE2)], 3 * PAGE)
  {
    LiveIsProper(s, SECOND_TAKEN, 0);
    ServableFirst(s, Kfree(VALUE2), [], 3 * PAGE);
    assert [Kfree(VALUE2)] + [] == [Kfree(VALUE2)];
  }

  lemma FreesServable(s: State)
    requires Sound(s) && s.total == 3 * PAGE && s.c == BothTaken()
    ensures Servable(s, FREES, 3 * PAGE)
  {
    LiveWhileTaken();
    LiveIsProper(s, FIRST_TAKEN, 0);
    forall t | Step(s, Kfree(VALUE), t)
      ensures Servable(t, [Kfree(VALUE2)], 3 * PAGE)
    {
      StepIsSound(s, Kfree(VALUE), t);
      StepKeepsAccount(s, Kfree(VALUE), t);
      LiveIsMarkedUsed(s, FIRST_TAKEN);
      SecondFreeServable(t);
    }
    ServableFirst(s, Kfree(VALUE), [Kfree(VALUE2)], 3 * PAGE);
    assert [Kfree(VALUE)] + [Kfree(VALUE2)] == FREES;
  }

  lemma LiveIsMarkedUsed(s: State, b: Block)
    requires Sound(s) && b in Live(s.c)
    ensures MarkedUsed(s.v, b.addr)
  {
    var k: nat :| k < |s.c| && s.c[k] == b;
    assert Header(s.v, s.c, k);
  }

  /** A request and a store to what it returns can be served where what comes after them can. */
  lemma TakeServable(s: State, b: nat, w: Word, u: Block, d: Chain, after: nat, rest: seq<Call>, limit: nat)
    requires Sound(s) && b < WRAP && Takes(s.c, s.total, b, u, d, after) && after <= limit <= HEAP_LIMIT
    requires forall v :: Sound(v) && v.c == d && v.total == after ==> Servable(v, rest, limit)
    ensures Servable(s, [Kmalloc(b)] + ([Store(u.Payload(), w)] + rest), limit)
  {
    forall t | Step(s, Kmalloc(b), t)
      ensures Servable(t, [Store(u.Payload(), w)] + rest, limit)
    {
      StepIsSound(s, Kmalloc(b), t);
      LiveIsProper(t, u, w);
      forall v | Step(t, Store(u.Payload(), w), v)
        ensures Servable(v, rest, limit)
      {
        StepIsSound(t, Store(u.Payload(), w), v);
      }
      ServableFirst(t, Store(u.Payload(), w), rest, limit);
    }
    ServableFirst(s, Kmalloc(b), [Store(u.Payload(), w)] + rest, limit);
  }

  /** From the second request on. */
  lemma SecondHalfServable(s: State)
    requires Sound(s) && s.total == 3 * PAGE && s.c == OneTaken()
    ensures Servable(s, [Kmalloc(4)] + ([Store(VALUE2, 5)] + FREES), 3 * PAGE)
  {
    var d := SecondTakes(s.c);
    forall v | Sound(v) && v.c == d && v.total == 3 * PAGE
      ensures Servable(v, FREES, 3 * PAGE)
    {
      FreesServable(v);
    }
    TakeServable(s, 4, 5, SECOND_TAKEN, d, 3 * PAGE, FREES, 3 * PAGE);
  }

  /** The calls and stores of kmain can be served on the fresh heap, in its first three pages. */
  lemma KmainServable(v: View)
    requires Represents(v, Fresh(PAGE)) && Covers(v, PAGE)
    ensures Servable(State(Fresh(PAGE), PAGE, v), KMAIN_CALLS, 3 * PAGE)
  {
    var s, rest := State(Fresh(PAGE), PAGE, v), [Kmalloc(4)] + ([Store(VALUE2, 5)] + FREES);
    FreshHeap(PAGE);
    var d := FirstTakes(s.c);
    forall u | Sound(u) && u.c == d && u.total == 3 * PAGE
      ensures Servable(u, rest, 3 * PAGE)
    {
      SecondHalfServable(u);
    }
    TakeServable(s, 0x2000, 10, FIRST_TAKEN, d, 3 * PAGE, rest, 3 * PAGE);
    assert [Kmalloc(0x2000)] + ([Store(VALUE, 10)] + rest) == KMAIN_CALLS;
  }

  lemma KmainCallsAre()
    ensures KMAIN_CALLS == [Kmalloc(0x2000), Store(0xD000_0010, 10), Kmalloc(4), Store(0xD000_2020, 5),
                            Kfree(0xD000_0010), Kfree(0xD000_2020)]
    ensures |KMAIN_CALLS| == 6
    ensures KMAIN_CALLS[0] == Kmalloc(FIRST) && KMAIN_CALLS[1] == Store(VALUE, 10)
    ensures KMAIN_CALLS[2] == Kmalloc(4) && KMAIN_CALLS[3] == Store(VALUE2, 5)
    ensures KMAIN_CALLS[4] == Kfree(VALUE) && KMAIN_CALLS[5] == Kfree(VALUE2)
  {
  }

  /** Two steps of a run, by the calls that make them. */
  lemma TwoSteps(states: seq<State>, calls: seq<Call>, i: nat, first: Call, second: Call)
    requires Run(states, calls) && i + 1 < |calls| && calls[i] == first && calls[i + 1] == second
    ensures Step(states[i], first, states[i + 1]) && Step(states[i + 1], second, states[i + 2])
  {
    StepOf(states, calls, i);
    StepOf(states, calls, i + 1);
  }

  lemma TakenAfter(s: State, b: nat, t: State, w: Word, v: State, u: Block, d: Chain, after: nat)
    requires Step(s, Kmalloc(b), t) && Step(t, Store(u.Payload(), w), v) && Takes(s.c, s.total, b, u, d, after)
    ensures v.c == d && v.total == after && u.Payload() in v.v && v.v[u.Payload()] == w && u in Live(v.c)
  {
  }

  lemma FirstTaken(s: State, t: State, u: State)
    requires s.c == Fresh(PAGE) && s.total == PAGE && Step(s, Kmalloc(FIRST), t) && Step(t, Store(VALUE, 10), u)
    ensures u.c == OneTaken() && u.total == 3 * PAGE && FIRST_TAKEN in Live(u.c)
    ensures VALUE in u.v && u.v[VALUE] == 10
  {
    var d := FirstTakes(s.c);
    TakenAfter(s, FIRST, t, 10, u, FIRST_TAKEN, d, 3 * PAGE);
  }

  lemma SecondTaken(s: State, t: State, u: State)
    requires s.c == OneTaken() && s.total == 3 * PAGE
    requires Step(s, Kmalloc(4), t) && Step(t, Store(VALUE2, 5), u)
    ensures Live(u.c) == {FIRST_TAKEN, SECOND_TAKEN} && u.total == 3 * PAGE
    ensures VALUE2 in u.v && u.v[VALUE2] == 5
  {
    var d := SecondTakes(s.c);
    TakenAfter(s, 4, t, 5, u, SECOND_TAKEN, d, 3 * PAGE);
  }

  lemma BothGiven(s: State, t: State, u: State)
    requires Live(s.c) == {FIRST_TAKEN, SECOND_TAKEN} && s.total == 3 * PAGE
    requires Step(s, Kfree(VALUE), t) && Step(t, Kfree(VALUE2), u)
    ensures u.c == Fresh(3 * PAGE)
  {
    FreeKeepsAccount(s, VALUE, t);
    FreeKeepsAccount(t, VALUE2, u);
    StepIsSound(t, Kfree(VALUE2), u);
    assert Live(u.c) == {};
    AllFreedIsOneBlock(u.c, u.total);
  }

  lemma KmainTakesFirst(states: seq<State>)
    requires Run(states, KMAIN_CALLS) && states[0].c == Fresh(PAGE) && states[0].total == PAGE
    ensures |states| == 7 && states[2].c == OneTaken() && states[2].total == 3 * PAGE
    ensures FIRST_TAKEN in Live(states[2].c) && VALUE in states[2].v && states[2].v[VALUE] == 10
  {
    KmainCallsAre();
    TwoSteps(states, KMAIN_CALLS, 0, Kmalloc(FIRST), Store(VALUE, 10));
    FirstTaken(states[0], states[1], states[2]);
  }

  lemma KmainTakesSecond(states: seq<State>)
    requires Run(states, KMAIN_CALLS) && |states| == 7
    requires states[2].c == OneTaken() && states[2].total == 3 * PAGE
    ensures Live(states[4].c) == {FIRST_TAKEN, SECOND_TAKEN} && states[4].total == 3 * PAGE
    ensures VALUE2 in states[4].v && states[4].v[VALUE2] == 5
  {
    KmainCallsAre();
    TwoSteps(states, KMAIN_CALLS, 2, Kmalloc(4), Store(VALUE2, 5));
    SecondTaken(states[2], states[3], states[4]);
  }

  lemma KmainGivesBoth(states: seq<State>)
    requires Run(states, KMAIN_CALLS) && |states| == 7
    requires Live(states[4].c) == {FIRST_TAKEN, SECOND_TAKEN} && states[4].total == 3 * PAGE
    ensures states[6].c == Fresh(3 * PAGE)
  {
    KmainCallsAre();
    TwoSteps(states, KMAIN_CALLS, 4, Kfree(VALUE), Kfree(VALUE2));
    BothGiven(states[4], states[5], states[6]);
  }

  /** Whatever run they make from a fresh heap, each value stored is still there when its block is freed, and
      in the end the heap is one free block. */
  lemma KmainRun(states: seq<State>)
    requires Run(states, KMAIN_CALLS) && states[0].c == Fresh(PAGE) && states[0].total == PAGE
    ensures |states| == 7
    ensures VALUE in states[4].v && states[4].v[VALUE] == 10
    ensures VALUE2 in states[5].v && states[5].v[VALUE2] == 5
    ensures states[6].c == Fresh(3 * PAGE)
  {
    KmainCallsAre();
    KmainTakesFirst(states);
    KmainTakesSecond(states);
    RunsKeepWords(states, KMAIN_CALLS, 2, 4, FIRST_TAKEN, VALUE);
    RunsKeepWords(states, KMAIN_CALLS, 4, 5, SECOND_TAKEN, VALUE2);
    KmainGivesBoth(states);
  }

  /** From the boot loader's memory on they make such a run. */
  method BootAndServeKmain(phys: array<Word>, pd: Frame, pt: Frame, memory: array<bv8>, loc: nat, size: nat,
                           regions: seq<Region>, kernelStart: nat, kernelEnd: nat, guard: Guard, ghost spare: set<nat>)
    returns (heap: KernelHeap, ghost states: seq<State>)
    requires Bootable(phys, pd, pt, memory, loc, size, regions, kernelStart, kernelEnd, spare)
    requires |spare| >= 6
    modifies phys, memory
    ensures heap.Valid() && Run(states, KMAIN_CALLS) && |states| == 7 && states[6] == heap.Snapshot()
    ensures heap.chain == Fresh(3 * PAGE) && heap.vm.phys == phys
    ensures var used := FirstUsed(UsedFrames(old(memory[..])), regions, guard, kernelStart, kernelEnd, loc, size);
            StartedFrom(heap, old(phys[..]), used, pd, pt) && LeftAlone(heap, old(phys[..]), used, pd, pt)
  {
    forall v | Represents(v, Fresh(PAGE)) && Covers(v, PAGE)
      ensures Servable(State(Fresh(PAGE), PAGE, v), KMAIN_CALLS, 3 * PAGE)
    {
      KmainServable(v);
    }
    heap, states := BootAndServe(phys, pd, pt, memory, loc, size, regions, kernelStart, kernelEnd, guard, spare,
                                 KMAIN_CALLS, 3 * PAGE);
    KmainCallsAre();
    KmainRun(states);
  }

  /** From the boot loader's memory through the whole of that part of kmain, given four spare frames. */
  method BootAndRun(phys: array<Word>, pd: Frame, pt: Frame, memory: array<bv8>, loc: nat, size: nat,
                    regions: seq<Region>, kernelStart: nat, kernelEnd: nat, guard: Guard, ghost spare: set<nat>)
    returns (heap: KernelHeap, ghost states: seq<State>)
    requires Bootable(phys, pd, pt, memory, loc, size, regions, kernelStart, kernelEnd, spare)
    requires |spare| >= 4
    modifies phys, memory
    ensures heap.Valid() && heap.totalLength == 3 * PAGE && heap.chain == Fresh(3 * PAGE) && heap.vm.phys == phys
    ensures Run(states, KMAIN_CALLS) && |states| == 7 && states[6] == heap.Snapshot()
    ensures states[0].c == Fresh(PAGE) && states[0].total == PAGE
    ensures var used := FirstUsed(UsedFrames(old(memory[..])), regions, guard, kernelStart, kernelEnd, loc, size);
            StartedFrom(heap, old(phys[..]), used, pd, pt) && LeftAlone(heap, old(phys[..]), used, pd, pt)
  {
    ghost var m, before := phys[..], UsedFrames(memory[..]);
    heap := StartUp(phys, pd, pt, memory, loc, size, regions, kernelStart, kernelEnd, guard, spare);
    assert FramesFor(heap.Dirs(), 1, 2) == 2;
    heap.StillAffords(1, 2);
    var value, value2;
    value, value2, states := Kmain(heap);
    KmainCallsAre();
    StaysLeftAlone(heap, m, FirstUsed(before, regions, guard, kernelStart, kernelEnd, loc, size), pd, pt);
  }
}
