/** The pages of the heap: what is mapped where, and the heap region as seen through the page tables. */
module HeapPages {
  import opened Arithmetic
  import opened Mmu
  import opened Tables
  import opened HeapChain
  import opened HeapScan
  import opened HeapStore

  const HEAP_PAGES := 0x1_0000  // pages below the end of the heap's address range

  function PageVa(p: nat): Word
    requires p < HEAP_PAGES
  {
    HEAP_BASE + p * PAGE
  }

  lemma PageParts(p: nat)
    requires p < HEAP_PAGES
    ensures Dir(PageVa(p)) == 832 + p / 1024 && Tbl(PageVa(p)) == p % 1024 && Off(PageVa(p)) == 0
  {
    Euclid(PageVa(p), 832 + p / 1024, p % 1024 * 0x1000, 0x40_0000);
    Euclid(PageVa(p), 0xD_0000 + p, 0, 0x1000);
    Euclid(0xD_0000 + p, 832 + p / 1024, p % 1024, 1024);
  }

  /** The page of a heap address. */
  function PageOf(a: Word): nat
    requires HEAP_BASE <= a
  {
    (a - HEAP_BASE) / PAGE
  }

  lemma SamePage(a: Word)
    requires HEAP_BASE <= a < HEAP_BASE + HEAP_LIMIT
    ensures PageOf(a) < HEAP_PAGES
    ensures Dir(a) == Dir(PageVa(PageOf(a))) && Tbl(a) == Tbl(PageVa(PageOf(a)))
    ensures a == PageVa(PageOf(a)) + Off(a)
  {
    var p, r := PageOf(a), (a - HEAP_BASE) % PAGE;
    PageParts(p);
    Euclid(a, 0xD_0000 + p, r, 0x1000);
    Euclid(a, 832 + p / 1024, p % 1024 * 0x1000 + r, 0x40_0000);
    Euclid(0xD_0000 + p, 832 + p / 1024, p % 1024, 1024);
  }

  function PageFrame(m: Memory, pd: Frame, p: nat): Option<Frame>
    requires p < HEAP_PAGES
  {
    var w := Walk(m, pd, PageVa(p));
    if w.Some? then Some(w.value.frame) else None
  }

  /** Every page of the heap is mapped, to a used frame that holds no table, and no two pages share one. */
  ghost predicate PagesMapped(m: Memory, pd: Frame, used: set<nat>, pages: nat) {
    && pages <= HEAP_PAGES
    && (forall p: nat :: p < pages ==>
          PageFrame(m, pd, p).Some? && PageFrame(m, pd, p).value in used && OffTables(m, pd, PageFrame(m, pd, p).value))
    && (forall p: nat, q: nat :: p < q < pages ==> PageFrame(m, pd, p) != PageFrame(m, pd, q))
  }

  /** The words of the heap region, read through the page tables. */
  ghost function HeapView(m: Memory, pd: Frame, total: nat): View
    requires total <= HEAP_LIMIT
  {
    map a: int | HEAP_BASE <= a < HEAP_BASE + total && Access(m, pd, a).Some? :: Read(m, Access(m, pd, a).value)
  }

  lemma HeapAccess(m: Memory, pd: Frame, used: set<nat>, pages: nat, a: Word)
    requires PagesMapped(m, pd, used, pages) && HEAP_BASE <= a < HEAP_BASE + pages * PAGE && a % 4 == 0
    ensures PageOf(a) < pages
    ensures Access(m, pd, a) == Some(Cell(PageFrame(m, pd, PageOf(a)).value, Off(a) / 4))
  {
    SamePage(a);
    var p := PageOf(a);
    assert p * PAGE <= a - HEAP_BASE;
    assert p < pages && PageFrame(m, pd, p).Some?;
    WalkOnPage(m, pd, a, PageVa(p));
  }

  lemma OneFrameOnePage(m: Memory, pd: Frame, used: set<nat>, pages: nat, p: nat, q: nat)
    requires PagesMapped(m, pd, used, pages) && p < pages && q < pages
    requires PageFrame(m, pd, p) == PageFrame(m, pd, q)
    ensures p == q
  {
  }

  /** Two words of the heap are two words of memory. */
  lemma HeapAccessInjective(m: Memory, pd: Frame, used: set<nat>, pages: nat, a: Word, b: Word)
    requires PagesMapped(m, pd, used, pages) && a % 4 == 0 && b % 4 == 0
    requires HEAP_BASE <= a < HEAP_BASE + pages * PAGE && HEAP_BASE <= b < HEAP_BASE + pages * PAGE
    requires Access(m, pd, a) == Access(m, pd, b)
    ensures a == b
  {
    HeapAccess(m, pd, used, pages, a);
    HeapAccess(m, pd, used, pages, b);
    var p, q := PageOf(a), PageOf(b);
    OneFrameOnePage(m, pd, used, pages, p, q);
    AlignedOffset(a);
    AlignedOffset(b);
    SamePage(a);
    SamePage(b);
  }

  lemma ViewKeys(m: Memory, pd: Frame, used: set<nat>, pages: nat)
    requires PagesMapped(m, pd, used, pages)
    ensures forall a: int :: a in HeapView(m, pd, pages * PAGE) <==> HEAP_BASE <= a < HEAP_BASE + pages * PAGE && a % 4 == 0
  {
    forall a: int | HEAP_BASE <= a < HEAP_BASE + pages * PAGE && a % 4 == 0
      ensures Access(m, pd, a).Some?
    {
      HeapAccess(m, pd, used, pages, a);
    }
  }

  /** Where a page has kept its frame, its words are accessed as before. */
  lemma SameAccess(m: Memory, n: Memory, pd: Frame, used: set<nat>, u: set<nat>, pages: nat, q: nat, a: Word)
    requires PagesMapped(m, pd, used, pages) && PagesMapped(n, pd, u, q) && pages <= q
    requires forall p: nat :: p < pages ==> PageFrame(n, pd, p) == PageFrame(m, pd, p)
    requires HEAP_BASE <= a < HEAP_BASE + pages * PAGE && a % 4 == 0
    ensures Access(m, pd, a).Some? && Access(n, pd, a) == Access(m, pd, a)
  {
    HeapAccess(m, pd, used, pages, a);
    HeapAccess(n, pd, u, q, a);
  }

  /** A store to a frame that holds no table leaves the tables and the frames of the pages. */
  lemma StoredKeepsPages(m: Memory, n: Memory, pd: Frame, used: set<nat>, c: Cell, x: Word, pages: nat)
    requires WellFormed(m, pd, used) && OffTables(m, pd, c.frame) && n == Written(m, c, x) && pages <= HEAP_PAGES
    ensures forall f :: OffTables(m, pd, f) ==> OffTables(n, pd, f)
    ensures forall p: nat :: p < pages ==> PageFrame(n, pd, p) == PageFrame(m, pd, p)
  {
    StoreData(m, pd, used, c.frame, c.index, x);
    forall i: Index
      ensures Entry(n, pd, i) == Entry(m, pd, i)
    {
      assert Directory(n, pd)[i] == Directory(m, pd)[i];
    }
  }

  /** A store to a heap address changes no table, no translation and no page. */
  lemma HeapStoredTables(m: Memory, pd: Frame, used: set<nat>, pages: nat, a: Word, x: Word)
    requires WellFormed(m, pd, used) && PagesMapped(m, pd, used, pages)
    requires HEAP_BASE <= a < HEAP_BASE + pages * PAGE && a % 4 == 0
    ensures Access(m, pd, a).Some?
    ensures var n := Written(m, Access(m, pd, a).value, x);
            && WellFormed(n, pd, used) && PagesMapped(n, pd, used, pages)
            && Directory(n, pd) == Directory(m, pd)
            && forall p: nat :: p < pages ==> PageFrame(n, pd, p) == PageFrame(m, pd, p)
  {
    HeapAccess(m, pd, used, pages, a);
    var c := Access(m, pd, a).value;
    assert PageFrame(m, pd, PageOf(a)).Some?;
    StoreData(m, pd, used, c.frame, c.index, x);
    StoredKeepsPages(m, Written(m, c, x), pd, used, c, x, pages);
  }

  /** It changes that word of the heap and no other. */
  lemma HeapStoredWord(m: Memory, pd: Frame, used: set<nat>, pages: nat, a: Word, x: Word, b: Word)
    requires WellFormed(m, pd, used) && PagesMapped(m, pd, used, pages)
    requires HEAP_BASE <= a < HEAP_BASE + pages * PAGE && a % 4 == 0
    requires HEAP_BASE <= b < HEAP_BASE + pages * PAGE && b % 4 == 0
    ensures Access(m, pd, a).Some? && Access(m, pd, b).Some?
    ensures var n := Written(m, Access(m, pd, a).value, x);
            && Access(n, pd, b) == Access(m, pd, b)
            && Read(n, Access(m, pd, b).value) == if a == b then x else Read(m, Access(m, pd, b).value)
  {
    HeapStoredTables(m, pd, used, pages, a, x);
    HeapAccess(m, pd, used, pages, b);
    var c, d := Access(m, pd, a).value, Access(m, pd, b).value;
    SameAccess(m, Written(m, c, x), pd, used, used, pages, pages, b);
    EntryStored(m, c.frame, c.index, x, d.frame, d.index);
    if Access(m, pd, a) == Access(m, pd, b) {
      HeapAccessInjective(m, pd, used, pages, a, b);
    }
  }

  /** The view of the region afterwards. */
  lemma HeapStored(m: Memory, pd: Frame, used: set<nat>, pages: nat, a: Word, x: Word)
    requires WellFormed(m, pd, used) && PagesMapped(m, pd, used, pages)
    requires HEAP_BASE <= a < HEAP_BASE + pages * PAGE && a % 4 == 0
    ensures Access(m, pd, a).Some?
    ensures HeapView(Written(m, Access(m, pd, a).value, x), pd, pages * PAGE) == HeapView(m, pd, pages * PAGE)[a := x]
  {
    HeapStoredTables(m, pd, used, pages, a, x);
    var n := Written(m, Access(m, pd, a).value, x);
    var v, w := HeapView(m, pd, pages * PAGE), HeapView(n, pd, pages * PAGE);
    ViewKeys(m, pd, used, pages);
    ViewKeys(n, pd, used, pages);
    forall b: int | b in v
      ensures w[b] == v[a := x][b]
    {
      HeapStoredWord(m, pd, used, pages, a, x, b);
    }
  }

  // ----- Growth by one page -----

  lemma MapKeepsPage(m: Memory, pd: Frame, used: set<nat>, pages: nat, t: Frame, e: Word, p: nat)
    requires WellFormed(m, pd, used) && PagesMapped(m, pd, used, pages) && pages < HEAP_PAGES && p < pages
    ensures var w := PageVa(p); NewWalk(m, pd, PageVa(pages), t, e, w) == Walk(m, pd, w)
  {
    PageParts(p);
    PageParts(pages);
    assert PageFrame(m, pd, p).Some?;
    assert Present(Entry(m, pd, Dir(PageVa(p))));
    if Present(Entry(m, pd, Dir(PageVa(pages)))) && Slot(m, pd, PageVa(p)) == Slot(m, pd, PageVa(pages)) {
      var i, j := Dir(PageVa(p)), Dir(PageVa(pages));
      OneTableOneEntry(m, pd, used, i, j);
    }
  }

  /** One more page, on a frame of its own, with the others as they were. */
  lemma PagesExtended(m: Memory, n: Memory, pd: Frame, used: set<nat>, u: set<nat>, pages: nat, f: Frame)
    requires PagesMapped(m, pd, used, pages) && pages < HEAP_PAGES && used <= u
    requires f in u && f !in used && OffTables(n, pd, f) && PageFrame(n, pd, pages) == Some(f)
    requires forall p: nat :: p < pages ==>
               PageFrame(n, pd, p) == PageFrame(m, pd, p) && OffTables(n, pd, PageFrame(m, pd, p).value)
    ensures PagesMapped(n, pd, u, pages + 1)
  {
  }

  lemma ViewExtended(m: Memory, n: Memory, pd: Frame, used: set<nat>, u: set<nat>, pages: nat)
    requires PagesMapped(m, pd, used, pages) && PagesMapped(n, pd, u, pages + 1)
    requires forall p: nat :: p < pages ==> PageFrame(n, pd, p) == PageFrame(m, pd, p)
    requires forall p: nat, k: nat :: p < pages && k < 1024 ==>
               Entry(n, PageFrame(m, pd, p).value, k) == Entry(m, PageFrame(m, pd, p).value, k)
    ensures Extends(HeapView(m, pd, pages * PAGE), HeapView(n, pd, (pages + 1) * PAGE))
  {
    var v, w := HeapView(m, pd, pages * PAGE), HeapView(n, pd, (pages + 1) * PAGE);
    ViewKeys(m, pd, used, pages);
    forall a | a in v
      ensures a in w && w[a] == v[a]
    {
      SameAccess(m, n, pd, used, u, pages, pages + 1, a);
      HeapAccess(m, pd, used, pages, a);
      assert Entry(n, PageFrame(m, pd, PageOf(a)).value, Off(a) / 4) == Entry(m, PageFrame(m, pd, PageOf(a)).value, Off(a) / 4);
    }
  }

  /** What mapping the next page to fresh frames does to the frames of the pages. */
  lemma GrownFrames(m: Memory, n: Memory, pd: Frame, used: set<nat>, pages: nat, t: Frame, f: Frame)
    requires WellFormed(m, pd, used) && PagesMapped(m, pd, used, pages) && pages < HEAP_PAGES
    requires f !in used && Dir(PageVa(pages)) != 1023
    requires Present(Entry(m, pd, Dir(PageVa(pages)))) || (t !in used && t != f)
    requires n == WithPage(m, pd, PageVa(pages), t, 3, EntryFor(f, 3))
    ensures PageFrame(n, pd, pages) == Some(f) && OffTables(n, pd, f)
    ensures forall p: nat :: p < pages ==>
              PageFrame(n, pd, p) == PageFrame(m, pd, p) && OffTables(n, pd, PageFrame(m, pd, p).value)
  {
    var va, e := PageVa(pages), EntryFor(f, 3);
    MapTables(m, pd, used, va, t, 3, e);
    MapWalk(m, pd, used, va, t, 3, e, va);
    UnusedIsOffTables(m, pd, used, f);
    assert NewWalk(m, pd, va, t, e, va) == Through(e, va);
    PageParts(pages);
    forall p: nat | p < pages
      ensures PageFrame(n, pd, p) == PageFrame(m, pd, p) && OffTables(n, pd, PageFrame(m, pd, p).value)
    {
      MapKeepsPage(m, pd, used, pages, t, e, p);
      MapWalk(m, pd, used, va, t, 3, e, PageVa(p));
      assert PageFrame(m, pd, p).Some?;
    }
  }

  lemma GrownWords(m: Memory, n: Memory, pd: Frame, used: set<nat>, pages: nat, t: Frame, e: Word)
    requires WellFormed(m, pd, used) && PagesMapped(m, pd, used, pages) && pages < HEAP_PAGES
    requires Dir(PageVa(pages)) != 1023 && (Present(Entry(m, pd, Dir(PageVa(pages)))) || t !in used)
    requires n == WithPage(m, pd, PageVa(pages), t, 3, e)
    ensures forall p: nat, k: nat :: p < pages && k < 1024 ==>
              Entry(n, PageFrame(m, pd, p).value, k) == Entry(m, PageFrame(m, pd, p).value, k)
  {
    forall p: nat, k: nat | p < pages && k < 1024
      ensures Entry(n, PageFrame(m, pd, p).value, k) == Entry(m, PageFrame(m, pd, p).value, k)
    {
      assert PageFrame(m, pd, p).Some?;
      MapKeepsFrame(m, pd, used, PageVa(pages), t, 3, e, PageFrame(m, pd, p).value, k);
    }
  }

  /** One more page of the heap, and the words so far unchanged. */
  lemma HeapGrown(m: Memory, pd: Frame, used: set<nat>, pages: nat, t: Frame, f: Frame)
    requires WellFormed(m, pd, used) && PagesMapped(m, pd, used, pages) && pages < HEAP_PAGES
    requires f !in used
    requires Present(Entry(m, pd, Dir(PageVa(pages)))) || (t !in used && t != f)
    ensures var va, e := PageVa(pages), EntryFor(f, 3);
            var n, u := WithPage(m, pd, va, t, 3, e), WithTableFrame(m, pd, used, va, t) + {f};
            && WellFormed(n, pd, u) && PagesMapped(n, pd, u, pages + 1)
            && Extends(HeapView(m, pd, pages * PAGE), HeapView(n, pd, (pages + 1) * PAGE))
  {
    var va, e := PageVa(pages), EntryFor(f, 3);
    var n, u := WithPage(m, pd, va, t, 3, e), WithTableFrame(m, pd, used, va, t) + {f};
    PageParts(pages);
    MapTables(m, pd, used, va, t, 3, e);
    GrownFrames(m, n, pd, used, pages, t, f);
    GrownWords(m, n, pd, used, pages, t, e);
    PagesExtended(m, n, pd, used, u, pages, f);
    ViewExtended(m, n, pd, used, u, pages);
  }

  // ----- The heap region and the memory behind it -----

  /** Memory m maps a heap region of the given length, whose words are v. */
  ghost predicate Backing(m: Memory, pd: Frame, used: set<nat>, total: nat, v: View) {
    && total % PAGE == 0 && total <= HEAP_LIMIT
    && WellFormed(m, pd, used)
    && PagesMapped(m, pd, used, total / PAGE)
    && v == HeapView(m, pd, total)
  }

  lemma BackingKeys(m: Memory, pd: Frame, used: set<nat>, total: nat, v: View)
    requires Backing(m, pd, used, total, v)
    ensures forall a: int :: a in v <==> HEAP_BASE <= a < HEAP_BASE + total && a % 4 == 0
  {
    ViewKeys(m, pd, used, total / PAGE);
  }

  /** Every address of the heap translates, into a used frame that holds no table. */
  lemma HeapTranslates(m: Memory, pd: Frame, used: set<nat>, total: nat, v: View, a: Word)
    requires Backing(m, pd, used, total, v) && HEAP_BASE <= a < HEAP_BASE + total
    ensures PageOf(a) < total / PAGE
    ensures PageFrame(m, pd, PageOf(a)).Some? && Walk(m, pd, a) == Some(Place(PageFrame(m, pd, PageOf(a)).value, Off(a)))
    ensures Walk(m, pd, a).value.frame in used && OffTables(m, pd, Walk(m, pd, a).value.frame)
  {
    SamePage(a);
    var p := PageOf(a);
    assert p * PAGE <= a - HEAP_BASE && total / PAGE * PAGE == total;
    assert p < total / PAGE && PageFrame(m, pd, p).Some?;
    WalkOnPage(m, pd, a, PageVa(p));
  }

  /** No two addresses of the heap translate to the same place. */
  lemma HeapTranslationInjective(m: Memory, pd: Frame, used: set<nat>, total: nat, v: View, a: Word, b: Word)
    requires Backing(m, pd, used, total, v)
    requires HEAP_BASE <= a < HEAP_BASE + total && HEAP_BASE <= b < HEAP_BASE + total
    requires Walk(m, pd, a) == Walk(m, pd, b)
    ensures a == b
  {
    HeapTranslates(m, pd, used, total, v, a);
    HeapTranslates(m, pd, used, total, v, b);
    SamePage(a);
    SamePage(b);
    OneFrameOnePage(m, pd, used, total / PAGE, PageOf(a), PageOf(b));
  }

  // ----- Frames that the heap leaves alone, the bitmap's among them -----

  /** No page of the heap is on one of the given frames, and their words are as they were. */
  ghost predicate HomeKept(boot: Memory, m: Memory, pd: Frame, home: set<nat>, pages: nat) {
    && pages <= HEAP_PAGES
    && WordsKept(boot, m, home)
    && forall p: nat :: p < pages ==> PageFrame(m, pd, p).Some? && PageFrame(m, pd, p).value !in home
  }

  lemma HomeStored(boot: Memory, m: Memory, pd: Frame, used: set<nat>, pages: nat, a: Word, x: Word, home: set<nat>)
    requires WellFormed(m, pd, used) && PagesMapped(m, pd, used, pages)
    requires HEAP_BASE <= a < HEAP_BASE + pages * PAGE && a % 4 == 0
    requires Reserved(m, pd, used, home) && HomeKept(boot, m, pd, home, pages)
    ensures Access(m, pd, a).Some?
    ensures var n := Written(m, Access(m, pd, a).value, x);
            Reserved(n, pd, used, home) && HomeKept(boot, n, pd, home, pages)
  {
    HeapAccess(m, pd, used, pages, a);
    var c := Access(m, pd, a).value;
    StoreElsewhere(boot, m, c, x, home);
    StoredKeepsPages(m, Written(m, c, x), pd, used, c, x, pages);
  }

  lemma HomeGrown(boot: Memory, m: Memory, pd: Frame, used: set<nat>, pages: nat, t: Frame, f: Frame, home: set<nat>)
    requires WellFormed(m, pd, used) && PagesMapped(m, pd, used, pages) && pages < HEAP_PAGES
    requires f !in used && Dir(PageVa(pages)) != 1023
    requires Present(Entry(m, pd, Dir(PageVa(pages)))) || (t !in used && t != f)
    requires Reserved(m, pd, used, home) && HomeKept(boot, m, pd, home, pages)
    ensures HomeKept(boot, WithPage(m, pd, PageVa(pages), t, 3, EntryFor(f, 3)), pd, home, pages + 1)
  {
    var n := WithPage(m, pd, PageVa(pages), t, 3, EntryFor(f, 3));
    GrownFrames(m, n, pd, used, pages, t, f);
    MapKeepsHome(m, pd, used, PageVa(pages), t, 3, EntryFor(f, 3), home);
  }

  /** The given frames are among those of the first four megabytes and mapped to themselves, as the code that
      takes the address of the bitmap for a pointer needs it. */
  ghost predicate InPlace(m: Memory, pd: Frame, home: set<nat>) {
    forall f: nat :: f in home ==> f < 1024 && Walk(m, pd, f * 0x1000) == Some(Place(f, 0))
  }

  lemma InPlaceStored(m: Memory, pd: Frame, used: set<nat>, pages: nat, a: Word, x: Word, home: set<nat>)
    requires WellFormed(m, pd, used) && PagesMapped(m, pd, used, pages) && InPlace(m, pd, home)
    requires HEAP_BASE <= a < HEAP_BASE + pages * PAGE && a % 4 == 0
    ensures Access(m, pd, a).Some? && InPlace(Written(m, Access(m, pd, a).value, x), pd, home)
  {
    HeapAccess(m, pd, used, pages, a);
    assert PageFrame(m, pd, PageOf(a)).Some?;
    var c := Access(m, pd, a).value;
    StoreData(m, pd, used, c.frame, c.index, x);
  }

  lemma InPlaceGrown(m: Memory, pd: Frame, used: set<nat>, pages: nat, t: Frame, e: Word, home: set<nat>)
    requires WellFormed(m, pd, used) && pages < HEAP_PAGES && InPlace(m, pd, home)
    requires Present(Entry(m, pd, Dir(PageVa(pages)))) || t !in used
    ensures InPlace(WithPage(m, pd, PageVa(pages), t, 3, e), pd, home)
  {
    var va := PageVa(pages);
    PageParts(pages);
    forall f: nat | f in home
      ensures Walk(WithPage(m, pd, va, t, 3, e), pd, f * 0x1000) == Some(Place(f, 0))
    {
      assert Dir(f * 0x1000) == 0;
      MapWalk(m, pd, used, va, t, 3, e, f * 0x1000);
      OtherRegionsKept(m, pd, used, va, t, e, f * 0x1000);
    }
  }

  /** The heap region is backed by memory, the frames in kept are left alone, and those in home are in place. */
  ghost predicate Housed(m: Memory, pd: Frame, used: set<nat>, total: nat, v: View, boot: Memory, kept: set<nat>,
                         home: set<nat>)
  {
    && Backing(m, pd, used, total, v) && Reserved(m, pd, used, kept) && InPlace(m, pd, home)
    && HomeKept(boot, m, pd, kept, total / PAGE)
  }

  /** A word of the region is a word of memory. */
  lemma HousedWord(m: Memory, pd: Frame, used: set<nat>, total: nat, v: View, a: Word)
    requires Backing(m, pd, used, total, v) && a in v
    ensures Access(m, pd, a).Some? && v[a] == Read(m, Access(m, pd, a).value)
  {
  }

  /** A store to the region changes that word of it, and neither the directory nor the frames in kept. */
  lemma HousedStored(m: Memory, pd: Frame, used: set<nat>, total: nat, v: View, a: Word, x: Word, boot: Memory,
                     kept: set<nat>, home: set<nat>)
    requires Housed(m, pd, used, total, v, boot, kept, home) && a in v
    ensures Access(m, pd, a).Some?
    ensures var n := Written(m, Access(m, pd, a).value, x);
            Housed(n, pd, used, total, v[a := x], boot, kept, home) && Directory(n, pd) == Directory(m, pd)
  {
    BackingKeys(m, pd, used, total, v);
    var pages := total / PAGE;
    assert pages * PAGE == total;
    HeapStoredTables(m, pd, used, pages, a, x);
    HeapStored(m, pd, used, pages, a, x);
    InPlaceStored(m, pd, used, pages, a, x, home);
    HomeStored(boot, m, pd, used, pages, a, x, kept);
  }

  /** One more page of the region. */
  lemma HousedGrown(m: Memory, n: Memory, pd: Frame, used: set<nat>, u: set<nat>, total: nat, v: View, va: Word, t: Frame,
                    f: Frame, next: nat, boot: Memory, kept: set<nat>, home: set<nat>)
    returns (w: View)
    requires Housed(m, pd, used, total, v, boot, kept, home) && total < HEAP_LIMIT && va == HEAP_BASE + total && f !in used
    requires next == total + PAGE && (Present(Entry(m, pd, Dir(va))) || (t !in used && t != f))
    requires n == WithPage(m, pd, va, t, 3, EntryFor(f, 3)) && u == WithTableFrame(m, pd, used, va, t) + {f}
    ensures Housed(n, pd, u, next, w, boot, kept, home) && Extends(v, w)
    ensures Directory(n, pd) == Directory(m, pd)[Dir(va) := Entry(n, pd, Dir(va))]
  {
    var p := total / PAGE;
    assert p * PAGE == total && PageVa(p) == va && (total + PAGE) / PAGE == p + 1;
    PageParts(p);
    HeapGrown(m, pd, used, p, t, f);
    HomeGrown(boot, m, pd, used, p, t, f, kept);
    InPlaceGrown(m, pd, used, p, t, EntryFor(f, 3), home);
    MapKeepsHome(m, pd, used, va, t, 3, EntryFor(f, 3), kept);
    MapKeepsDirectory(m, pd, used, va, t, 3, EntryFor(f, 3));
    w := HeapView(n, pd, next);
  }

  /** With one more frame for the first page, after one for its table if there was none, the first page is on
      that frame, being on no frame that was used before and holds no table. */
  lemma FirstPageIs(m: Memory, n: Memory, pd: Frame, used: set<nat>, t: Frame, f: Frame, g: Frame)
    requires WellFormed(m, pd, used) && Directory(n, pd) == Directory(m, pd)[832 := Entry(n, pd, 832)]
    requires if Present(Entry(m, pd, 832)) then Entry(n, pd, 832) == Entry(m, pd, 832)
             else Present(Entry(n, pd, 832)) && FrameOf(Entry(n, pd, 832)) == t
    requires g in (if Present(Entry(m, pd, 832)) then used else used + {t}) + {f}
    requires OffTables(n, pd, g) && g !in PlainFrames(m, pd, used)
    ensures g == f
  {
    if g in used {
      forall i: nat | i < 1024 && Present(Entry(m, pd, i))
        ensures FrameOf(Entry(m, pd, i)) != g
      {
        assert Directory(n, pd)[i] == Directory(m, pd)[i];
      }
    }
  }

  // ----- The frames that growth takes -----

  /** Mapping page p takes its own frame, and one for its page table if that is to be made. */
  function FramesAt(dir: seq<Word>, p: nat): nat
    requires |dir| == 1024 && p < HEAP_PAGES
  {
    if p % 1024 == 0 && !Present(dir[832 + p / 1024]) then 2 else 1
  }

  /** Mapping k pages from page p on takes a frame for each, and one for each page table to be made. */
  function FramesFor(dir: seq<Word>, p: nat, k: nat): nat
    requires |dir| == 1024 && p + k <= HEAP_PAGES
    decreases k
  {
    if k == 0 then 0
    else FramesAt(dir, p) + FramesFor(dir, p + 1, k - 1)
  }

  lemma {:induction false} FramesForAtMost(dir: seq<Word>, p: nat, k: nat)
    requires |dir| == 1024 && p + k <= HEAP_PAGES
    ensures FramesFor(dir, p, k) <= 2 * k
    decreases k
  {
    if k > 0 {
      FramesForAtMost(dir, p + 1, k - 1);
    }
  }

  /** Only entries of later regions matter for later pages. */
  lemma {:induction false} FramesForLater(dir: seq<Word>, i: nat, e: Word, p: nat, k: nat)
    requires |dir| == 1024 && i < 1024 && p + k <= HEAP_PAGES && i <= 832 + (p - 1) / 1024 && p > 0
    ensures FramesFor(dir[i := e], p, k) == FramesFor(dir, p, k)
    decreases k
  {
    if k > 0 {
      FramesForLater(dir, i, e, p + 1, k - 1);
    }
  }

  /** The frames left over after one page suffice for the others. */
  lemma FramesForNext(dir: seq<Word>, next: seq<Word>, p: nat, k: nat, q: nat, j: nat, frames: int, left: int)
    requires |dir| == 1024 && |next| == 1024 && k > 0 && p + k <= HEAP_PAGES && q == p + 1 && j == k - 1
    requires var i := 832 + p / 1024; next == dir[i := next[i]]
    requires FramesFor(dir, p, k) <= frames
    requires left == frames - FramesAt(dir, p)
    ensures FramesFor(next, q, j) <= left
  {
    FramesForLater(dir, 832 + p / 1024, next[832 + p / 1024], q, j);
  }

  /** Within a region that the heap has already entered the table is there. */
  lemma TableThere(m: Memory, pd: Frame, used: set<nat>, pages: nat)
    requires PagesMapped(m, pd, used, pages) && pages < HEAP_PAGES && pages % 1024 != 0
    ensures Present(Entry(m, pd, Dir(PageVa(pages))))
  {
    PageParts(pages);
    PageParts(pages - 1);
    assert PageFrame(m, pd, pages - 1).Some?;
  }
}
