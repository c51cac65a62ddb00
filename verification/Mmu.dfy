/** Physical memory as 32-bit words, and the two-level page walk of 32-bit paging
    (section 4.3 of the Intel 64 and IA-32 Architectures Software Developer's Manual, Volume 3A). */
module Mmu {
  import opened Arithmetic
  import opened Bits

  const WORD_LIMIT := 0x1_0000_0000
  const FRAMES := 0x10_0000     // page frames of physical memory
  const WORDS := 0x4000_0000    // 32-bit words of physical memory

  type Word = w: nat | w < WORD_LIMIT
  type Frame = f: nat | f < FRAMES
  type Index = i: nat | i < 1024   // of a word in its frame

  /** The contents of physical memory, one word for each four bytes. */
  type Memory = m: seq<Word> | |m| == WORDS ghost witness seq(WORDS, _ => 0)

  datatype Option<T> = None | Some(value: T)

  // ----- Parts of a linear address and of an entry -----

  function Dir(va: Word): Index {
    va / 0x40_0000
  }

  function Tbl(va: Word): Index {
    va / 0x1000 % 1024
  }

  function Off(va: Word): (i: nat)
    ensures i < 0x1000
  {
    va % 0x1000
  }

  predicate Present(entry: Word) {
    entry % 2 == 1
  }

  function FrameOf(entry: Word): (f: Frame)
  {
    entry / 0x1000
  }

  /** The entry that maps frame f with the given low bits. */
  function EntryFor(f: Frame, flags: nat): (e: Word)
    requires flags < 0x1000
    ensures FrameOf(e) == f && (Present(e) <==> flags % 2 == 1)
  {
    f * 0x1000 + flags
  }

  // ----- The walk -----

  /** A word of physical memory. */
  datatype Cell = Cell(frame: Frame, index: Index)

  /** A byte of physical memory: its frame and its offset there. */
  datatype Place = Place(frame: Frame, offset: nat) {
    function Address(): nat {
      frame * 0x1000 + offset
    }
  }

  function At(f: Frame, i: Index): nat {
    f * 1024 + i
  }

  lemma AtInjective(f: Frame, i: Index, g: Frame, j: Index)
    requires At(f, i) == At(g, j)
    ensures f == g && i == j
  {
    Euclid(At(f, i), f, i, 1024);
    Euclid(At(f, i), g, j, 1024);
  }

  function Entry(m: Memory, f: Frame, i: Index): Word {
    m[At(f, i)]
  }

  function Read(m: Memory, c: Cell): Word {
    Entry(m, c.frame, c.index)
  }

  function Written(m: Memory, c: Cell, x: Word): Memory {
    m[At(c.frame, c.index) := x]
  }

  /** A store to entry i of frame f changes no other entry of any frame. */
  lemma EntryStored(m: Memory, f: Frame, i: Index, x: Word, g: Frame, j: Index)
    ensures Entry(Written(m, Cell(f, i), x), g, j) == if f == g && i == j then x else Entry(m, g, j)
  {
    if At(f, i) == At(g, j) {
      AtInjective(f, i, g, j);
    }
  }

  function Through(entry: Word, va: Word): Option<Place> {
    if Present(entry) then Some(Place(FrameOf(entry), Off(va))) else None
  }

  /** The word that the walk for va reads as its page-table entry. */
  function Slot(m: Memory, pd: Frame, va: Word): Option<Cell> {
    var pde := Entry(m, pd, Dir(va));
    if Present(pde) then Some(Cell(FrameOf(pde), Tbl(va))) else None
  }

  /** The place va translates to, or None for a page fault. */
  function Walk(m: Memory, pd: Frame, va: Word): Option<Place> {
    var pde := Entry(m, pd, Dir(va));
    if Present(pde) then Through(Entry(m, FrameOf(pde), Tbl(va)), va) else None
  }

  /** The word that an aligned access to va reads or writes. */
  function Access(m: Memory, pd: Frame, va: Word): Option<Cell> {
    var w := Walk(m, pd, va);
    if va % 4 == 0 && w.Some? then Some(Cell(w.value.frame, Off(va) / 4)) else None
  }

  /** It is the word at the physical address that the walk gives. */
  lemma AccessIsWalk(m: Memory, pd: Frame, va: Word)
    requires va % 4 == 0 && Walk(m, pd, va).Some?
    ensures var c := Access(m, pd, va).value; At(c.frame, c.index) * 4 == Walk(m, pd, va).value.Address()
  {
    AlignedOffset(va);
  }

  lemma AlignedOffset(va: Word)
    requires va % 4 == 0
    ensures Off(va) / 4 * 4 == Off(va)
  {
    Euclid(Off(va), va / 4 - va / 0x1000 * 0x400, 0, 4);
  }

  /** Addresses of one page translate to one frame. */
  lemma WalkOnPage(m: Memory, pd: Frame, a: Word, page: Word)
    requires Dir(a) == Dir(page) && Tbl(a) == Tbl(page) && Walk(m, pd, page).Some?
    ensures Walk(m, pd, a) == Some(Place(Walk(m, pd, page).value.frame, Off(a)))
  {
  }

  // ----- The masks of the paging code -----

  const PAGE_DIR_BASE_VADDR: Word := 0xFFC0_0000
  const PAGE_DIR_VADDR: Word := 0xFFFF_F000
  const PAGE_MASK: Word := 0xFFFF_F000     // ~0xFFF

  /** The page mask clears the offset. */
  lemma PageMask(va: Word)
    ensures And(va, PAGE_MASK) == FrameOf(va) * 0x1000
  {
    Pow2Values();
    AndShifted(va, PAGE_MASK, FrameOf(va), Off(va), 0xF_FFFF, 12, 0x1000);
    AndLow(FrameOf(va), 0xF_FFFF, 0, FrameOf(va), 20, 0x10_0000);
  }

  /** Ten bits above the offset are the index into the page table. */
  lemma TableMask(va: Word)
    ensures And(va / 0x1000, 0x3FF) == Tbl(va)
  {
    Pow2Values();
    AndLow(va / 0x1000, 0x3FF, Dir(va), Tbl(va), 10, 0x400);
  }

  /** Flags are or-ed into the low bits of a page's address. */
  lemma FlagBits(f: Frame, flags: nat)
    requires flags < 0x1000
    ensures Or(f * 0x1000, flags) == EntryFor(f, flags)
  {
    Pow2Values();
    OrOf(f * 0x1000, flags, f, 12, 0x1000);
  }

  /** Where the directory entry of va appears in the window. */
  function DirWindow(va: Word): Word {
    PAGE_DIR_VADDR + Dir(va) * 4
  }

  /** Where the page table of va appears in the window. */
  function TableWindow(va: Word): Word {
    PAGE_DIR_BASE_VADDR + Dir(va) * 0x1000
  }

  /** Where the page-table entry of va appears in the window. */
  function EntryWindow(va: Word): Word {
    TableWindow(va) + Tbl(va) * 4
  }

  lemma DirWindowBits(va: Word)
    ensures Or(PAGE_DIR_VADDR, va / 0x40_0000 * 4) == DirWindow(va)
  {
    Pow2Values();
    OrOf(PAGE_DIR_VADDR, Dir(va) * 4, 0xF_FFFF, 12, 0x1000);
  }

  lemma TableWindowBits(va: Word)
    ensures Or(PAGE_DIR_BASE_VADDR, And(va / 0x1000 * 4, 0x3F_F000)) == TableWindow(va)
  {
    Pow2Values();
    AndShifted(va / 0x1000 * 4, 0x3F_F000, Dir(va), Tbl(va) * 4, 0x3FF, 12, 0x1000);
    AndLow(Dir(va), 0x3FF, 0, Dir(va), 10, 0x400);
    OrOf(PAGE_DIR_BASE_VADDR, Dir(va) * 0x1000, 0x3FF, 22, 0x40_0000);
  }

  /** Masking the page offset of an address leaves its frame and both of its indices. */
  lemma MaskedParts(va: Word)
    ensures var r := And(va, PAGE_MASK);
            r < WORD_LIMIT && FrameOf(r) == FrameOf(va) && Dir(r) == Dir(va) && Tbl(r) == Tbl(va)
  {
    PageMask(va);
    Euclid(FrameOf(va) * 0x1000, FrameOf(va), 0, 0x1000);
    Euclid(FrameOf(va) * 0x1000, Dir(va), Tbl(va) * 0x1000, 0x40_0000);
  }

  // ----- The recursive window -----

  ghost predicate Recursive(m: Memory, pd: Frame) {
    Present(Entry(m, pd, 1023)) && FrameOf(Entry(m, pd, 1023)) == pd
  }

  lemma DirWindowParts(va: Word)
    ensures var w := DirWindow(va); w % 4 == 0 && Dir(w) == 1023 && Tbl(w) == 1023 && Off(w) / 4 == Dir(va)
  {
    var w := DirWindow(va);
    assert Off(w) == Dir(va) * 4;
  }

  /** The window address of a directory entry leads back to the directory itself. */
  lemma DirWindowReachesEntry(m: Memory, pd: Frame, va: Word)
    requires Recursive(m, pd)
    ensures Access(m, pd, DirWindow(va)) == Some(Cell(pd, Dir(va)))
  {
    DirWindowParts(va);
  }

  lemma EntryWindowParts(va: Word)
    ensures var w := EntryWindow(va); w % 4 == 0 && Dir(w) == 1023 && Tbl(w) == Dir(va) && Off(w) / 4 == Tbl(va)
  {
    var w := EntryWindow(va);
    Euclid(w, 1023, Dir(va) * 0x1000 + Tbl(va) * 4, 0x40_0000);
    Euclid(w, 0xF_FC00 + Dir(va), Tbl(va) * 4, 0x1000);
    Euclid(0xF_FC00 + Dir(va), 1023, Dir(va), 1024);
    Euclid(w, w / 0x1000 * 1024 + Tbl(va), 0, 4);
  }

  /** The store through the window lands on exactly the entry that the walk for va reads. */
  lemma TableWindowReachesEntry(m: Memory, pd: Frame, va: Word)
    requires Recursive(m, pd) && Slot(m, pd, va).Some?
    ensures Access(m, pd, EntryWindow(va)) == Slot(m, pd, va)
  {
    EntryWindowParts(va);
  }
}
