/** The page directory and page table made before paging is enabled. */
module Boot {
  import opened Mmu
  import opened Tables

  const KERNEL_PT_NUMBER := 768

  /** What the directory in frame pd and the table in frame pt hold when paging is enabled. */
  ghost predicate Booted(m: Memory, pd: Frame, pt: Frame) {
    && pd != pt
    && (forall i: nat :: i < 1024 ==> Entry(m, pt, i) == EntryFor(i, 3))
    && (forall i: nat :: i < 1024 ==>
          Entry(m, pd, i) == if i == 0 || i == KERNEL_PT_NUMBER then EntryFor(pt, 3)
                             else if i == 1023 then EntryFor(pd, 3)
                             else 0)
  }

  /** init_paging: the loop over the table, then the three directory entries. */
  method InitPaging(phys: array<Word>, pd: Frame, pt: Frame)
    requires phys.Length == WORDS && pd != pt
    requires forall i: nat :: i < 1024 ==> Entry(phys[..], pd, i) == 0
    modifies phys
    ensures Booted(phys[..], pd, pt)
    ensures forall i: nat :: i < 1024 ==> Entry(phys[..], pt, i) == i * 0x1000 + 3
    ensures Entry(phys[..], pd, 0) == pt * 0x1000 + 3 && Entry(phys[..], pd, 768) == pt * 0x1000 + 3
    ensures Entry(phys[..], pd, 1023) == pd * 0x1000 + 3
    ensures forall f: Frame, i: nat :: f != pd && f != pt && i < 1024 ==> Entry(phys[..], f, i) == old(Entry(phys[..], f, i))
  {
    var i := 0;
    while i < 1024
      invariant i <= 1024
      invariant forall j: nat :: j < i ==> phys[At(pt, j)] == EntryFor(j, 3)
      invariant forall f: Frame, j: nat :: f != pt && j < 1024 ==> phys[At(f, j)] == old(phys[At(f, j)])
    {
      phys[At(pt, i)] := EntryFor(i, 3);
      i := i + 1;
    }
    assert forall j: nat :: j < 1024 ==> phys[At(pd, j)] == Entry(old(phys[..]), pd, j);
    phys[At(pd, 0)] := EntryFor(pt, 3);
    phys[At(pd, KERNEL_PT_NUMBER)] := EntryFor(pt, 3);
    phys[At(pd, 1023)] := EntryFor(pd, 3);
  }

  /** The base case: the invariant of the tables holds. */
  lemma BootTables(m: Memory, pd: Frame, pt: Frame, used: set<nat>, home: set<nat>)
    requires Booted(m, pd, pt) && pd in used && pt in used
    requires home <= used && pd !in home && pt !in home
    ensures WellFormed(m, pd, used) && Reserved(m, pd, used, home)
  {
  }

  /** The entries for 0 and 3 GiB lead to one table, so that deallocating it would break the invariant. */
  lemma BootTableShared(m: Memory, pd: Frame, pt: Frame)
    requires Booted(m, pd, pt)
    ensures Present(Entry(m, pd, 0)) && Shared(m, pd, 0)
    ensures Present(Entry(m, pd, KERNEL_PT_NUMBER)) && Shared(m, pd, KERNEL_PT_NUMBER)
  {
    assert FrameOf(Entry(m, pd, 0)) == pt && FrameOf(Entry(m, pd, KERNEL_PT_NUMBER)) == pt;
  }

  /** The first four megabytes are mapped to themselves and again at 3 GiB, and apart from the window
      nothing else is mapped. */
  lemma BootWalk(m: Memory, pd: Frame, pt: Frame, w: Word)
    requires Booted(m, pd, pt) && Dir(w) != 1023
    ensures Walk(m, pd, w) == if Dir(w) == 0 || Dir(w) == KERNEL_PT_NUMBER then Some(LowPlace(w)) else None
  {
    var i, j, e := Dir(w), Tbl(w), Entry(m, pd, Dir(w));
    if i == 0 || i == KERNEL_PT_NUMBER {
      assert Present(e) && FrameOf(e) == pt;
      assert Entry(m, pt, j) == EntryFor(j, 3);
    } else {
      assert !Present(e);
    }
  }

  /** The same in numbers: 0 to 0x3FFFFF, 0xC0000000 to 0xC03FFFFF, and the window from 0xFFC00000 on. */
  lemma BootWalkRanges(m: Memory, pd: Frame, pt: Frame, w: Word)
    requires Booted(m, pd, pt)
    ensures w < 0x40_0000 ==> Walk(m, pd, w) == Some(Place(w / 0x1000, w % 0x1000))
    ensures 0xC000_0000 <= w < 0xC040_0000 ==> Walk(m, pd, w) == Some(Place((w - 0xC000_0000) / 0x1000, w % 0x1000))
    ensures 0x40_0000 <= w < 0xC000_0000 || 0xC040_0000 <= w < 0xFFC0_0000 ==> Walk(m, pd, w) == None
  {
    if w < 0xFFC0_0000 {
      BootWalk(m, pd, pt, w);
    }
  }

  /** The byte of the first four megabytes that w stands for. */
  function LowPlace(w: Word): Place {
    Place(Tbl(w), Off(w))
  }

  lemma LowAddress(w: Word)
    ensures LowPlace(w).Address() == w % 0x40_0000
  {
    assert w == Dir(w) * 0x40_0000 + Tbl(w) * 0x1000 + Off(w);
  }

  lemma LowFrame(m: Memory, pd: Frame, pt: Frame, f: nat)
    requires Booted(m, pd, pt) && f < 1024
    ensures Walk(m, pd, f * 0x1000) == Some(Place(f, 0))
  {
    var w := f * 0x1000;
    assert Dir(w) == 0 && Tbl(w) == f && Off(w) == 0;
    BootWalk(m, pd, pt, w);
  }
}
