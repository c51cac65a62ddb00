/** The paging code: page tables edited through the recursive window, with frames from the bitmap. */
module Paging {
  import opened Bits
  import opened Frames
  import opened FrameBitmaps
  import opened Mmu
  import opened Tables
  import opened Seals

  /** From memory m to n: a new table for va, in frame t, has the flags, and va's page is frame f with them. */
  ghost predicate EntriesMade(m: Memory, n: Memory, pd: Frame, va: Word, t: nat, f: nat, flags: nat) {
    && Entry(n, pd, Dir(va)) == (if Present(Entry(m, pd, Dir(va))) then Entry(m, pd, Dir(va)) else t * 0x1000 + flags)
    && Present(Entry(n, pd, Dir(va)))
    && Entry(n, Entry(n, pd, Dir(va)) / 0x1000, Tbl(va)) == f * 0x1000 + flags
  }

  /** The frame for a new table, if there is one, and then that for the page were the lowest free ones. */
  ghost predicate LowestTaken(used: set<nat>, start: nat, limit: nat, withTable: bool, t: nat, f: nat) {
    if withTable then IsLowestFree(used, start, limit, t) && IsLowestFree(used + {t}, start, limit, f)
    else IsLowestFree(used, start, limit, f)
  }

  /** Both: what mapping va to a fresh frame f, with these frames used, made of memory m. */
  ghost predicate PageMade(m: Memory, n: Memory, pd: Frame, used: set<nat>, hint: nat, limit: nat, va: Word,
                           t: nat, f: nat, flags: nat)
  {
    forall k :: Seen(FramesPart, k) ==>
      && EntriesMade(m, n, pd, va, t, f, flags)
      && LowestTaken(used, hint - hint % 8, limit, !Present(Entry(m, pd, Dir(va))), t, f)
  }

  class AddressSpace {
    const phys: array<Word>      // physical memory
    const cr3: Frame             // the frame of the page directory
    const bitmap: FrameBitmap

    ghost function Mem(): Memory
      requires phys.Length == WORDS
      reads phys
    {
      phys[..]
    }

    /** The bytes of the bitmap are modelled as an array of their own.  They lie in the frames of its
        Home(); the words of these frames are never read or written otherwise. */
    ghost predicate Separate() {
      phys as object != bitmap.ptr as object
    }

    ghost predicate Valid()
      reads phys, bitmap, bitmap.ptr
    {
      && phys.Length == WORDS && Separate()
      && bitmap.Valid()
      && WellFormed(Mem(), cr3, bitmap.Used())
      && Reserved(Mem(), cr3, bitmap.Used(), bitmap.Home())
    }

    constructor (phys: array<Word>, cr3: Frame, bitmap: FrameBitmap)
      ensures this.phys == phys && this.cr3 == cr3 && this.bitmap == bitmap
    {
      this.phys, this.cr3, this.bitmap := phys, cr3, bitmap;
    }

    // ----- The processor -----

    ghost function AccessedWord(va: Word): Option<Cell>
      requires phys.Length == WORDS
      reads phys
    {
      Access(Mem(), cr3, va)
    }

    /** The walk, giving the index of the word accessed. */
    method Translate(va: Word) returns (k: nat)
      requires phys.Length == WORDS && AccessedWord(va).Some?
      ensures var c := AccessedWord(va).value; k == At(c.frame, c.index)
    {
      var pde := phys[At(cr3, Dir(va))];
      var pte := phys[At(FrameOf(pde), Tbl(va))];
      k := At(FrameOf(pte), Off(va) / 4);
    }

    method Load(va: Word) returns (w: Word)
      requires phys.Length == WORDS && AccessedWord(va).Some?
      ensures w == Read(Mem(), AccessedWord(va).value)
    {
      var k := Translate(va);
      w := phys[k];
    }

    method Store(va: Word, w: Word)
      requires phys.Length == WORDS && AccessedWord(va).Some?
      modifies phys
      ensures Mem() == Written(old(Mem()), old(AccessedWord(va)).value, w)
    {
      var k := Translate(va);
      phys[k] := w;
    }

    // ----- Addresses and entries, by their bits -----

    static method PageAligned(va: Word) returns (page: Word)
      ensures FrameOf(page) == FrameOf(va) && Dir(page) == Dir(va) && Tbl(page) == Tbl(va)
    {
      MaskedParts(va);
      page := And(va, PAGE_MASK);
    }

    static method DirEntryAddress(virt: Word) returns (pde: Word)
      ensures pde == DirWindow(virt)
    {
      DirWindowBits(virt);
      pde := Or(PAGE_DIR_VADDR, virt / 0x40_0000 * 4);
    }

    static method TableAddress(virt: Word) returns (pt: Word)
      ensures pt == TableWindow(virt)
    {
      TableWindowBits(virt);
      pt := Or(PAGE_DIR_BASE_VADDR, And(virt / 0x1000 * 4, 0x3F_F000));
    }

    static method TableIndex(virt: Word) returns (pte: nat)
      ensures pte == Tbl(virt)
    {
      TableMask(virt);
      pte := And(virt / 0x1000, 0x3FF);
    }

    static method EntryWith(frameAddress: Word, flags: nat) returns (entry: Word)
      requires flags < 0x1000
      ensures entry == EntryFor(FrameOf(frameAddress), flags)
    {
      PageMask(frameAddress);
      FlagBits(FrameOf(frameAddress), flags);
      entry := Or(And(frameAddress, PAGE_MASK), flags);
    }

    // ----- page.c -----

    /** The directory entry of virt is replaced, through the window. */
    method SetPageTable(virt: Word, frameAddress: Word, flags: nat)
      requires phys.Length == WORDS && Recursive(Mem(), cr3) && flags < 0x1000
      modifies phys
      ensures Mem() == Written(old(Mem()), Cell(cr3, Dir(virt)), EntryFor(FrameOf(frameAddress), flags))
    {
      var page := PageAligned(virt);
      var target := PageAligned(frameAddress);
      var pde := DirEntryAddress(page);
      var entry := EntryWith(target, flags);
      DirWindowReachesEntry(Mem(), cr3, virt);
      Store(pde, entry);
    }

    method AllocPageTable(virt: Word, flags: nat) returns (ghost t: nat)
      requires Valid() && bitmap.CanFind() && flags < 0x1000
      modifies phys, bitmap.ptr
      ensures t < FRAMES && t == LowestFree(old(bitmap.Used()), ScanStart(bitmap.lastChecked), bitmap.Limit())
      ensures IsLowestFree(old(bitmap.Used()), bitmap.lastChecked - bitmap.lastChecked % 8, bitmap.Limit(), t)
      ensures bitmap.Used() == old(bitmap.Used()) + {t} && bitmap.Available() == old(bitmap.Available()) - 1
      ensures Mem() == Written(old(Mem()), Cell(cr3, Dir(virt)), EntryFor(t, flags))
      ensures Dir(virt) != 1023 && !Present(old(Entry(Mem(), cr3, Dir(virt)))) && flags % 2 == 1 ==>
                Valid() && WordsKept(old(Mem()), Mem(), bitmap.Home()) && Slot(Mem(), cr3, virt).Some?
    {
      var frameAddress := bitmap.GetFrame();
      SetPageTable(virt, frameAddress, flags);
      t := frameAddress / 0x1000;
      if Dir(virt) != 1023 && !Present(old(Entry(Mem(), cr3, Dir(virt)))) && flags % 2 == 1 {
        NewTable(old(Mem()), cr3, old(bitmap.Used()), virt, t, flags, bitmap.Home());
      }
    }

    /** The entry's frame number is freed although the value passed on still carries the flag bits. */
    method DeallocPageTable(virt: Word)
      requires phys.Length == WORDS && Separate() && Recursive(Mem(), cr3)
      requires FrameOf(Entry(Mem(), cr3, Dir(virt))) < bitmap.Limit()
      modifies phys, bitmap`lastChecked, bitmap.ptr
      ensures Mem() == Written(old(Mem()), Cell(cr3, Dir(virt)), 0)
      ensures bitmap.Used() == old(bitmap.Used()) - {FrameOf(old(Entry(Mem(), cr3, Dir(virt))))}
      ensures old(Valid()) && Dir(virt) != 1023 && Present(old(Entry(Mem(), cr3, Dir(virt)))) ==>
                (Valid() <==> !Shared(old(Mem()), cr3, Dir(virt))) && WordsKept(old(Mem()), Mem(), bitmap.Home())
    {
      if Valid() && Dir(virt) != 1023 && Present(Entry(Mem(), cr3, Dir(virt))) {
        ClearedTable(Mem(), cr3, bitmap.Used(), Dir(virt), bitmap.Home());
      }
      FreeEntry(virt);
    }

    method FreeEntry(virt: Word)
      requires phys.Length == WORDS && Separate() && Recursive(Mem(), cr3)
      requires FrameOf(Entry(Mem(), cr3, Dir(virt))) < bitmap.Limit()
      modifies phys, bitmap`lastChecked, bitmap.ptr
      ensures Mem() == Written(old(Mem()), Cell(cr3, Dir(virt)), 0)
      ensures bitmap.Used() == old(bitmap.Used()) - {FrameOf(old(Entry(Mem(), cr3, Dir(virt))))}
    {
      var page := PageAligned(virt);
      var pde := DirEntryAddress(page);
      DirWindowReachesEntry(Mem(), cr3, virt);
      var frameAddress := Load(pde);
      var r := bitmap.FreeFrame(frameAddress);
      assert Mem() == old(Mem());
      Store(pde, 0);
    }

    /** A table is made for an absent region and given up again: the used frames, every translation and the
        invariant are as before. */
    method TableAndBack(virt: Word, flags: nat)
      requires Valid() && bitmap.CanFind() && flags < 0x1000 && flags % 2 == 1
      requires Dir(virt) != 1023 && !Present(Entry(Mem(), cr3, Dir(virt)))
      modifies phys, bitmap`lastChecked, bitmap.ptr
      ensures Valid() && bitmap.Used() == old(bitmap.Used())
      ensures Entry(Mem(), cr3, Dir(virt)) == 0
      ensures forall w: Word :: Walk(Mem(), cr3, w) == Walk(old(Mem()), cr3, w)
    {
      ghost var m, used := Mem(), bitmap.Used();
      ghost var t := AllocPageTable(virt, flags);
      TableRoundTrip(m, cr3, used, Dir(virt), t, flags);
      EntryStored(m, cr3, Dir(virt), EntryFor(t, flags), cr3, Dir(virt));
      EntryStored(Mem(), cr3, Dir(virt), 0, cr3, Dir(virt));
      NotShared(m, Mem(), used, Dir(virt), t, flags);
      DeallocPageTable(virt);
    }

    lemma NotShared(m: Memory, n: Memory, used: set<nat>, i: Index, t: Frame, flags: nat)
      requires WellFormed(m, cr3, used) && i < 1023 && t !in used && flags < 0x1000 && flags % 2 == 1
      requires n == Written(m, Cell(cr3, i), EntryFor(t, flags))
      ensures Present(Entry(n, cr3, i)) && !Shared(n, cr3, i)
    {
      forall j: Index
        ensures Entry(n, cr3, j) == if j == i then EntryFor(t, flags) else Entry(m, cr3, j)
      {
        EntryStored(m, cr3, i, EntryFor(t, flags), cr3, j);
      }
    }

    /** The page-table entry of virt is replaced, through the window. */
    method SetPage(virt: Word, frameAddress: Word, flags: nat)
      requires phys.Length == WORDS && Recursive(Mem(), cr3) && flags < 0x1000
      requires Slot(Mem(), cr3, virt).Some?
      modifies phys
      ensures Mem() == Written(old(Mem()), Slot(old(Mem()), cr3, virt).value, EntryFor(FrameOf(frameAddress), flags))
    {
      var page := PageAligned(virt);
      var target := PageAligned(frameAddress);
      var pt := TableAddress(page);
      var pte := TableIndex(page);
      var entry := EntryWith(target, flags);
      TableWindowReachesEntry(Mem(), cr3, virt);
      Store(pt + pte * 4, entry);
    }

    method AllocPage(virt: Word, flags: nat) returns (ghost f: nat)
      requires Valid() && bitmap.CanFind() && flags < 0x1000
      requires Slot(Mem(), cr3, virt).Some?
      modifies phys, bitmap.ptr
      ensures f < FRAMES && f == LowestFree(old(bitmap.Used()), ScanStart(bitmap.lastChecked), bitmap.Limit())
      ensures IsLowestFree(old(bitmap.Used()), bitmap.lastChecked - bitmap.lastChecked % 8, bitmap.Limit(), f)
      ensures bitmap.Used() == old(bitmap.Used()) + {f} && bitmap.Available() == old(bitmap.Available()) - 1
      ensures Mem() == Written(old(Mem()), Slot(old(Mem()), cr3, virt).value, EntryFor(f, flags))
    {
      var frameAddress := bitmap.GetFrame();
      SetPage(virt, frameAddress, flags);
      f := frameAddress / 0x1000;
    }

    /** The present bit of the directory entry, read through the window. */
    method HasTable(virt: Word) returns (present: bool)
      requires phys.Length == WORDS && Recursive(Mem(), cr3)
      ensures present == Present(Entry(Mem(), cr3, Dir(virt)))
    {
      var entry := DirEntryAddress(virt);
      DirWindowReachesEntry(Mem(), cr3, virt);
      var pde := Load(entry);
      present := pde % 2 == 1;
    }

    method MapPage(virt: Word, frameAddress: Word, flags: nat) returns (ghost t: nat)
      requires Valid() && Dir(virt) != 1023 && flags < 0x1000
      requires Present(Entry(Mem(), cr3, Dir(virt))) || (flags % 2 == 1 && bitmap.CanFind())
      modifies phys, bitmap.ptr
      ensures Valid() && t < FRAMES
      ensures bitmap.Used() == WithTableFrame(old(Mem()), cr3, old(bitmap.Used()), virt, t)
      ensures Mem() == WithPage(old(Mem()), cr3, virt, t, flags, EntryFor(FrameOf(frameAddress), flags))
      ensures forall w: Word ::
                Walk(Mem(), cr3, w) == NewWalk(old(Mem()), cr3, virt, t, EntryFor(FrameOf(frameAddress), flags), w)
      ensures EntriesMade(old(Mem()), Mem(), cr3, virt, t, frameAddress / 0x1000, flags)
      ensures WordsKept(old(Mem()), Mem(), bitmap.Home())
    {
      t := 0;
      var present := HasTable(virt);
      if present {
        SetPage(virt, frameAddress, flags);
      } else {
        t := AllocPageTable(virt, flags);
        SetPage(virt, frameAddress, flags);
      }
      MappedEntries(old(Mem()), cr3, old(bitmap.Used()), virt, t, flags, EntryFor(FrameOf(frameAddress), flags));
      MappedPage(old(Mem()), cr3, old(bitmap.Used()), virt, t, flags, EntryFor(FrameOf(frameAddress), flags), bitmap.Home(),
                 bitmap.Used());
    }

    /** The number of frames that mapping virt to a frame of its own takes. */
    ghost function FramesToMap(virt: Word): nat
      requires phys.Length == WORDS
      reads phys
    {
      if Present(Entry(Mem(), cr3, Dir(virt))) then 1 else 2
    }

    /** The frames are taken and the entries made, present telling whether there is a table. */
    method AllocEntries(virt: Word, flags: nat, present: bool) returns (ghost t: nat, ghost f: nat)
      requires Valid() && Dir(virt) != 1023 && flags < 0x1000
      requires present == Present(Entry(Mem(), cr3, Dir(virt))) && (present || flags % 2 == 1)
      requires FramesToMap(virt) <= bitmap.Available()
      modifies phys, bitmap.ptr
      ensures t < FRAMES && f < FRAMES && f !in old(bitmap.Used()) && (!present ==> t !in old(bitmap.Used()) && t != f)
      ensures LowestTaken(old(bitmap.Used()), bitmap.lastChecked - bitmap.lastChecked % 8, bitmap.Limit(), !present, t, f)
      ensures bitmap.Used() == WithTableFrame(old(Mem()), cr3, old(bitmap.Used()), virt, t) + {f}
      ensures bitmap.Available() == old(bitmap.Available()) - old(FramesToMap(virt))
      ensures Mem() == WithPage(old(Mem()), cr3, virt, t, flags, EntryFor(f, flags))
    {
      t := 0;
      SomeFindable(bitmap.Used(), ScanStart(bitmap.lastChecked), bitmap.Limit());
      if present {
        f := AllocPage(virt, flags);
      } else {
        t := AllocPageTable(virt, flags);
        SomeFindable(bitmap.Used(), ScanStart(bitmap.lastChecked), bitmap.Limit());
        f := AllocPage(virt, flags);
      }
    }

    method AllocMapPage(virt: Word, flags: nat) returns (ghost t: nat, ghost f: nat)
      requires Valid() && Dir(virt) != 1023 && flags < 0x1000
      requires Present(Entry(Mem(), cr3, Dir(virt))) || flags % 2 == 1
      requires FramesToMap(virt) <= bitmap.Available()
      modifies phys, bitmap.ptr
      ensures Valid() && t < FRAMES && f < FRAMES && f !in old(bitmap.Used())
      ensures !Present(old(Entry(Mem(), cr3, Dir(virt)))) ==> t !in old(bitmap.Used()) && t != f
      ensures bitmap.Used() == WithTableFrame(old(Mem()), cr3, old(bitmap.Used()), virt, t) + {f}
      ensures bitmap.Available() == old(bitmap.Available()) - old(FramesToMap(virt))
      ensures Mem() == WithPage(old(Mem()), cr3, virt, t, flags, EntryFor(f, flags))
      ensures forall w: Word :: Walk(Mem(), cr3, w) == NewWalk(old(Mem()), cr3, virt, t, EntryFor(f, flags), w)
      ensures PageMade(old(Mem()), Mem(), cr3, old(bitmap.Used()), bitmap.lastChecked, bitmap.Limit(), virt, t, f, flags)
      ensures WordsKept(old(Mem()), Mem(), bitmap.Home())
    {
      var present := HasTable(virt);
      t, f := AllocEntries(virt, flags, present);
      MappedEntries(old(Mem()), cr3, old(bitmap.Used()), virt, t, flags, EntryFor(f, flags));
      MappedPage(old(Mem()), cr3, old(bitmap.Used()), virt, t, flags, EntryFor(f, flags), bitmap.Home(), bitmap.Used());
    }
  }
}
