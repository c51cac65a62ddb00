/** The invariant of the page tables, and what one store into them does to every translation. */
module Tables {
  import opened Mmu

  /** The entries of the directory. */
  ghost function Directory(m: Memory, pd: Frame): (d: seq<Word>)
    ensures |d| == 1024 && forall i: nat :: i < 1024 ==> d[i] == Entry(m, pd, i)
  {
    m[At(pd, 0)..At(pd, 0) + 1024]
  }

  /** PD[0] and PD[768] share the page table made at boot. */
  predicate BootPair(i: nat, j: nat) {
    i == 0 && j == 768
  }

  /** The recursive entry is intact; the directory and every table lie in used frames; no two present
      entries of the directory lead to the same frame, the boot pair excepted. */
  ghost predicate WellFormed(m: Memory, pd: Frame, used: set<nat>) {
    && pd in used
    && Recursive(m, pd)
    && (forall i: nat :: i < 1024 && Present(Entry(m, pd, i)) ==> FrameOf(Entry(m, pd, i)) in used)
    && (forall i: nat, j: nat :: i < j < 1024 && Present(Entry(m, pd, i)) && Present(Entry(m, pd, j)) && !BootPair(i, j)
                                 ==> FrameOf(Entry(m, pd, i)) != FrameOf(Entry(m, pd, j)))
  }

  /** Frame f holds neither the directory nor a table. */
  ghost predicate OffTables(m: Memory, pd: Frame, f: nat) {
    && f != pd
    && forall i: nat :: i < 1024 && Present(Entry(m, pd, i)) ==> FrameOf(Entry(m, pd, i)) != f
  }

  /** Two directory entries lead to the same table. */
  ghost predicate Shared(m: Memory, pd: Frame, i: nat)
    requires i < 1024 && Present(Entry(m, pd, i))
  {
    exists j: nat :: j < 1024 && j != i && Present(Entry(m, pd, j)) && FrameOf(Entry(m, pd, j)) == FrameOf(Entry(m, pd, i))
  }

  lemma OneTableOneEntry(m: Memory, pd: Frame, used: set<nat>, i: nat, j: nat)
    requires WellFormed(m, pd, used) && i < 1024 && j < 1024 && !BootPair(i, j) && !BootPair(j, i)
    requires Present(Entry(m, pd, i)) && Present(Entry(m, pd, j))
    requires FrameOf(Entry(m, pd, i)) == FrameOf(Entry(m, pd, j))
    ensures i == j
  {
  }

  lemma UnusedIsOffTables(m: Memory, pd: Frame, used: set<nat>, f: nat)
    requires WellFormed(m, pd, used) && f !in used
    ensures OffTables(m, pd, f)
  {
  }

  /** A store outside the directory and the tables changes no translation. */
  lemma StoreData(m: Memory, pd: Frame, used: set<nat>, f: Frame, k: nat, x: Word)
    requires WellFormed(m, pd, used) && OffTables(m, pd, f) && k < 1024
    ensures var n := Written(m, Cell(f, k), x);
            && WellFormed(n, pd, used)
            && Directory(n, pd) == Directory(m, pd)
            && (forall w: Word :: Walk(n, pd, w) == Walk(m, pd, w))
  {
    var n := Written(m, Cell(f, k), x);
    forall i: nat | i < 1024
      ensures Entry(n, pd, i) == Entry(m, pd, i)
    {
      EntryStored(m, f, k, x, pd, i);
    }
    forall w: Word
      ensures Walk(n, pd, w) == Walk(m, pd, w)
    {
      EntryStored(m, f, k, x, FrameOf(Entry(m, pd, Dir(w))), Tbl(w));
    }
  }

  /** A store into the page-table entry of va changes the translation of exactly the addresses whose
      walk reads that entry. */
  lemma StoreEntry(m: Memory, pd: Frame, used: set<nat>, va: Word, entry: Word)
    requires WellFormed(m, pd, used) && Dir(va) != 1023 && Slot(m, pd, va).Some?
    ensures var n := Written(m, Slot(m, pd, va).value, entry);
            && WellFormed(n, pd, used)
            && (forall i: nat :: i < 1024 ==> Entry(n, pd, i) == Entry(m, pd, i))
            && forall w: Word ::
                 Walk(n, pd, w) == if Slot(m, pd, w) == Slot(m, pd, va) then Through(entry, w) else Walk(m, pd, w)
  {
    var n := Written(m, Slot(m, pd, va).value, entry);
    var t, k := FrameOf(Entry(m, pd, Dir(va))), Tbl(va);
    assert t != pd;
    forall i: nat | i < 1024
      ensures Entry(n, pd, i) == Entry(m, pd, i)
    {
      EntryStored(m, t, k, entry, pd, i);
    }
    forall w: Word
      ensures Walk(n, pd, w) == if Slot(m, pd, w) == Slot(m, pd, va) then Through(entry, w) else Walk(m, pd, w)
    {
      EntryStored(m, t, k, entry, FrameOf(Entry(m, pd, Dir(w))), Tbl(w));
    }
  }

  /** Entering a fresh frame as the table of an absent region: the region then reads whatever the
      frame held before, because the table is not cleared. */
  lemma StoreTable(m: Memory, pd: Frame, used: set<nat>, i: nat, t: Frame, flags: nat)
    requires WellFormed(m, pd, used) && i < 1023 && !Present(Entry(m, pd, i))
    requires t !in used && flags < 0x1000 && flags % 2 == 1
    ensures var n := Written(m, Cell(pd, i), EntryFor(t, flags));
            && WellFormed(n, pd, used + {t})
            && (forall j: nat :: j < 1024 && j != i ==> Entry(n, pd, j) == Entry(m, pd, j))
            && Entry(n, pd, i) == EntryFor(t, flags)
            && forall w: Word ::
                 Walk(n, pd, w) == if Dir(w) == i then Through(Entry(m, t, Tbl(w)), w)
                                   else if Dir(w) == 1023 && Tbl(w) == i then Some(Place(t, Off(w)))
                                   else Walk(m, pd, w)
  {
    var e := EntryFor(t, flags);
    var n := Written(m, Cell(pd, i), e);
    assert Present(e) && FrameOf(e) == t;
    forall j: nat | j < 1024 && j != i
      ensures Entry(n, pd, j) == Entry(m, pd, j)
    {
      EntryStored(m, pd, i, Entry(n, pd, i), pd, j);
    }
    assert Entry(n, pd, i) == e;
    forall w: Word
      ensures Walk(n, pd, w) == if Dir(w) == i then Through(Entry(m, t, Tbl(w)), w)
                                else if Dir(w) == 1023 && Tbl(w) == i then Some(Place(t, Off(w)))
                                else Walk(m, pd, w)
    {
      StoreTableWalk(m, pd, used, i, e, w);
    }
  }

  lemma StoreTableWalk(m: Memory, pd: Frame, used: set<nat>, i: nat, e: Word, w: Word)
    requires WellFormed(m, pd, used) && i < 1023 && !Present(Entry(m, pd, i))
    requires FrameOf(e) !in used && Present(e)
    ensures var n := Written(m, Cell(pd, i), e);
            var t := FrameOf(e);
            Walk(n, pd, w) == if Dir(w) == i then Through(Entry(m, t, Tbl(w)), w)
                              else if Dir(w) == 1023 && Tbl(w) == i then Some(Place(t, Off(w)))
                              else Walk(m, pd, w)
  {
    var n := Written(m, Cell(pd, i), e);
    var f := FrameOf(Entry(m, pd, Dir(w)));
    EntryStored(m, pd, i, e, pd, Dir(w));
    if Dir(w) == i {
      EntryStored(m, pd, i, e, FrameOf(e), Tbl(w));
    } else if Dir(w) == 1023 {
      EntryStored(m, pd, i, e, pd, Tbl(w));
    } else if Present(Entry(m, pd, Dir(w))) {
      assert f != pd;
      EntryStored(m, pd, i, e, f, Tbl(w));
    }
  }

  /** Clearing a directory entry and freeing its frame keeps the invariant exactly when no other entry
      leads to that frame. */
  lemma ClearTable(m: Memory, pd: Frame, used: set<nat>, i: nat)
    requires WellFormed(m, pd, used) && i < 1023 && Present(Entry(m, pd, i))
    ensures var n := Written(m, Cell(pd, i), 0);
            && (forall j: nat :: j < 1024 && j != i ==> Entry(n, pd, j) == Entry(m, pd, j))
            && (WellFormed(n, pd, used - {FrameOf(Entry(m, pd, i))}) <==> !Shared(m, pd, i))
  {
    var n := Written(m, Cell(pd, i), 0);
    forall j: nat | j < 1024 && j != i
      ensures Entry(n, pd, j) == Entry(m, pd, j)
    {
      EntryStored(m, pd, i, Entry(n, pd, i), pd, j);
    }
    assert Entry(n, pd, i) == 0;
    assert FrameOf(Entry(m, pd, i)) != pd;
  }

  // ----- Mapping one page -----

  /** The directory entry for va's table is in place: the one there, or a new one for frame t. */
  function WithTable(m: Memory, pd: Frame, va: Word, t: Frame, flags: nat): (n: Memory)
    requires flags < 0x1000
    ensures Present(Entry(m, pd, Dir(va))) || flags % 2 == 1 ==> Slot(n, pd, va).Some?
  {
    if Present(Entry(m, pd, Dir(va))) then m else Written(m, Cell(pd, Dir(va)), EntryFor(t, flags))
  }

  /** Memory after va's page has been given the entry e. */
  function WithPage(m: Memory, pd: Frame, va: Word, t: Frame, flags: nat, e: Word): Memory
    requires flags < 0x1000 && (Present(Entry(m, pd, Dir(va))) || flags % 2 == 1)
  {
    var n := WithTable(m, pd, va, t, flags);
    Written(n, Slot(n, pd, va).value, e)
  }

  /** What address w translates to afterwards. */
  function NewWalk(m: Memory, pd: Frame, va: Word, t: Frame, e: Word, w: Word): Option<Place> {
    if Present(Entry(m, pd, Dir(va))) then
      (if Slot(m, pd, w) == Slot(m, pd, va) then Through(e, w) else Walk(m, pd, w))
    else if Dir(w) == Dir(va) then
      (if Tbl(w) == Tbl(va) then Through(e, w) else Through(Entry(m, t, Tbl(w)), w))
    else if Dir(w) == 1023 && Tbl(w) == Dir(va) then Some(Place(t, Off(w)))
    else Walk(m, pd, w)
  }

  /** The frames in use once va's table exists. */
  function WithTableFrame(m: Memory, pd: Frame, used: set<nat>, va: Word, t: Frame): set<nat> {
    if Present(Entry(m, pd, Dir(va))) then used else used + {t}
  }

  /** Mapping a page keeps the invariant and changes translations in exactly one way. */
  lemma MapKeepsTables(m: Memory, pd: Frame, used: set<nat>, va: Word, t: Frame, flags: nat, e: Word)
    requires WellFormed(m, pd, used) && Dir(va) != 1023 && flags < 0x1000
    requires Present(Entry(m, pd, Dir(va))) || (t !in used && flags % 2 == 1)
    ensures var n := WithPage(m, pd, va, t, flags, e);
            && WellFormed(n, pd, WithTableFrame(m, pd, used, va, t))
            && (forall w: Word :: Walk(n, pd, w) == NewWalk(m, pd, va, t, e, w))
            && (forall j: nat :: j < 1024 && j != Dir(va) ==> Entry(n, pd, j) == Entry(m, pd, j))
            && Entry(n, pd, Dir(va)) == Entry(WithTable(m, pd, va, t, flags), pd, Dir(va))
  {
    if Present(Entry(m, pd, Dir(va))) {
      StoreEntry(m, pd, used, va, e);
    } else {
      StoreTable(m, pd, used, Dir(va), t, flags);
      var k := WithTable(m, pd, va, t, flags);
      StoreEntry(k, pd, used + {t}, va, e);
      forall w: Word
        ensures Slot(k, pd, w) == Slot(k, pd, va) <==> Dir(w) == Dir(va) && Tbl(w) == Tbl(va)
      {
        SlotsOfNewTable(m, k, pd, used, va, t, w);
      }
    }
  }

  /** The same for one address. */
  lemma MapWalk(m: Memory, pd: Frame, used: set<nat>, va: Word, t: Frame, flags: nat, e: Word, w: Word)
    requires WellFormed(m, pd, used) && Dir(va) != 1023 && flags < 0x1000
    requires Present(Entry(m, pd, Dir(va))) || (t !in used && flags % 2 == 1)
    ensures Walk(WithPage(m, pd, va, t, flags, e), pd, w) == NewWalk(m, pd, va, t, e, w)
  {
    MapKeepsTables(m, pd, used, va, t, flags, e);
  }

  /** And for the tables alone. */
  lemma MapTables(m: Memory, pd: Frame, used: set<nat>, va: Word, t: Frame, flags: nat, e: Word)
    requires WellFormed(m, pd, used) && Dir(va) != 1023 && flags < 0x1000
    requires Present(Entry(m, pd, Dir(va))) || (t !in used && flags % 2 == 1)
    ensures WellFormed(WithPage(m, pd, va, t, flags, e), pd, WithTableFrame(m, pd, used, va, t))
    ensures forall f :: OffTables(m, pd, f) && (Present(Entry(m, pd, Dir(va))) || f != t) ==>
              OffTables(WithPage(m, pd, va, t, flags, e), pd, f)
  {
    MapKeepsTables(m, pd, used, va, t, flags, e);
  }

  /** Outside the region of va, the regions that share its table and the window, translations stay. */
  lemma OtherRegionsKept(m: Memory, pd: Frame, used: set<nat>, va: Word, t: Frame, e: Word, w: Word)
    requires WellFormed(m, pd, used) && Dir(va) != 1023
    requires Dir(w) != Dir(va) && Dir(w) != 1023 && !BootPair(Dir(w), Dir(va)) && !BootPair(Dir(va), Dir(w))
    ensures NewWalk(m, pd, va, t, e, w) == Walk(m, pd, w)
  {
    if Slot(m, pd, w).Some? && Slot(m, pd, w) == Slot(m, pd, va) {
      OneTableOneEntry(m, pd, used, Dir(w), Dir(va));
    }
  }

  /** No other entry of the directory is changed. */
  lemma MapKeepsDirectory(m: Memory, pd: Frame, used: set<nat>, va: Word, t: Frame, flags: nat, e: Word)
    requires WellFormed(m, pd, used) && Dir(va) != 1023 && flags < 0x1000
    requires Present(Entry(m, pd, Dir(va))) || (t !in used && flags % 2 == 1)
    ensures var n := WithPage(m, pd, va, t, flags, e);
            Directory(n, pd) == Directory(m, pd)[Dir(va) := Entry(n, pd, Dir(va))]
  {
    MapKeepsTables(m, pd, used, va, t, flags, e);
  }

  /** No word changes in a used frame that holds no table. */
  lemma MapKeepsFrame(m: Memory, pd: Frame, used: set<nat>, va: Word, t: Frame, flags: nat, e: Word, g: Frame, k: Index)
    requires WellFormed(m, pd, used) && Dir(va) != 1023 && flags < 0x1000
    requires Present(Entry(m, pd, Dir(va))) || (t !in used && flags % 2 == 1)
    requires OffTables(m, pd, g) && g in used
    ensures Entry(WithPage(m, pd, va, t, flags, e), g, k) == Entry(m, g, k)
  {
    var n := WithTable(m, pd, va, t, flags);
    EntryStored(m, pd, Dir(va), EntryFor(t, flags), g, k);
    EntryStored(m, pd, Dir(va), EntryFor(t, flags), pd, Dir(va));
    EntryStored(n, FrameOf(Entry(n, pd, Dir(va))), Tbl(va), e, g, k);
  }

  lemma SlotsOfNewTable(m: Memory, n: Memory, pd: Frame, used: set<nat>, va: Word, t: Frame, w: Word)
    requires WellFormed(m, pd, used) && t !in used
    requires forall j: nat :: j < 1024 && j != Dir(va) ==> Entry(n, pd, j) == Entry(m, pd, j)
    requires Present(Entry(n, pd, Dir(va))) && FrameOf(Entry(n, pd, Dir(va))) == t
    ensures Slot(n, pd, w) == Slot(n, pd, va) <==> Dir(w) == Dir(va) && Tbl(w) == Tbl(va)
  {
    assert Dir(w) != Dir(va) && Present(Entry(m, pd, Dir(w))) ==> FrameOf(Entry(m, pd, Dir(w))) in used;
  }

  /** Allocating a table for an absent region and deallocating it again restores the directory entry to
      zero, every translation, and the set of used frames, although what is freed is the entry with its
      flag bits. */
  lemma TableRoundTrip(m: Memory, pd: Frame, used: set<nat>, i: nat, t: Frame, flags: nat)
    requires WellFormed(m, pd, used) && i < 1023 && !Present(Entry(m, pd, i))
    requires t !in used && flags < 0x1000 && flags % 2 == 1
    ensures var n := Written(m, Cell(pd, i), EntryFor(t, flags));
            var last := Written(n, Cell(pd, i), 0);
            && used + {t} - {FrameOf(Entry(n, pd, i))} == used
            && last == Written(m, Cell(pd, i), 0)
            && WellFormed(last, pd, used)
            && forall w: Word :: Walk(last, pd, w) == Walk(m, pd, w)
  {
    var n := Written(m, Cell(pd, i), EntryFor(t, flags));
    var last := Written(n, Cell(pd, i), 0);
    StoreTable(m, pd, used, i, t, flags);
    UnusedIsOffTables(m, pd, used, t);
    ClearTable(n, pd, used + {t}, i);
    assert used + {t} - {t} == used;
    assert !Shared(n, pd, i);
    forall w: Word
      ensures Walk(last, pd, w) == Walk(m, pd, w)
    {
      ClearedWalk(m, last, pd, used, i, w);
    }
  }

  lemma ClearedWalk(m: Memory, n: Memory, pd: Frame, used: set<nat>, i: nat, w: Word)
    requires WellFormed(m, pd, used) && i < 1023 && !Present(Entry(m, pd, i)) && n == Written(m, Cell(pd, i), 0)
    ensures Walk(n, pd, w) == Walk(m, pd, w)
  {
    var d := Entry(m, pd, Dir(w));
    EntryStored(m, pd, i, 0, pd, Dir(w));
    if Present(d) {
      EntryStored(m, pd, i, 0, FrameOf(d), Tbl(w));
    }
  }

  // ----- Frames that other data is kept in -----

  /** The given frames are used and hold neither the directory nor a table. */
  ghost predicate Reserved(m: Memory, pd: Frame, used: set<nat>, home: set<nat>) {
    home <= used && forall f :: f in home ==> OffTables(m, pd, f)
  }

  /** All such frames among the used ones. */
  ghost function PlainFrames(m: Memory, pd: Frame, used: set<nat>): (fs: set<nat>)
    ensures Reserved(m, pd, used, fs)
  {
    set f | f in used && OffTables(m, pd, f)
  }

  /** Their words are the same. */
  ghost predicate WordsKept(m: Memory, n: Memory, home: set<nat>) {
    forall f: Frame, i: Index :: f in home ==> Entry(n, f, i) == Entry(m, f, i)
  }

  /** A store elsewhere keeps the words of the given frames. */
  lemma StoreElsewhere(boot: Memory, m: Memory, c: Cell, x: Word, home: set<nat>)
    requires c.frame !in home && WordsKept(boot, m, home)
    ensures WordsKept(boot, Written(m, c, x), home)
  {
    forall f: Frame, i: Index | f in home
      ensures Entry(Written(m, c, x), f, i) == Entry(boot, f, i)
    {
      EntryStored(m, c.frame, c.index, x, f, i);
    }
  }

  /** Mapping a page stores nothing in such frames and makes none of them a table. */
  lemma MapKeepsHome(m: Memory, pd: Frame, used: set<nat>, va: Word, t: Frame, flags: nat, e: Word, home: set<nat>)
    requires WellFormed(m, pd, used) && Dir(va) != 1023 && flags < 0x1000 && Reserved(m, pd, used, home)
    requires Present(Entry(m, pd, Dir(va))) || (t !in used && flags % 2 == 1)
    ensures Reserved(WithPage(m, pd, va, t, flags, e), pd, WithTableFrame(m, pd, used, va, t), home)
    ensures WordsKept(m, WithPage(m, pd, va, t, flags, e), home)
  {
    MapTables(m, pd, used, va, t, flags, e);
    forall f: Frame, i: Index | f in home
      ensures Entry(WithPage(m, pd, va, t, flags, e), f, i) == Entry(m, f, i)
    {
      MapKeepsFrame(m, pd, used, va, t, flags, e, f, i);
    }
  }

  /** So does entering a new table. */
  lemma NewTable(m: Memory, pd: Frame, used: set<nat>, va: Word, t: Frame, flags: nat, home: set<nat>)
    requires WellFormed(m, pd, used) && Dir(va) != 1023 && !Present(Entry(m, pd, Dir(va))) && Reserved(m, pd, used, home)
    requires t !in used && flags < 0x1000 && flags % 2 == 1
    ensures var n := Written(m, Cell(pd, Dir(va)), EntryFor(t, flags));
            && WellFormed(n, pd, used + {t}) && Reserved(n, pd, used + {t}, home) && WordsKept(m, n, home)
            && Slot(n, pd, va) == Some(Cell(t, Tbl(va)))
  {
    StoreTable(m, pd, used, Dir(va), t, flags);
    StoreElsewhere(m, m, Cell(pd, Dir(va)), EntryFor(t, flags), home);
  }

  /** The entries that mapping a page makes: that of a new table, and that of the page. */
  lemma MappedEntries(m: Memory, pd: Frame, used: set<nat>, va: Word, t: Frame, flags: nat, e: Word)
    requires WellFormed(m, pd, used) && Dir(va) != 1023 && flags < 0x1000
    requires Present(Entry(m, pd, Dir(va))) || (t !in used && flags % 2 == 1)
    ensures var n := WithPage(m, pd, va, t, flags, e);
            && Entry(n, pd, Dir(va)) == (if Present(Entry(m, pd, Dir(va))) then Entry(m, pd, Dir(va)) else t * 0x1000 + flags)
            && Present(Entry(n, pd, Dir(va))) && Entry(n, FrameOf(Entry(n, pd, Dir(va))), Tbl(va)) == e
  {
    MapKeepsTables(m, pd, used, va, t, flags, e);
    var k := WithTable(m, pd, va, t, flags);
    EntryStored(m, pd, Dir(va), EntryFor(t, flags), pd, Dir(va));
    EntryStored(k, FrameOf(Entry(k, pd, Dir(va))), Tbl(va), e, FrameOf(Entry(k, pd, Dir(va))), Tbl(va));
  }

  /** What mapping a page comes to, whichever further frames have become used meanwhile. */
  lemma MappedPage(m: Memory, pd: Frame, used: set<nat>, va: Word, t: Frame, flags: nat, e: Word, home: set<nat>, u: set<nat>)
    requires WellFormed(m, pd, used) && Dir(va) != 1023 && flags < 0x1000 && Reserved(m, pd, used, home)
    requires Present(Entry(m, pd, Dir(va))) || (t !in used && flags % 2 == 1)
    requires WithTableFrame(m, pd, used, va, t) <= u
    ensures var n := WithPage(m, pd, va, t, flags, e);
            && WellFormed(n, pd, u) && Reserved(n, pd, u, home) && WordsKept(m, n, home)
            && forall w: Word :: Walk(n, pd, w) == NewWalk(m, pd, va, t, e, w)
  {
    MapKeepsTables(m, pd, used, va, t, flags, e);
    MapKeepsHome(m, pd, used, va, t, flags, e, home);
  }

  /** So does clearing a directory entry, which keeps the whole invariant exactly when no other entry leads
      to the frame that is freed. */
  lemma ClearedTable(m: Memory, pd: Frame, used: set<nat>, i: Index, home: set<nat>)
    requires WellFormed(m, pd, used) && Present(Entry(m, pd, i)) && i < 1023 && Reserved(m, pd, used, home)
    ensures var n, u := Written(m, Cell(pd, i), 0), used - {FrameOf(Entry(m, pd, i))};
            (WellFormed(n, pd, u) && Reserved(n, pd, u, home) <==> !Shared(m, pd, i)) && WordsKept(m, n, home)
  {
    ClearTable(m, pd, used, i);
    StoreElsewhere(m, m, Cell(pd, i), 0, home);
    EntryStored(m, pd, i, 0, pd, i);
  }
}
