/** The frames that create_bitmap marks and clears: the arithmetic of its loops. */
module Regions {
  import opened Frames

  const FRAME_LIMIT := 0x10_0000       // frames of a 32-bit physical address space
  const UNSIGNED_LIMIT := 0x1_0000_0000
  const INT_LIMIT := 0x8000_0000       // the least number that is no int

  type Unsigned = n: nat | n < UNSIGNED_LIMIT

  // ----- Regions of the memory map -----

  /** An unsigned number kept in an int. */
  function AsInt(n: Unsigned): int {
    if n < INT_LIMIT then n else n - UNSIGNED_LIMIT
  }

  /** An int divided by the page size, toward zero, and kept in an unsigned number. */
  function PageNumber(x: int): (n: nat)
    requires -INT_LIMIT <= x < INT_LIMIT
  {
    if x >= 0 then x / 0x1000 else (UNSIGNED_LIMIT - -x / 0x1000) % UNSIGNED_LIMIT
  }

  datatype Region = Region(start: Unsigned, size: Unsigned, usable: bool) {
    function LastAddress(): int {
      start + size - 1
    }

    /** Frame f has an address of the region. */
    predicate Meets(f: nat) {
      start / 0x1000 <= f <= LastAddress() / 0x1000
    }

    // The loop runs from the first of these to the last.

    function First(): nat {
      PageNumber(AsInt(start))
    }

    function Last(): nat {
      PageNumber(AsInt(LastAddress() % UNSIGNED_LIMIT))
    }

    predicate Touches(f: nat) {
      First() <= f <= Last()
    }

    /** The loop stays within a bitmap for the given number of frames. */
    predicate InBounds(limit: nat) {
      First() <= Last() ==> Last() < limit
    }
  }

  /** The loop runs over the frames of a region exactly when the region ends below 2 GiB. */
  lemma RegionCovered(r: Region, limit: nat)
    requires r.size > 0 && r.InBounds(limit) && limit <= FRAME_LIMIT
    ensures (forall f: nat :: r.Meets(f) ==> r.Touches(f)) <==> r.LastAddress() < INT_LIMIT
  {
    if r.LastAddress() >= INT_LIMIT {
      var f := r.LastAddress() / 0x1000;
      assert r.Meets(f) && !r.Touches(f);
    }
  }

  lemma LowRegionInBounds(r: Region, limit: nat)
    requires r.size > 0 && r.LastAddress() < INT_LIMIT
    ensures r.InBounds(limit) <==> r.LastAddress() / 0x1000 < limit
  {
    assert r.First() == r.start / 0x1000 && r.Last() == r.LastAddress() / 0x1000;
  }

  lemma HighRegionInBounds(r: Region, limit: nat)
    requires r.size > 0 && INT_LIMIT <= r.LastAddress() < UNSIGNED_LIMIT && 0 < limit <= FRAME_LIMIT
    ensures r.InBounds(limit) <==> r.LastAddress() > UNSIGNED_LIMIT - 0x1000
  {
    var x, y := AsInt(r.start), AsInt(r.LastAddress());
    assert r.First() == PageNumber(x) && r.Last() == PageNumber(y);
    NegativePage(y);
    if y <= -0x1000 && x < 0 {
      NegativePages(x, y);
    }
  }

  /** It stays within the bitmap exactly when the region ends there, below 2 GiB, or else ends in the last
      page below 4 GiB. */
  lemma RegionInBounds(r: Region, limit: nat)
    requires r.size > 0 && r.LastAddress() < UNSIGNED_LIMIT && 0 < limit <= FRAME_LIMIT
    ensures r.InBounds(limit) <==>
              (r.LastAddress() < INT_LIMIT && r.LastAddress() / 0x1000 < limit) || r.LastAddress() > UNSIGNED_LIMIT - 0x1000
  {
    if r.LastAddress() < INT_LIMIT {
      LowRegionInBounds(r, limit);
    } else {
      HighRegionInBounds(r, limit);
    }
  }

  /** The page number of a negative int is zero in the last page and otherwise beyond every bitmap. */
  lemma NegativePage(x: int)
    requires -INT_LIMIT <= x < 0
    ensures if x > -0x1000 then PageNumber(x) == 0 else PageNumber(x) >= UNSIGNED_LIMIT - 0x8_0000
  {
  }

  /** Below that page a lower int has no higher page number. */
  lemma NegativePages(x: int, y: int)
    requires -INT_LIMIT <= x <= y <= -0x1000
    ensures PageNumber(x) <= PageNumber(y)
  {
  }

  lemma PageNumberIs(n: Unsigned)
    ensures if n < INT_LIMIT then PageNumber(AsInt(n)) == n / 0x1000
            else if n > 0xFFFF_F000 then PageNumber(AsInt(n)) == 0
            else PageNumber(AsInt(n)) >= UNSIGNED_LIMIT - 0x8_0000
  {
    if n >= INT_LIMIT {
      NegativePage(AsInt(n));
    }
  }

  /** From the frame of address start, or from frame 0 where that lies in the last page below 4 GiB, to the frame
      of the last of size bytes, whose address is taken in 32 bits: below 2 GiB, or frame 0 in that page. */
  predicate Reached(start: nat, size: nat, f: nat) {
    var end := (start + size - 1) % 0x1_0000_0000;
    && (start / 0x1000 <= f || start > 0xFFFF_F000)
    && (if end < 0x8000_0000 then f <= end / 0x1000 else end > 0xFFFF_F000 && f == 0)
  }

  /** These are exactly the frames that the loop goes over. */
  lemma TouchedExactly(r: Region, limit: nat, f: nat)
    requires r.size > 0 && r.InBounds(limit) && limit <= FRAME_LIMIT
    ensures r.Touches(f) <==> Reached(r.start, r.size, f)
  {
    PageNumberIs(r.start);
    PageNumberIs(r.LastAddress() % UNSIGNED_LIMIT);
  }

  /** For a region that ends below 2 GiB, they are the frames that have an address of it. */
  lemma ReachedBelow(r: Region, f: nat)
    requires r.size > 0 && r.start + r.size <= 0x8000_0000
    ensures Reached(r.start, r.size, f) <==> r.start / 0x1000 <= f <= (r.start + r.size - 1) / 0x1000
  {
  }

  /** A region whose loop leaves every bitmap: 1.5 GiB from 1.5 GiB on. */
  lemma HighRegionOutOfBounds(limit: nat)
    requires limit <= FRAME_LIMIT
    ensures !Region(0x6000_0000, 0x6000_0000, false).InBounds(limit)
  {
  }

  /** A region for which it does nothing: the 256 KiB below 4 GiB. */
  lemma TopRegionSkipped()
    ensures var r := Region(0xFFFC_0000, 0x4_0000, false);
            r.InBounds(1) && r.First() == 0xFFFF_FFC0 && r.Last() == 0 && forall f: nat :: !r.Touches(f)
  {
  }

  /** The memory map of a PC with 128 MiB, which has that region, and a bitmap of one page for it. */
  lemma OrdinaryMapInBounds()
    ensures var map128 := [Region(0, 0x9_FC00, true), Region(0x9_FC00, 0x400, false), Region(0xF_0000, 0x1_0000, false),
                           Region(0x10_0000, 0x7EE_0000, true), Region(0x7FE_0000, 0x2_0000, false),
                           Region(0xFFFC_0000, 0x4_0000, false)];
            forall r :: r in map128 ==> r.size > 0 && r.InBounds(8 * 0x1000)
  {
  }

  ghost predicate TouchedBy(regions: seq<Region>, f: nat, usable: bool) {
    exists k :: 0 <= k < |regions| && regions[k].Touches(f) && regions[k].usable == usable
  }

  /** The last region that touches f has the given usability. */
  ghost predicate Ends(regions: seq<Region>, f: nat, usable: bool) {
    exists k :: 0 <= k < |regions| && regions[k].Touches(f) && regions[k].usable == usable
                && !TouchedBy(regions[k + 1..], f, !usable)
  }

  // ----- What the loops make of the used frames -----

  /** The test made before the bit of a frame is cleared; it is given the frame and the byte of its bit. */
  type Guard = (nat, bv8) -> bool

  ghost predicate Blocks(guard: Guard, f: nat) {
    forall b: bv8 :: !guard(f, b)
  }

  /** One frame of a region. */
  ghost function FrameApplied(used: set<nat>, usable: bool, guard: Guard, f: nat): set<nat> {
    if !usable then used + {f}
    else if guard(f, ByteOf(used, f / 8)) then used - {f}
    else used
  }

  /** The frames from first up to, not including, i. */
  ghost function FramesApplied(used: set<nat>, usable: bool, guard: Guard, first: nat, i: nat): set<nat>
    decreases i
  {
    if i <= first then used else FrameApplied(FramesApplied(used, usable, guard, first, i - 1), usable, guard, i - 1)
  }

  ghost function RegionApplied(used: set<nat>, r: Region, guard: Guard): set<nat> {
    FramesApplied(used, r.usable, guard, r.First(), r.Last() + 1)
  }

  ghost function RegionsApplied(used: set<nat>, regions: seq<Region>, guard: Guard): set<nat>
    decreases |regions|
  {
    if regions == [] then used
    else
      var n := |regions| - 1;
      RegionApplied(RegionsApplied(used, regions[..n], guard), regions[n], guard)
  }

  /** The test that decides whether the loop over a region clears the bit of frame f: it is made on the byte as
      the loop finds it, with the lower frames done. */
  ghost predicate TestPasses(used: set<nat>, guard: Guard, first: nat, f: nat) {
    guard(f, ByteOf(FramesApplied(used, true, guard, first, f), f / 8))
  }

  /** Exactly which frames are used after the loop: those of an unusable region; of a usable one those that
      were used and whose test fails; and outside the region those that were used. */
  lemma {:induction false} FramesAppliedUsed(used: set<nat>, usable: bool, guard: Guard, first: nat, i: nat, g: nat)
    ensures g in FramesApplied(used, usable, guard, first, i) <==>
              if !(first <= g < i) then g in used
              else if usable then g in used && !TestPasses(used, guard, first, g)
              else true
    decreases i
  {
    if first < i {
      FramesAppliedUsed(used, usable, guard, first, i - 1, g);
    }
  }

  /** What the region list settles: the last region that touches a frame decides, except that a frame whose
      test fails is not freed. */
  ghost predicate Settled(before: set<nat>, used: set<nat>, regions: seq<Region>, guard: Guard) {
    && (forall f: nat :: Ends(regions, f, false) ==> f in used)
    && (forall f: nat :: f in used && f !in before ==> TouchedBy(regions, f, false))
    && (forall f: nat :: f in before && f !in used ==> TouchedBy(regions, f, true) && !Blocks(guard, f))
  }

  /** The same for one region. */
  ghost predicate Applied(before: set<nat>, used: set<nat>, r: Region, guard: Guard) {
    forall f: nat ::
      if !r.Touches(f) then f in used <==> f in before
      else if r.usable then (f in used ==> f in before) && (f in before && f !in used ==> !Blocks(guard, f))
      else f in used
  }

  lemma RegionIsApplied(used: set<nat>, r: Region, guard: Guard)
    ensures Applied(used, RegionApplied(used, r, guard), r, guard)
  {
    forall f: nat
      ensures f in RegionApplied(used, r, guard) <==>
                if !r.Touches(f) then f in used
                else if r.usable then f in used && !TestPasses(used, guard, r.First(), f)
                else true
    {
      FramesAppliedUsed(used, r.usable, guard, r.First(), r.Last() + 1, f);
    }
  }

  lemma SettledNext(before: set<nat>, mid: set<nat>, used: set<nat>, regions: seq<Region>, r: Region, guard: Guard)
    requires Settled(before, mid, regions, guard) && Applied(mid, used, r, guard)
    ensures Settled(before, used, regions + [r], guard)
  {
    forall f: nat
      ensures Ends(regions + [r], f, false) ==> f in used
      ensures f in used && f !in before ==> TouchedBy(regions + [r], f, false)
      ensures f in before && f !in used ==> TouchedBy(regions + [r], f, true) && !Blocks(guard, f)
    {
      TouchedLast(regions, r, f, true);
      TouchedLast(regions, r, f, false);
      EndsLast(regions, r, f, false);
    }
  }

  lemma {:induction false} RegionsSettle(used: set<nat>, regions: seq<Region>, guard: Guard)
    ensures Settled(used, RegionsApplied(used, regions, guard), regions, guard)
    decreases |regions|
  {
    if regions != [] {
      var n := |regions| - 1;
      var mid := RegionsApplied(used, regions[..n], guard);
      RegionsSettle(used, regions[..n], guard);
      RegionIsApplied(mid, regions[n], guard);
      SettledNext(used, mid, RegionApplied(mid, regions[n], guard), regions[..n], regions[n], guard);
      assert regions == regions[..n] + [regions[n]];
    }
  }

  /** A frame that no region touches any more stays as it is. */
  lemma {:induction false} UntouchedStays(used: set<nat>, regions: seq<Region>, more: seq<Region>, guard: Guard, f: nat)
    requires forall r :: r in more ==> !r.Touches(f)
    ensures f in RegionsApplied(used, regions + more, guard) <==> f in RegionsApplied(used, regions, guard)
    decreases |more|
  {
    if more == [] {
      assert regions + more == regions;
    } else {
      var n := |more| - 1;
      var all := regions + more;
      assert all[..|all| - 1] == regions + more[..n] && all[|all| - 1] == more[n];
      UntouchedStays(used, regions, more[..n], guard, f);
      RegionIsApplied(RegionsApplied(used, regions + more[..n], guard), more[n], guard);
    }
  }

  /** When the last region that touches a frame is usable, the frame ends up free exactly when it was free
      before that region or its test passes there. */
  lemma UsableRegionDecides(used: set<nat>, regions: seq<Region>, r: Region, more: seq<Region>, guard: Guard, f: nat)
    requires r.usable && r.Touches(f) && forall x :: x in more ==> !x.Touches(f)
    ensures var mid := RegionsApplied(used, regions, guard);
            f !in RegionsApplied(used, regions + [r] + more, guard) <==> f !in mid || TestPasses(mid, guard, r.First(), f)
  {
    UntouchedStays(used, regions + [r], more, guard, f);
    var mid := RegionsApplied(used, regions, guard);
    assert (regions + [r])[..|regions|] == regions;
    FramesAppliedUsed(mid, true, guard, r.First(), r.Last() + 1, f);
  }

  // ----- The test as the i386 makes it -----

  const ADDR_BITS := 32

  /** The shift count of the test, of which the i386 takes the five low bits. */
  function ShiftCount(f: nat): (n: nat)
    ensures n < 32
  {
    (ADDR_BITS - f) % 32
  }

  /** The test: the byte, widened, shifted by that count, has its low bit set. */
  predicate MachineTest(f: nat, b: bv8) {
    (b as bv32 >> ShiftCount(f)) & 1 == 1
  }

  /** Where the count is eight or more it always fails, so that three of four frames are never freed; and no
      frame's test looks at the frame's own bit. */
  lemma MachineTestBlocks(f: nat)
    ensures 1 <= f % 32 <= 24 ==> Blocks(MachineTest, f)
    ensures ShiftCount(f) != 7 - f % 8
  {
    if 1 <= f % 32 <= 24 {
      assert ShiftCount(f) == 32 - f % 32;
      forall b: bv8
        ensures !MachineTest(f, b)
      {
        HighShift(b, ShiftCount(f));
      }
    }
  }

  lemma HighShift(b: bv8, n: nat)
    requires 8 <= n < 32
    ensures b as bv32 >> n == 0
  {
  }

  lemma EndsLast(regions: seq<Region>, r: Region, f: nat, usable: bool)
    ensures Ends(regions + [r], f, usable) ==> if r.Touches(f) then r.usable == usable else Ends(regions, f, usable)
  {
    var all := regions + [r];
    if Ends(all, f, usable) {
      var i :| 0 <= i < |all| && all[i].Touches(f) && all[i].usable == usable && !TouchedBy(all[i + 1..], f, !usable);
      if i < |regions| {
        assert all[i + 1..] == regions[i + 1..] + [r] && all[i] == regions[i];
        TouchedLast(regions[i + 1..], r, f, !usable);
      }
    }
  }

  lemma TouchedLast(regions: seq<Region>, r: Region, f: nat, usable: bool)
    ensures TouchedBy(regions + [r], f, usable)
            <==> TouchedBy(regions, f, usable) || (r.Touches(f) && r.usable == usable)
  {
    var all := regions + [r];
    assert all[|regions|] == r;
    if TouchedBy(regions, f, usable) {
      var k :| 0 <= k < |regions| && regions[k].Touches(f) && regions[k].usable == usable;
      assert all[k] == regions[k];
    }
  }

  /** What the loop over one region does to frame f. */
  lemma RegionEffect(used: set<nat>, r: Region, guard: Guard, limit: nat, f: nat)
    requires r.size > 0 && r.InBounds(limit) && limit <= FRAME_LIMIT
    ensures var u := RegionApplied(used, r, guard);
            if !Reached(r.start, r.size, f) then f in u <==> f in used
            else if r.usable then f in u ==> f in used
            else f in u
  {
    TouchedExactly(r, limit, f);
    RegionIsApplied(used, r, guard);
  }

  // The same for a list of regions.

  ghost predicate AllInBounds(regions: seq<Region>, limit: nat) {
    forall r :: r in regions ==> r.size > 0 && r.InBounds(limit)
  }

  ghost predicate ReachedBy(regions: seq<Region>, f: nat, usable: bool) {
    exists k :: 0 <= k < |regions| && regions[k].usable == usable && Reached(regions[k].start, regions[k].size, f)
  }

  /** An unusable region reaches f, and no later usable one does. */
  ghost predicate ReservedBy(regions: seq<Region>, f: nat) {
    exists k :: 0 <= k < |regions| && !regions[k].usable && Reached(regions[k].start, regions[k].size, f)
                && !ReachedBy(regions[k + 1..], f, true)
  }

  lemma TouchedByIs(regions: seq<Region>, limit: nat, f: nat, usable: bool)
    requires AllInBounds(regions, limit) && limit <= FRAME_LIMIT
    ensures TouchedBy(regions, f, usable) <==> ReachedBy(regions, f, usable)
  {
    forall k | 0 <= k < |regions|
      ensures regions[k].Touches(f) <==> Reached(regions[k].start, regions[k].size, f)
    {
      assert regions[k] in regions;
      TouchedExactly(regions[k], limit, f);
    }
  }

  /** A reserved frame is used in the end. */
  lemma ReservedStaysUsed(used: set<nat>, regions: seq<Region>, guard: Guard, limit: nat, f: nat)
    requires AllInBounds(regions, limit) && limit <= FRAME_LIMIT && ReservedBy(regions, f)
    ensures f in RegionsApplied(used, regions, guard)
  {
    var k :| 0 <= k < |regions| && !regions[k].usable && Reached(regions[k].start, regions[k].size, f)
             && !ReachedBy(regions[k + 1..], f, true);
    assert regions[k] in regions;
    TouchedExactly(regions[k], limit, f);
    TouchedByIs(regions[k + 1..], limit, f, true);
    assert Ends(regions, f, false);
    RegionsSettle(used, regions, guard);
  }

  /** A frame that no unusable region reaches does not become used. */
  lemma UnreachedStaysFree(used: set<nat>, regions: seq<Region>, guard: Guard, limit: nat, f: nat)
    requires AllInBounds(regions, limit) && limit <= FRAME_LIMIT && !ReachedBy(regions, f, false) && f !in used
    ensures f !in RegionsApplied(used, regions, guard)
  {
    TouchedByIs(regions, limit, f, false);
    RegionsSettle(used, regions, guard);
  }

  /** Applied to a bitmap with no frame used, an unusable region marks all its frames exactly when it ends
      below 2 GiB. */
  lemma UnusableRegionMarked(r: Region, guard: Guard, limit: nat)
    requires r.size > 0 && !r.usable && r.InBounds(limit) && limit <= FRAME_LIMIT
    ensures (forall f: nat :: r.Meets(f) ==> f in RegionApplied({}, r, guard)) <==> r.LastAddress() < INT_LIMIT
  {
    RegionCovered(r, limit);
    RegionIsApplied({}, r, guard);
    assert forall f: nat :: f in RegionApplied({}, r, guard) <==> r.Touches(f);
  }

  // ----- Ranges marked page by page -----

  /** The address in frame f that stepping from first meets. */
  function SteppedAddress(first: nat, f: nat): int {
    first + (f - first / 0x1000) * 0x1000
  }

  /** The frames of the addresses first, first + 0x1000, ... that do not pass last. */
  ghost function SteppedFrames(first: nat, last: nat): (fs: set<nat>)
    ensures forall f: nat :: f in fs <==> first / 0x1000 <= f && SteppedAddress(first, f) <= last
  {
    set f: nat | first / 0x1000 <= f <= last / 0x1000 && SteppedAddress(first, f) <= last
  }

  /** The i-th address met is in frame f. */
  predicate StepHits(first: nat, last: nat, i: nat, f: nat) {
    first + i * 0x1000 <= last && (first + i * 0x1000) / 0x1000 == f
  }

  ghost predicate SteppedOver(first: nat, last: nat, f: nat) {
    exists i: nat :: StepHits(first, last, i, f)
  }

  /** Exactly the frames of the addresses met. */
  lemma SteppedExactly(first: nat, last: nat, f: nat)
    ensures f in SteppedFrames(first, last) <==> SteppedOver(first, last, f)
  {
    if f in SteppedFrames(first, last) {
      assert StepHits(first, last, f - first / 0x1000, f);
    }
    if i: nat :| StepHits(first, last, i, f) {
      assert i == f - first / 0x1000;
    }
  }

  /** Stepping page by page meets every frame of the range exactly when the range does not end lower
      in its page than it begins. */
  lemma SteppedFramesAreAll(first: nat, last: nat)
    requires first <= last
    ensures (forall f: nat :: first / 0x1000 <= f <= last / 0x1000 ==> f in SteppedFrames(first, last))
            <==> first % 0x1000 <= last % 0x1000
  {
    var f := last / 0x1000;
    assert f in SteppedFrames(first, last) <==> first % 0x1000 <= last % 0x1000;
    if first % 0x1000 <= last % 0x1000 {
      forall g: nat | first / 0x1000 <= g <= f
        ensures g in SteppedFrames(first, last)
      {
        assert SteppedAddress(first, g) <= SteppedAddress(first, f);
      }
    }
  }

  /** From the start of a page it meets them all, as in both loops: the linker script aligns
      kernel_start, and the bitmap's place is rounded up. */
  lemma AlignedRangeMarked(first: nat, last: nat, f: nat)
    requires first % 0x1000 == 0 && first / 0x1000 <= f <= last / 0x1000
    ensures f in SteppedFrames(first, last)
  {
    assert f * 0x1000 <= last;
  }

  /** The frames of the count bytes from address first on. */
  ghost function RangeFrames(first: nat, count: nat): (fs: set<nat>)
    ensures forall f: nat :: f in fs <==> first / 0x1000 <= f && f * 0x1000 < first + count
  {
    set f: nat | first / 0x1000 <= f < first + count && f * 0x1000 < first + count
  }

  const LOW_FRAMES := 256   // those of the first megabyte

  /** What create_bitmap marks after it has gone through the regions. */
  ghost function MarkedFrames(kernelStart: nat, kernelEnd: nat, loc: nat, size: nat): set<nat> {
    RangeFrames(0, LOW_FRAMES * 0x1000) + SteppedFrames(kernelStart, kernelEnd) + SteppedFrames(loc, loc + size)
  }

  /** The first 256 frames, and those of the addresses met in stepping over the kernel and over the bitmap. */
  lemma MarkedExactly(kernelStart: nat, kernelEnd: nat, loc: nat, size: nat, f: nat)
    ensures f in MarkedFrames(kernelStart, kernelEnd, loc, size) <==>
              f < 256 || SteppedOver(kernelStart, kernelEnd, f) || SteppedOver(loc, loc + size, f)
  {
    SteppedExactly(kernelStart, kernelEnd, f);
    SteppedExactly(loc, loc + size, f);
  }

  /** What create_bitmap makes of the set of used frames. */
  ghost predicate Created(before: set<nat>, used: set<nat>, regions: seq<Region>, guard: Guard, marked: set<nat>) {
    && marked <= used
    && (forall f: nat :: Ends(regions, f, false) ==> f in used)
    && (forall f: nat :: f in used && f !in before ==> f in marked || TouchedBy(regions, f, false))
    && (forall f: nat :: f in before && f !in used ==> TouchedBy(regions, f, true) && !Blocks(guard, f))
  }

  lemma CreatedFrom(before: set<nat>, used: set<nat>, regions: seq<Region>, guard: Guard, marked: set<nat>)
    requires used == RegionsApplied(before, regions, guard) + marked
    ensures Created(before, used, regions, guard, marked)
  {
    RegionsSettle(before, regions, guard);
  }

  // ----- The frames of the bitmap itself -----

  /** Of len bytes at loc the loop marks every frame exactly when the size it is given reaches as far as
      their last page begins after their first. */
  lemma BitmapMarksItself(loc: nat, len: nat, size: nat)
    requires len > 0
    ensures RangeFrames(loc, len) <= SteppedFrames(loc, loc + size)
            <==> ((loc + len - 1) / 0x1000 - loc / 0x1000) * 0x1000 <= size
  {
    var last := (loc + len - 1) / 0x1000;
    assert last in RangeFrames(loc, len);
    if (last - loc / 0x1000) * 0x1000 <= size {
      forall f | f in RangeFrames(loc, len)
        ensures f in SteppedFrames(loc, loc + size)
      {
        assert f <= last;
      }
    }
  }

  /** For a bitmap on frames that are free at first, in no unusable region, and above the first megabyte and
      the kernel, this decides whether all its frames end up used, whatever the test. */
  lemma BitmapFramesUsed(before: set<nat>, used: set<nat>, regions: seq<Region>, guard: Guard,
                         kernelStart: nat, kernelEnd: nat, loc: nat, len: nat, size: nat)
    requires len > 0 && Created(before, used, regions, guard, MarkedFrames(kernelStart, kernelEnd, loc, size))
    requires forall f :: f in RangeFrames(loc, len) ==>
               f !in before && !TouchedBy(regions, f, false) && LOW_FRAMES <= f && f !in SteppedFrames(kernelStart, kernelEnd)
    ensures RangeFrames(loc, len) <= used <==> ((loc + len - 1) / 0x1000 - loc / 0x1000) * 0x1000 <= size
  {
    BitmapMarksItself(loc, len, size);
    forall f | f in RangeFrames(loc, len)
      ensures f in used <==> f in SteppedFrames(loc, loc + size)
    {
    }
  }

  // ----- The frames handed out first -----

  const BOOT_FRAME := 0x100   // at 1 MiB, where the linker script puts the boot code, just below kernel_start

  /** None of the marks reaches the boot code's first page: it ends up used exactly when the regions leave it
      so, and it is the first frame that get_frame hands out exactly when they do not. */
  lemma BootFrameUnmarked(before: set<nat>, used: set<nat>, regions: seq<Region>, guard: Guard,
                          kernelStart: nat, kernelEnd: nat, loc: nat, size: nat, limit: nat)
    requires used == RegionsApplied(before, regions, guard) + MarkedFrames(kernelStart, kernelEnd, loc, size)
    requires kernelStart / 0x1000 > BOOT_FRAME && loc / 0x1000 > BOOT_FRAME && HasFree(used, ScanStart(0), limit)
    ensures BOOT_FRAME in used <==> BOOT_FRAME in RegionsApplied(before, regions, guard)
    ensures LowestFree(used, ScanStart(0), limit) == BOOT_FRAME <==> BOOT_FRAME !in used && limit > BOOT_FRAME
  {
    assert forall f: nat :: f < LOW_FRAMES ==> f in RangeFrames(0, LOW_FRAMES * 0x1000);
    if BOOT_FRAME !in used {
      assert LowestFree(used, ScanStart(0), limit) >= BOOT_FRAME;
    }
  }

  /** The marks for a kernel from just above that frame up to 2 MiB and a bitmap at 2 MiB, given the size zero. */
  ghost function LowMarks(): set<nat> {
    MarkedFrames(0x10_1000, 0x1F_FFFF, 0x20_0000, 0)
  }

  lemma LowMarksAre(f: nat)
    ensures f in LowMarks() <==> f <= 0x200 && f != BOOT_FRAME
  {
    if BOOT_FRAME < f < 0x200 {
      AlignedRangeMarked(0x10_1000, 0x1F_FFFF, f);
    }
  }

  /** So it is with that kernel and memory that was clear. */
  lemma BootFrameHandedOut(guard: Guard, limit: nat)
    requires limit > 0x201
    ensures var used := RegionsApplied({}, [Region(0x10_0000, 0xFF0_0000, true)], guard) + LowMarks();
            HasFree(used, ScanStart(0), limit) && LowestFree(used, ScanStart(0), limit) == BOOT_FRAME
  {
    var regions := [Region(0x10_0000, 0xFF0_0000, true)];
    var used := RegionsApplied({}, regions, guard) + LowMarks();
    CreatedFrom({}, used, regions, guard, LowMarks());
    LowMarksAre(BOOT_FRAME);
    assert BOOT_FRAME !in used;
    BootFrameUnmarked({}, used, regions, guard, 0x10_1000, 0x1F_FFFF, 0x20_0000, 0, limit);
  }

  /** The bitmap of two pages at 2 MiB, just above that kernel, in memory that was clear: its second frame is
      left free, and once the boot frame is taken it is the next that get_frame hands out. */
  lemma SecondBitmapFrameFree(before: set<nat>, used: set<nat>, guard: Guard, limit: nat)
    requires Created(before, used, [Region(0x10_0000, 0xFF0_0000, true)], guard, LowMarks())
    requires 0x201 !in before && limit > 0x201
    ensures 0x201 in RangeFrames(0x20_0000, 0x2000) && 0x201 !in used
    ensures var taken := used + {BOOT_FRAME};
            HasFree(taken, ScanStart(0), limit) && LowestFree(taken, ScanStart(0), limit) == 0x201
  {
    LowMarksAre(0x201);
    assert 0x201 !in used;
    var taken := used + {BOOT_FRAME};
    forall f: nat | f < 0x201
      ensures f in taken
    {
      LowMarksAre(f);
    }
    LowestFreeIs(taken, ScanStart(0), limit, 0x201);
  }
}
