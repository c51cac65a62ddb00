/** The page-frame allocator: a bitmap with one bit for each frame and a search hint. */
module FrameBitmaps {
  import opened Bits
  import opened Frames
  import opened Regions

  const LOW_BYTES := 32          // bitmap bytes of the first megabyte

  class FrameBitmap {
    const ptr: array<bv8>
    const loc: nat           // where its bytes lie
    var length: nat
    var lastChecked: nat

    ghost function Used(): set<nat>
      reads ptr
    {
      UsedFrames(ptr[..])
    }

    ghost function Limit(): nat {
      8 * ptr.Length
    }

    ghost predicate Valid() {
      Limit() <= FRAME_LIMIT
    }

    ghost predicate CanFind()
      reads this, ptr
    {
      HasFree(Used(), ScanStart(lastChecked), Limit())
    }

    /** How many more frames a search can find. */
    ghost function Available(): nat
      reads this, ptr
    {
      |Findable(Used(), ScanStart(lastChecked), Limit())|
    }

    /** The frames that its own bytes lie in. */
    ghost function Home(): set<nat> {
      RangeFrames(loc, ptr.Length)
    }

    /** create_bitmap.  The bytes found at loc are `memory`; `regions` are the entries before the
        terminating one of size zero; `guard` stands for the shift test made before a bit is cleared,
        whose shift count leaves the defined range for most frames. */
    constructor Create(memory: array<bv8>, loc: nat, size: nat, regions: seq<Region>,
                       kernelStart: nat, kernelEnd: nat, guard: Guard)
      requires LOW_BYTES <= memory.Length && 8 * memory.Length <= FRAME_LIMIT
      requires AllInBounds(regions, 8 * memory.Length)
      requires kernelEnd / 0x1000 < 8 * memory.Length && (loc + size) / 0x1000 < 8 * memory.Length
      modifies memory
      ensures Valid() && ptr == memory && this.loc == loc && length == size && lastChecked == 0
      ensures var before, marked := UsedFrames(old(memory[..])), MarkedFrames(kernelStart, kernelEnd, loc, size);
              Used() == RegionsApplied(before, regions, guard) + marked && Created(before, Used(), regions, guard, marked)
      ensures forall f: nat :: f < 256 ==> f in Used()
      ensures forall f: nat :: ReservedBy(regions, f) ==> f in Used()
      ensures forall f: nat :: f in Used() && f !in UsedFrames(old(memory[..])) ==>
                f in MarkedFrames(kernelStart, kernelEnd, loc, size) || ReachedBy(regions, f, false)
    {
      ptr, this.loc, length, lastChecked := memory, loc, size, 0;
      new;
      ghost var before := Used();
      ApplyRegions(regions, guard);
      MarkLow();
      MarkStepped(kernelStart, kernelEnd);
      MarkStepped(loc, loc + length);
      CreatedFrom(before, Used(), regions, guard, MarkedFrames(kernelStart, kernelEnd, loc, size));
      ReservedAndReached(before, regions, guard);
    }

    /** What the regions leave used, by their addresses. */
    lemma ReservedAndReached(before: set<nat>, regions: seq<Region>, guard: Guard)
      requires Valid() && AllInBounds(regions, Limit())
      ensures forall f: nat :: ReservedBy(regions, f) ==> f in RegionsApplied(before, regions, guard)
      ensures forall f: nat :: f in RegionsApplied(before, regions, guard) && f !in before ==> ReachedBy(regions, f, false)
    {
      forall f: nat | ReservedBy(regions, f)
        ensures f in RegionsApplied(before, regions, guard)
      {
        ReservedStaysUsed(before, regions, guard, Limit(), f);
      }
      forall f: nat | f in RegionsApplied(before, regions, guard) && f !in before
        ensures ReachedBy(regions, f, false)
      {
        if !ReachedBy(regions, f, false) {
          UnreachedStaysFree(before, regions, guard, Limit(), f);
        }
      }
    }

    /** The loop over the regions. */
    method ApplyRegions(regions: seq<Region>, guard: Guard)
      requires forall r :: r in regions ==> r.InBounds(Limit())
      modifies ptr
      ensures Used() == RegionsApplied(old(Used()), regions, guard)
    {
      var n := 0;
      while n < |regions|
        invariant n <= |regions| && Used() == RegionsApplied(old(Used()), regions[..n], guard)
      {
        assert regions[..n + 1][..n] == regions[..n];
        ApplyRegion(regions[n], guard);
        n := n + 1;
      }
      assert regions[..n] == regions;
    }

    method ApplyRegion(r: Region, guard: Guard)
      requires r.InBounds(Limit())
      modifies ptr
      ensures Used() == RegionApplied(old(Used()), r, guard)
      ensures Valid() && r.size > 0 ==> forall f: nat ::
                if !Reached(r.start, r.size, f) then f in Used() <==> f in old(Used())
                else if r.usable then f in Used() ==> f in old(Used())
                else f in Used()
    {
      ApplyFrames(r.First(), r.Last(), r.usable, guard);
      if Valid() && r.size > 0 {
        forall f: nat
          ensures if !Reached(r.start, r.size, f) then f in Used() <==> f in old(Used())
                  else if r.usable then f in Used() ==> f in old(Used())
                  else f in Used()
        {
          RegionEffect(old(Used()), r, guard, Limit(), f);
        }
      }
    }

    method ApplyFrames(first: nat, last: nat, usable: bool, guard: Guard)
      requires first <= last ==> last < Limit()
      modifies ptr
      ensures Used() == FramesApplied(old(Used()), usable, guard, first, last + 1)
    {
      var i := first;
      while i <= last
        invariant i == first || first <= i <= last + 1
        invariant Used() == FramesApplied(old(Used()), usable, guard, first, i)
      {
        ApplyFrame(i, usable, guard);
        i := i + 1;
      }
    }

    method ApplyFrame(i: nat, usable: bool, guard: Guard)
      requires i < Limit()
      modifies ptr
      ensures Used() == FrameApplied(old(Used()), usable, guard, i)
      ensures Used() == if !usable then old(Used()) + {i}
                        else if guard(i, old(ptr[i / 8])) then old(Used()) - {i}
                        else old(Used())
    {
      ByteOfUsed(ptr[..], i / 8);
      var chunk, bit := i / 8, i % 8;
      assert {8 * chunk + bit} == {i};
      if usable {
        if guard(i, ptr[chunk]) {
          MarkFrameFree(chunk, bit);
        }
      } else {
        MarkFrameUsed(chunk, bit);
      }
    }

    /** The first megabyte: memset of the first 32 bytes. */
    method MarkLow()
      requires LOW_BYTES <= ptr.Length
      modifies ptr
      ensures Used() == old(Used()) + RangeFrames(0, LOW_FRAMES * 0x1000)
    {
      var i := 0;
      while i < LOW_BYTES
        invariant i <= LOW_BYTES
        invariant forall j :: 0 <= j < i ==> ptr[j] == 0xFF
        invariant forall j :: i <= j < ptr.Length ==> ptr[j] == old(ptr[j])
      {
        ptr[i] := 0xFF;
        i := i + 1;
      }
      forall f: nat
        ensures f in Used() <==> f in old(Used()) || f < LOW_FRAMES
      {
        if f < LOW_FRAMES {
          assert Marked(ptr[..], f);
        } else if f < Limit() {
          assert Marked(ptr[..], f) <==> Marked(old(ptr[..]), f);
        }
      }
    }

    method MarkStepped(first: nat, last: nat)
      requires last / 0x1000 < Limit()
      modifies ptr
      ensures Used() == old(Used()) + SteppedFrames(first, last)
    {
      var i := first;
      while i <= last
        invariant first <= i && i % 0x1000 == first % 0x1000
        invariant forall f: nat :: f in Used() <==> f in old(Used()) || (f in SteppedFrames(first, last) && f < i / 0x1000)
      {
        MarkFrameUsed(i / 0x1000 / 8, i / 0x1000 % 8);
        i := i + 0x1000;
      }
    }

    method PutByte(chunk: nat, byte: bv8)
      requires chunk < ptr.Length
      modifies ptr
      ensures ptr[..] == old(ptr[..])[chunk := byte]
    {
      ptr[chunk] := byte;
    }

    method MarkFrameUsed(chunk: nat, bit: nat)
      requires chunk < ptr.Length && bit < 8
      modifies ptr
      ensures Used() == old(Used()) + {8 * chunk + bit}
    {
      MaskIsShift(bit);
      MarkUsed(ptr[..], chunk, bit);
      PutByte(chunk, ptr[chunk] | (HIGH_BIT >> bit));
    }

    method MarkFrameFree(chunk: nat, bit: nat)
      requires chunk < ptr.Length && bit < 8
      modifies ptr
      ensures Used() == old(Used()) - {8 * chunk + bit}
    {
      MaskIsShift(bit);
      MarkFree(ptr[..], chunk, bit);
      PutByte(chunk, ptr[chunk] & !(HIGH_BIT >> bit));
    }

    /** _check_frame: a shift test, which agrees with the mask tests made elsewhere. */
    function CheckFrame(address: nat): (r: bv8)
      requires address / 0x1000 < Limit()
      reads ptr
      ensures r == if address / 0x1000 in Used() then 1 else 0
    {
      var f := address / 0x1000;
      ShiftTest(ptr[f / 8], f % 8);
      assert f in Used() <==> Marked(ptr[..], f);
      (ptr[f / 8] >> (7 - f % 8)) & 1
    }

    /** _free_frame */
    method FreeFrameNumber(frame: nat) returns (r: int)
      requires frame < Limit()
      modifies this`lastChecked, ptr
      ensures lastChecked == frame / 8
      ensures r == if frame in old(Used()) then 0 else -1
      ensures Used() == old(Used()) - {frame}
      ensures r != 0 ==> ptr[..] == old(ptr[..])
      ensures forall s: Ledger :: s.used == old(Used()) && s.hint == old(lastChecked) ==>
                var t := Serve(s, Limit(), GiveBack(frame)); t.used == Used() && t.hint == lastChecked
    {
      var index := frame / 8;
      lastChecked := index;
      var i := frame % 8;
      if Tests(ptr[index], i) {
        assert Marked(ptr[..], frame);
        MarkFrameFree(index, i);
        return 0;
      } else {
        assert !Marked(ptr[..], frame);
        return -1;
      }
    }

    /** free_frame, and pmm_free: the address may carry flag bits below the page size. */
    method FreeFrame(address: nat) returns (r: int)
      requires address / 0x1000 < Limit()
      modifies this`lastChecked, ptr
      ensures lastChecked == address / 0x1000 / 8
      ensures r == if address / 0x1000 in old(Used()) then 0 else -1
      ensures Used() == old(Used()) - {address / 0x1000}
      ensures r != 0 ==> ptr[..] == old(ptr[..])
    {
      r := FreeFrameNumber(address / 0x1000);
    }

    /** The inner loop of both searches: it runs on while the byte is non-zero, so it must meet a set
        bit within eight steps. */
    static method ScanChunk(chunk: bv8) returns (found: bool, i: nat)
      ensures found <==> chunk != 0
      ensures found ==> i < 8 && Has(chunk, i) && forall j :: 0 <= j < i ==> !Has(chunk, j)
    {
      i := 0;
      while chunk > 0
        invariant i <= 8 && forall j :: 0 <= j < i ==> !Has(chunk, j)
        decreases 8 - i
      {
        NonZero(chunk);
        if Tests(chunk, i) {
          return true, i;
        }
        i := i + 1;
      }
      return false, i;
    }

    /** _find_free_frame: there is no length check, so a free frame must lie at or above the start. */
    method FindFreeFrame() returns (f: nat)
      requires CanFind()
      ensures f == LowestFree(Used(), ScanStart(lastChecked), Limit())
      ensures IsLowestFree(Used(), lastChecked - lastChecked % 8, Limit(), f)
    {
      var index := lastChecked / 8;
      while true
        invariant NoneFreeBelow(ptr[..], lastChecked, index)
        decreases ptr.Length - index
      {
        StillAhead(ptr[..], lastChecked, index);
        var chunk := ptr[index] ^ 0xFF;
        var found, i := ScanChunk(chunk);
        if found {
          FrameFound(ptr[..], lastChecked, index, i, index * 8 + i);
          return index * 8 + i;
        }
        FullChunk(ptr[..], lastChecked, index);
        index := index + 1;
      }
    }

    /** _get_free_frame */
    method GetFreeFrame() returns (f: nat)
      requires CanFind()
      modifies ptr
      ensures f == LowestFree(old(Used()), ScanStart(lastChecked), Limit())
      ensures IsLowestFree(old(Used()), lastChecked - lastChecked % 8, Limit(), f)
      ensures Used() == old(Used()) + {f}
    {
      ghost var bytes, used := ptr[..], Used();
      var index := lastChecked / 8;
      while true
        invariant ptr[..] == bytes && Used() == used && NoneFreeBelow(bytes, lastChecked, index)
        decreases ptr.Length - index
      {
        StillAhead(bytes, lastChecked, index);
        var chunk := ptr[index] ^ 0xFF;
        var found, i := ScanChunk(chunk);
        if found {
          FrameFound(bytes, lastChecked, index, i, index * 8 + i);
          f := index * 8 + i;
          MarkFrameUsed(index, i);
          return;
        }
        FullChunk(bytes, lastChecked, index);
        index := index + 1;
      }
    }

    /** get_frame, and pmm_alloc(0): the physical address of the frame. */
    method GetFrame() returns (address: nat)
      requires Valid() && CanFind()
      modifies ptr
      ensures Available() == old(Available()) - 1
      ensures address % 0x1000 == 0 && address < 0x1_0000_0000
      ensures address / 0x1000 == LowestFree(old(Used()), ScanStart(lastChecked), Limit())
      ensures IsLowestFree(old(Used()), lastChecked - lastChecked % 8, Limit(), address / 0x1000)
      ensures Used() == old(Used()) + {address / 0x1000}
      ensures forall s: Ledger :: s.used == old(Used()) && s.hint == lastChecked ==>
                var t := Serve(s, Limit(), Take); t.used == Used() && t.out == s.out + [address / 0x1000]
    {
      var f := GetFreeFrame();
      TakeOne(old(Used()), ScanStart(lastChecked), Limit(), f);
      return f * 0x1000;
    }

    /** free_frame and then get_frame: the lowest free frame from an eighth of the last multiple of 64 on. */
    method FreeAndGet(address: nat) returns (next: nat)
      requires Valid() && address / 0x1000 < Limit()
      modifies this`lastChecked, ptr
      ensures var f := address / 0x1000;
              && IsLowestFree(old(Used()) - {f}, f / 64 * 8, Limit(), next / 0x1000) && next / 0x1000 <= f
              && Used() == old(Used()) - {f} + {next / 0x1000} && next % 0x1000 == 0
    {
      StartAfterRelease(address / 0x1000);
      ScanStartIs(address / 0x1000 / 8);
      var r := FreeFrame(address);
      assert address / 0x1000 !in Used();
      next := GetFrame();
    }
  }
}
