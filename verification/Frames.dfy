/** Sets of page frames, and the runs of an allocator that hands out the lowest free one. */
module Frames {
  import opened Arithmetic
  import opened Bits

  // ----- The set of used frames that the bytes of a bitmap stand for -----

  predicate Marked(bytes: seq<bv8>, f: nat)
    requires f / 8 < |bytes|
  {
    Has(bytes[f / 8], f % 8)
  }

  ghost function UsedFrames(bytes: seq<bv8>): (used: set<nat>)
    ensures forall f: nat :: f in used <==> f < 8 * |bytes| && Marked(bytes, f)
  {
    set f: nat | f < 8 * |bytes| && Marked(bytes, f)
  }

  /** The bit of a frame, counted from the high end of its byte. */
  lemma UsedByBytes(bytes: seq<bv8>, f: nat)
    requires f < 8 * |bytes|
    ensures f in UsedFrames(bytes) <==> (bytes[f / 8] >> (7 - f % 8)) & 1 == 1
  {
    ShiftTest(bytes[f / 8], f % 8);
  }

  lemma FrameBit(f: nat, chunk: nat, bit: nat)
    requires bit < 8
    ensures f == 8 * chunk + bit <==> f / 8 == chunk && f % 8 == bit
  {
    if f == 8 * chunk + bit {
      Euclid(f, chunk, bit, 8);
    }
  }

  /** Which frames are used once a byte has been replaced. */
  lemma ByteReplaced(bytes: seq<bv8>, chunk: nat, byte: bv8, g: nat)
    requires chunk < |bytes|
    ensures g in UsedFrames(bytes[chunk := byte]) <==> if g / 8 == chunk then Has(byte, g % 8) else g in UsedFrames(bytes)
  {
  }

  lemma MarkUsedAt(bytes: seq<bv8>, chunk: nat, bit: nat, byte: bv8, g: nat)
    requires chunk < |bytes| && bit < 8 && byte == bytes[chunk] | Mask(bit)
    ensures g in UsedFrames(bytes[chunk := byte]) <==> g in UsedFrames(bytes) || g == 8 * chunk + bit
  {
    FrameBit(g, chunk, bit);
    ByteReplaced(bytes, chunk, byte, g);
    SetBit(bytes[chunk], bit, g % 8);
  }

  lemma MarkFreeAt(bytes: seq<bv8>, chunk: nat, bit: nat, byte: bv8, g: nat)
    requires chunk < |bytes| && bit < 8 && byte == bytes[chunk] & !Mask(bit)
    ensures g in UsedFrames(bytes[chunk := byte]) <==> g in UsedFrames(bytes) && g != 8 * chunk + bit
  {
    FrameBit(g, chunk, bit);
    ByteReplaced(bytes, chunk, byte, g);
    ClearBit(bytes[chunk], bit, g % 8);
  }

  /** Setting a bit marks its frame used, and no other. */
  lemma MarkUsed(bytes: seq<bv8>, chunk: nat, bit: nat)
    requires chunk < |bytes| && bit < 8
    ensures UsedFrames(bytes[chunk := bytes[chunk] | Mask(bit)]) == UsedFrames(bytes) + {8 * chunk + bit}
  {
    var byte := bytes[chunk] | Mask(bit);
    forall g: nat
      ensures g in UsedFrames(bytes[chunk := byte]) <==> g in UsedFrames(bytes) || g == 8 * chunk + bit
    {
      MarkUsedAt(bytes, chunk, bit, byte, g);
    }
  }

  /** Clearing a bit marks its frame free, and no other. */
  lemma MarkFree(bytes: seq<bv8>, chunk: nat, bit: nat)
    requires chunk < |bytes| && bit < 8
    ensures UsedFrames(bytes[chunk := bytes[chunk] & !Mask(bit)]) == UsedFrames(bytes) - {8 * chunk + bit}
  {
    var byte := bytes[chunk] & !Mask(bit);
    forall g: nat
      ensures g in UsedFrames(bytes[chunk := byte]) <==> g in UsedFrames(bytes) && g != 8 * chunk + bit
    {
      MarkFreeAt(bytes, chunk, bit, byte, g);
    }
  }

  /** Byte c of a bitmap with the given used frames. */
  ghost predicate IsByteOf(used: set<nat>, c: nat, b: bv8) {
    forall i: nat :: i < 8 ==> (Has(b, i) <==> 8 * c + i in used)
  }

  ghost function FirstBits(used: set<nat>, c: nat, n: nat): (b: bv8)
    requires n <= 8
    ensures forall i: nat :: i < 8 ==> (Has(b, i) <==> i < n && 8 * c + i in used)
    decreases n
  {
    if n == 0 then
      NonZero(0);
      0
    else
      var b := FirstBits(used, c, n - 1);
      var d := if 8 * c + (n - 1) in used then b | Mask(n - 1) else b;
      BitAdded(used, c, n, b, d);
      d
  }

  lemma BitAdded(used: set<nat>, c: nat, n: nat, b: bv8, d: bv8)
    requires 0 < n <= 8 && forall i: nat :: i < 8 ==> (Has(b, i) <==> i < n - 1 && 8 * c + i in used)
    requires d == if 8 * c + (n - 1) in used then b | Mask(n - 1) else b
    ensures forall i: nat :: i < 8 ==> (Has(d, i) <==> i < n && 8 * c + i in used)
  {
    forall i: nat | i < 8
      ensures Has(d, i) <==> i < n && 8 * c + i in used
    {
      SetBit(b, n - 1, i);
    }
  }

  ghost function ByteOf(used: set<nat>, c: nat): (b: bv8)
    ensures IsByteOf(used, c, b)
  {
    assert IsByteOf(used, c, FirstBits(used, c, 8));
    var b: bv8 :| IsByteOf(used, c, b);
    b
  }

  lemma ByteOfUsed(bytes: seq<bv8>, c: nat)
    requires c < |bytes|
    ensures ByteOf(UsedFrames(bytes), c) == bytes[c]
  {
    var b := ByteOf(UsedFrames(bytes), c);
    forall i: nat | i < 8
      ensures Has(b, i) <==> Has(bytes[c], i)
    {
      FrameBit(8 * c + i, c, i);
    }
    SameBits(b, bytes[c]);
  }

  // ----- The search -----

  /** Where a search begins.  The hint is stored as a byte index and divided by eight again when read. */
  function ScanStart(hint: nat): nat {
    8 * (hint / 8)
  }

  ghost predicate HasFree(used: set<nat>, start: nat, limit: nat) {
    exists f: nat :: start <= f < limit && f !in used
  }

  ghost predicate IsLowestFree(used: set<nat>, start: nat, limit: nat, f: nat) {
    start <= f < limit && f !in used && forall g: nat :: start <= g < f ==> g in used
  }

  ghost function LowestFree(used: set<nat>, start: nat, limit: nat): (f: nat)
    requires HasFree(used, start, limit)
    ensures IsLowestFree(used, start, limit, f)
    decreases limit - start
  {
    if start !in used then start else LowestFree(used, start + 1, limit)
  }

  lemma LowestFreeIs(used: set<nat>, start: nat, limit: nat, f: nat)
    requires IsLowestFree(used, start, limit, f)
    ensures HasFree(used, start, limit) && LowestFree(used, start, limit) == f
  {
  }

  /** Every frame from the start of the search up to byte index is used. */
  ghost predicate NoneFreeBelow(bytes: seq<bv8>, hint: nat, index: nat) {
    hint / 8 <= index && forall g: nat :: ScanStart(hint) <= g < 8 * index ==> g in UsedFrames(bytes)
  }

  lemma StillAhead(bytes: seq<bv8>, hint: nat, index: nat)
    requires HasFree(UsedFrames(bytes), ScanStart(hint), 8 * |bytes|) && NoneFreeBelow(bytes, hint, index)
    ensures index < |bytes|
  {
    var f: nat :| ScanStart(hint) <= f < 8 * |bytes| && f !in UsedFrames(bytes);
    assert f >= 8 * index;
  }

  lemma FullChunk(bytes: seq<bv8>, hint: nat, index: nat)
    requires NoneFreeBelow(bytes, hint, index) && index < |bytes| && bytes[index] ^ 0xFF == 0
    ensures NoneFreeBelow(bytes, hint, index + 1)
  {
    forall g: nat | 8 * index <= g < 8 * index + 8
      ensures g in UsedFrames(bytes)
    {
      FlipBits(bytes[index], g % 8);
    }
  }

  lemma InvertedBit(bytes: seq<bv8>, index: nat, j: nat)
    requires index < |bytes| && j < 8
    ensures 8 * index + j in UsedFrames(bytes) <==> !Has(bytes[index] ^ 0xFF, j)
  {
    FlipBits(bytes[index], j);
  }

  lemma LowestInChunk(bytes: seq<bv8>, hint: nat, index: nat, i: nat)
    requires NoneFreeBelow(bytes, hint, index) && index < |bytes| && i < 8
    requires var chunk := bytes[index] ^ 0xFF;
             Has(chunk, i) && forall j :: 0 <= j < i ==> !Has(chunk, j)
    ensures var f := 8 * index + i;
            && IsLowestFree(UsedFrames(bytes), ScanStart(hint), 8 * |bytes|, f)
            && f == LowestFree(UsedFrames(bytes), ScanStart(hint), 8 * |bytes|)
  {
    var used := UsedFrames(bytes);
    InvertedBit(bytes, index, i);
    forall g: nat | ScanStart(hint) <= g < 8 * index + i
      ensures g in used
    {
      if g >= 8 * index {
        InvertedBit(bytes, index, g - 8 * index);
      }
    }
    LowestFreeIs(used, ScanStart(hint), 8 * |bytes|, 8 * index + i);
  }

  /** Where the search starts: at the first frame of a byte, the hint being divided by eight. */
  lemma ScanStartIs(hint: nat)
    ensures ScanStart(hint) == hint - hint % 8
  {
  }

  /** The frame found, as the search computes its number. */
  lemma FrameFound(bytes: seq<bv8>, hint: nat, index: nat, i: nat, f: nat)
    requires NoneFreeBelow(bytes, hint, index) && index < |bytes| && i < 8 && f == index * 8 + i
    requires var chunk := bytes[index] ^ 0xFF;
             Has(chunk, i) && forall j :: 0 <= j < i ==> !Has(chunk, j)
    ensures IsLowestFree(UsedFrames(bytes), hint - hint % 8, 8 * |bytes|, f)
    ensures HasFree(UsedFrames(bytes), ScanStart(hint), 8 * |bytes|)
    ensures f == LowestFree(UsedFrames(bytes), ScanStart(hint), 8 * |bytes|) && {8 * index + i} == {f}
  {
    ScanStartIs(hint);
    LowestInChunk(bytes, hint, index, i);
  }

  /** The free frames a search can still find. */
  ghost function Findable(used: set<nat>, start: nat, limit: nat): set<nat> {
    set f: nat | start <= f < limit && f !in used
  }

  lemma TakeOne(used: set<nat>, start: nat, limit: nat, f: nat)
    requires start <= f < limit && f !in used
    ensures |Findable(used + {f}, start, limit)| == |Findable(used, start, limit)| - 1
  {
    assert Findable(used + {f}, start, limit) == Findable(used, start, limit) - {f};
  }

  lemma SomeFindable(used: set<nat>, start: nat, limit: nat)
    requires |Findable(used, start, limit)| > 0
    ensures HasFree(used, start, limit)
  {
    var f :| f in Findable(used, start, limit);
  }

  // ----- Runs of get_frame and free_frame -----

  datatype Request = Take | GiveBack(frame: nat)

  /** used: the bitmap's set; hint: last_checked; out: the frames handed out and not yet given back;
      released: those used from the start that have been given back. */
  datatype Ledger = Ledger(used: set<nat>, hint: nat, out: seq<nat>, released: set<nat>)

  /** Any frame of the bitmap may be given back, handed out or not. */
  ghost predicate Allowed(s: Ledger, limit: nat, r: Request) {
    match r
    case Take => HasFree(s.used, ScanStart(s.hint), limit)
    case GiveBack(f) => f < limit
  }

  function Without(s: seq<nat>, f: nat): (t: seq<nat>)
    ensures multiset(t) == multiset(s) - multiset{f}
  {
    if s == [] then []
    else if s[0] == f then (assert s == [f] + s[1..]; s[1..])
    else (assert s == [s[0]] + s[1..]; [s[0]] + Without(s[1..], f))
  }

  ghost function Serve(s: Ledger, limit: nat, r: Request): Ledger
    requires Allowed(s, limit, r)
  {
    match r
    case Take =>
      var f := LowestFree(s.used, ScanStart(s.hint), limit);
      Ledger(s.used + {f}, s.hint, s.out + [f], s.released)
    case GiveBack(f) =>
      if f !in s.used then s.(hint := f / 8)
      else if f in s.out then Ledger(s.used - {f}, f / 8, Without(s.out, f), s.released)
      else Ledger(s.used - {f}, f / 8, s.out, s.released + {f})
  }

  ghost predicate AllAllowed(s: Ledger, limit: nat, rs: seq<Request>)
    decreases |rs|
  {
    rs == [] || (Allowed(s, limit, rs[0]) && AllAllowed(Serve(s, limit, rs[0]), limit, rs[1..]))
  }

  ghost function ServeAll(s: Ledger, limit: nat, rs: seq<Request>): Ledger
    requires AllAllowed(s, limit, rs)
    decreases |rs|
  {
    if rs == [] then s else ServeAll(Serve(s, limit, rs[0]), limit, rs[1..])
  }

  /** What a request adds to the number of used frames; giving back a free frame fails and adds nothing. */
  ghost function Gain(s: Ledger, r: Request): int {
    match r
    case Take => 1
    case GiveBack(f) => if f in s.used then -1 else 0
  }

  ghost function Gains(s: Ledger, limit: nat, rs: seq<Request>): int
    requires AllAllowed(s, limit, rs)
    decreases |rs|
  {
    if rs == [] then 0 else Gain(s, rs[0]) + Gains(Serve(s, limit, rs[0]), limit, rs[1..])
  }

  ghost function Members(s: seq<nat>): set<nat> {
    set f | f in s
  }

  /** Outstanding frames are distinct, and the used frames are those used from the start and never given
      back, and apart from these the outstanding ones. */
  ghost predicate Balanced(initial: set<nat>, s: Ledger) {
    && s.released <= initial
    && (forall f :: f in s.out ==> f !in initial - s.released)
    && (forall f :: multiset(s.out)[f] <= 1)
    && s.used == initial - s.released + Members(s.out)
  }

  lemma TakeBalanced(initial: set<nat>, s: Ledger, limit: nat)
    requires Balanced(initial, s) && Allowed(s, limit, Take)
    ensures Balanced(initial, Serve(s, limit, Take))
    ensures |Serve(s, limit, Take).used| == |s.used| + 1
  {
    var t, f := Serve(s, limit, Take), LowestFree(s.used, ScanStart(s.hint), limit);
    assert multiset(t.out) == multiset(s.out) + multiset{f};
    assert f !in multiset(s.out);
    assert Members(t.out) == Members(s.out) + {f};
  }

  lemma GiveBackBalanced(initial: set<nat>, s: Ledger, limit: nat, f: nat)
    requires Balanced(initial, s) && f < limit
    ensures Balanced(initial, Serve(s, limit, GiveBack(f)))
    ensures |Serve(s, limit, GiveBack(f)).used| == |s.used| - if f in s.used then 1 else 0
  {
    if f in s.out {
      OnlyOnce(s.out, f);
    }
  }

  lemma OnlyOnce(s: seq<nat>, f: nat)
    requires f in s && multiset(s)[f] <= 1
    ensures Members(Without(s, f)) == Members(s) - {f}
    ensures forall g :: multiset(Without(s, f))[g] <= multiset(s)[g]
  {
    forall g
      ensures g in Without(s, f) <==> g in s && g != f
    {
      assert g in Without(s, f) <==> g in multiset(Without(s, f));
      assert g in s <==> g in multiset(s);
    }
  }

  lemma ServeBalanced(initial: set<nat>, s: Ledger, limit: nat, r: Request)
    requires Balanced(initial, s) && Allowed(s, limit, r)
    ensures Balanced(initial, Serve(s, limit, r))
    ensures |Serve(s, limit, r).used| == |s.used| + Gain(s, r)
  {
    match r
    case Take => TakeBalanced(initial, s, limit);
    case GiveBack(f) => GiveBackBalanced(initial, s, limit, f);
  }

  /** Conservation over every run: the used frames stay those used from the start, less the ones of these
      given back, and the outstanding ones; their number grows by a take and shrinks by a free that succeeds. */
  lemma {:induction false} RunsConserveFrames(initial: set<nat>, s: Ledger, limit: nat, rs: seq<Request>)
    requires Balanced(initial, s) && AllAllowed(s, limit, rs)
    ensures Balanced(initial, ServeAll(s, limit, rs))
    ensures |ServeAll(s, limit, rs).used| == |s.used| + Gains(s, limit, rs)
    decreases |rs|
  {
    if rs != [] {
      ServeBalanced(initial, s, limit, rs[0]);
      RunsConserveFrames(initial, Serve(s, limit, rs[0]), limit, rs[1..]);
    }
  }

  /** Giving back a frame, even one that is free, moves the hint so that the next search cannot pass it by,
      although the hint is divided by eight once too often: what it gives is the lowest free frame from an
      eighth of the last multiple of 64 on. */
  lemma ReleasedIsReachable(s: Ledger, limit: nat, f: nat)
    requires f < limit
    ensures var t := Serve(s, limit, GiveBack(f));
            && Allowed(t, limit, Take) && t.used == s.used - {f}
            && var g := Serve(t, limit, Take).out[|t.out|];
               g <= f && IsLowestFree(s.used - {f}, f / 64 * 8, limit, g)
  {
    var t := Serve(s, limit, GiveBack(f));
    StartAfterRelease(f);
    assert ScanStart(t.hint) <= f && f !in t.used;
    assert f !in s.used ==> s.used - {f} == s.used;
  }

  /** The byte index divided by eight once more. */
  lemma StartAfterRelease(f: nat)
    ensures ScanStart(f / 8) == f / 64 * 8
  {
    Euclid(f, 8 * (f / 64) + f % 64 / 8, f % 64 % 8, 8);
    Euclid(f / 8, f / 64, f % 64 / 8, 8);
  }
}
