/** How the words of the heap region hold a chain: every block begins with a header
    { prev, next, size, flags } whose flags are the low byte of the fourth word. */
module HeapStore {
  import opened Mmu
  import opened HeapChain

  /** The words of the heap region by address. */
  type View = map<int, Word>

  const NEXT := 4
  const SIZE := 8
  const FLAGS := 12

  function Flag(kind: Kind): nat {
    match kind
    case Free => 0x00
    case Used => 0x01
    case Tail => 0x81
  }

  predicate HeaderAt(v: View, a: nat, prev: nat, next: nat, size: nat, flag: nat) {
    && a in v && a + NEXT in v && a + SIZE in v && a + FLAGS in v
    && v[a] == prev && v[a + NEXT] == next && v[a + SIZE] == size && v[a + FLAGS] % 256 == flag
  }

  /** The first block is its own predecessor, the tail its own successor. */
  function PrevAddr(c: Chain, i: nat): nat
    requires i < |c|
  {
    if i == 0 then c[0].addr else c[i - 1].addr
  }

  function NextAddr(c: Chain, i: nat): nat
    requires i < |c|
  {
    if i + 1 == |c| then c[i].addr else c[i + 1].addr
  }

  predicate Header(v: View, c: Chain, i: nat) {
    i < |c| && HeaderAt(v, c[i].addr, PrevAddr(c, i), NextAddr(c, i), c[i].size, Flag(c[i].kind))
  }

  ghost predicate Represents(v: View, c: Chain) {
    forall i: nat :: i < |c| ==> Header(v, c, i)
  }

  predicate HasHeader(v: View, a: nat) {
    a in v && a + NEXT in v && a + SIZE in v && a + FLAGS in v
  }

  /** The flag of a header at address a says that its block is used. */
  predicate MarkedUsed(v: View, a: int) {
    a + FLAGS in v && v[a + FLAGS] % 256 == Flag(Used)
  }

  /** A chain has a live block only where the flag says so. */
  lemma LiveIsMarked(v: View, c: Chain, a: int)
    requires Represents(v, c) && !MarkedUsed(v, a)
    ensures forall b :: b in Live(c) ==> b.addr != a
  {
    forall b | b in Live(c)
      ensures b.addr != a
    {
      var k: nat :| k < |c| && c[k] == b;
      assert Header(v, c, k);
    }
  }

  /** w holds what v holds, except perhaps at the addresses from lo to hi. */
  ghost predicate SameOutside(v: View, w: View, lo: int, hi: int) {
    forall x :: x in v && !(lo <= x <= hi) ==> x in w && w[x] == v[x]
  }

  /** w holds what v holds below address a. */
  ghost predicate SameBelow(v: View, w: View, a: int) {
    forall x :: x in v && x < a ==> x in w && w[x] == v[x]
  }

  /** w holds all that v holds, and perhaps more. */
  ghost predicate Extends(v: View, w: View) {
    forall x :: x in v ==> x in w && w[x] == v[x]
  }

  predicate SameAt(v: View, w: View, x: int) {
    x in v && x in w && w[x] == v[x]
  }

  lemma HeaderKept(v: View, w: View, c: Chain, i: nat, lo: int, hi: int)
    requires Header(v, c, i) && SameOutside(v, w, lo, hi)
    requires c[i].addr + FLAGS < lo || hi < c[i].addr
    ensures Header(w, c, i)
  {
  }

  lemma ExtendsRepresents(v: View, w: View, c: Chain)
    requires Represents(v, c) && Extends(v, w)
    ensures Represents(w, c)
  {
    forall i: nat | i < |c|
      ensures Header(w, c, i)
    {
      assert Header(v, c, i);
    }
  }

  // ----- The stores of each operation, and the chain they leave -----

  /** The block at a is cut after n bytes; the block after it begins at d. */
  ghost predicate SplitWords(v: View, w: View, c: Chain, k: nat, n: nat)
    requires k + 1 < |c| && n + HEADER <= c[k].size
  {
    var a, b, d := c[k].addr, c[k].addr + HEADER + n, c[k + 1].addr;
    && SameOutside(v, w, a, d)
    && HeaderAt(w, a, PrevAddr(c, k), b, n, Flag(Used))
    && HeaderAt(w, b, a, d, c[k].size - n - HEADER, Flag(Free))
    && d in w && w[d] == b
  }

  lemma SplitStored(v: View, w: View, c: Chain, total: nat, k: nat, n: nat)
    requires Tiled(c, total) && Represents(v, c)
    requires k + 1 < |c| && n + HEADER <= c[k].size && SplitWords(v, w, c, k, n)
    ensures Represents(w, Split(c, k, n))
  {
    var e := Split(c, k, n);
    forall i: nat | i < |e|
      ensures Header(w, e, i)
    {
      if i < k {
        assert Header(v, c, i);
        Ordered(c, total, i, k);
        HeaderKept(v, w, c, i, c[k].addr, c[k + 1].addr);
        assert e[i] == c[i] && PrevAddr(e, i) == PrevAddr(c, i) && NextAddr(e, i) == NextAddr(c, i);
      } else if i <= k + 1 {
        assert e[k].addr == c[k].addr && e[k + 1].addr == c[k].addr + HEADER + n && e[k + 2].addr == c[k + 1].addr;
        assert PrevAddr(e, k) == PrevAddr(c, k);
      } else {
        assert Header(v, c, i - 1);
        assert e[i] == c[i - 1] && NextAddr(e, i) == NextAddr(c, i - 1);
        if i > k + 2 {
          Ordered(c, total, k + 1, i - 1);
          HeaderKept(v, w, c, i - 1, c[k].addr, c[k + 1].addr);
          assert PrevAddr(e, i) == PrevAddr(c, i - 1);
        }
      }
    }
  }

  /** The block at a swallows the one after it; the block after that begins at d. */
  ghost predicate MergeWords(v: View, w: View, c: Chain, k: nat)
    requires k + 2 < |c|
  {
    var a, d := c[k].addr, c[k + 2].addr;
    && SameOutside(v, w, a, d) && SameAt(v, w, a) && SameAt(v, w, a + FLAGS)
    && a + NEXT in w && w[a + NEXT] == d
    && a + SIZE in w && w[a + SIZE] == c[k].size + HEADER + c[k + 1].size
    && d in w && w[d] == a
  }

  lemma MergeStored(v: View, w: View, c: Chain, total: nat, k: nat)
    requires Tiled(c, total) && Represents(v, c) && k + 2 < |c| && MergeWords(v, w, c, k)
    ensures Represents(w, Merge(c, k))
  {
    var e := Merge(c, k);
    forall i: nat | i < |e|
      ensures Header(w, e, i)
    {
      if i < k {
        assert Header(v, c, i);
        Ordered(c, total, i, k);
        HeaderKept(v, w, c, i, c[k].addr, c[k + 2].addr);
      } else if i == k {
        assert Header(v, c, k);
      } else {
        assert Header(v, c, i + 1);
        if i > k + 1 {
          Ordered(c, total, k + 2, i + 1);
          HeaderKept(v, w, c, i + 1, c[k].addr, c[k + 2].addr);
        }
      }
    }
  }

  lemma SetKindStored(v: View, w: View, c: Chain, total: nat, k: nat, kind: Kind)
    requires Tiled(c, total) && Represents(v, c) && k < |c|
    requires var x := c[k].addr + FLAGS; SameOutside(v, w, x, x) && x in w && w[x] % 256 == Flag(kind)
    ensures Represents(w, SetKind(c, k, kind))
  {
    var e := SetKind(c, k, kind);
    forall i: nat | i < |e|
      ensures Header(w, e, i)
    {
      assert Header(v, c, i);
      if i < k {
        Ordered(c, total, i, k);
      } else if i > k {
        Ordered(c, total, k, i);
      }
    }
  }

  /** A store into the payload of a block touches no header. */
  lemma PayloadStored(v: View, w: View, c: Chain, total: nat, k: nat, x: nat)
    requires Tiled(c, total) && Represents(v, c) && k < |c|
    requires c[k].Payload() <= x < c[k].End() && SameOutside(v, w, x, x)
    ensures Represents(w, c)
  {
    forall i: nat | i < |c|
      ensures Header(w, c, i)
    {
      assert Header(v, c, i);
      if i < k {
        Ordered(c, total, i, k);
      } else if i > k {
        Ordered(c, total, k, i);
      }
      HeaderKept(v, w, c, i, x, x);
    }
  }

  /** A flag that says free, stored into the payload of block k or into its header. */
  lemma FlagStored(v: View, w: View, c: Chain, d: Chain, total: nat, k: nat, stale: bool, x: nat)
    requires Tiled(c, total) && Represents(v, c) && k + 1 < |c| && d == if stale then c else SetKind(c, k, Free)
    requires if stale then c[k].Payload() <= x < c[k].End() else x == c[k].addr + FLAGS
    requires SameOutside(v, w, x, x) && x in w && w[x] % 256 == Flag(Free)
    ensures Tiled(d, total) && Represents(w, d) && |d| == |c| && d[|d| - 1].addr == c[|c| - 1].addr
  {
    if stale {
      PayloadStored(v, w, c, total, k, x);
    } else {
      SetKindStored(v, w, c, total, k, Free);
      SetKindTiled(c, total, k, Free);
    }
  }

  /** The tail moves up by a page: the last block, at a, and the new tail, at t, are written. */
  ghost predicate GrowWords(v: View, w: View, c: Chain)
    requires |c| >= 2
  {
    var a, t := c[|c| - 2].addr, c[|c| - 1].addr + PAGE;
    && SameOutside(v, w, a, t + FLAGS) && SameAt(v, w, a) && SameAt(v, w, a + FLAGS)
    && a + NEXT in w && w[a + NEXT] == t
    && a + SIZE in w && w[a + SIZE] == c[|c| - 2].size + PAGE
    && HeaderAt(w, t, a, t, 0, Flag(Tail))
  }

  lemma GrowStored(v: View, w: View, c: Chain, total: nat)
    requires Tiled(c, total) && Represents(v, c) && GrowWords(v, w, c)
    ensures Represents(w, Grow(c, PAGE))
  {
    var e, last := Grow(c, PAGE), |c| - 2;
    forall i: nat | i < |e|
      ensures Header(w, e, i)
    {
      assert Header(v, c, i);
      if i < last {
        Ordered(c, total, i, last);
        HeaderKept(v, w, c, i, c[last].addr, c[last + 1].addr + PAGE + FLAGS);
        assert e[i] == c[i];
      }
    }
  }

  lemma FreshStored(v: View, w: View, f0: Word, f1: Word)
    requires f0 % 256 == Flag(Free) && f1 % 256 == Flag(Tail)
    requires var a, t := HEAP_BASE, HEAP_BASE + PAGE - HEADER;
             w == v[a := a][a + SIZE := PAGE - 2 * HEADER][a + FLAGS := f0][a + NEXT := t]
                   [t := a][t + SIZE := 0][t + FLAGS := f1][t + NEXT := t]
    ensures Represents(w, Fresh(PAGE))
  {
    var c := Fresh(PAGE);
    assert Header(w, c, 0) && Header(w, c, 1);
  }

  /** The stores of kmem_morecore, in its order. */
  lemma GrowStores(v: View, w: View, c: Chain, total: nat, f: Word)
    requires Tiled(c, total) && Represents(v, c) && f % 256 == Flag(Tail)
    requires var a, t := c[|c| - 2].addr, c[|c| - 1].addr + PAGE;
             && t + FLAGS < WORD_LIMIT && c[|c| - 2].size + PAGE < WORD_LIMIT
             && w == v[a + SIZE := c[|c| - 2].size + PAGE][t := a][t + SIZE := 0][t + FLAGS := f]
                      [a + NEXT := t][t + NEXT := t]
    ensures Represents(w, Grow(c, PAGE)) && SameBelow(v, w, c[|c| - 2].addr)
  {
    Ordered(c, total, |c| - 2, |c| - 1);
    assert Header(v, c, |c| - 2);
    assert GrowWords(v, w, c);
    GrowStored(v, w, c, total);
  }

  /** The stores of kmalloc when it cuts block k after n bytes, in its order. */
  lemma SplitStores(v: View, w: View, c: Chain, total: nat, k: nat, n: nat, f0: Word, f1: Word)
    requires Tiled(c, total) && Represents(v, c) && k + 1 < |c| && n + HEADER < c[k].size && n % 16 == 0
    requires f0 % 256 == Flag(Used) && f1 % 256 == Flag(Free)
    requires var a, b, d := c[k].addr, c[k].addr + HEADER + n, c[k + 1].addr;
             && a < WORD_LIMIT && b < WORD_LIMIT && d < WORD_LIMIT && c[k].size < WORD_LIMIT
             && w == v[d := b][b + SIZE := c[k].size - (n + HEADER)][b := a][b + NEXT := d]
                      [a + SIZE := n][a + NEXT := b][a + FLAGS := f0][b + FLAGS := f1]
    ensures Represents(w, Split(c, k, n)) && SameOutside(v, w, c[k].addr, c[k + 1].addr)
  {
    assert Header(v, c, k) && Joined(c, k);
    assert SplitWords(v, w, c, k, n);
    SplitStored(v, w, c, total, k, n);
  }

  /** The stores of kfree when block k swallows the next one. */
  lemma MergeStores(v: View, w: View, c: Chain, total: nat, k: nat)
    requires Tiled(c, total) && Represents(v, c) && k + 2 < |c|
    requires var a, d, size := c[k].addr, c[k + 2].addr, c[k].size + HEADER + c[k + 1].size;
             && a < WORD_LIMIT && d < WORD_LIMIT && size < WORD_LIMIT
             && (w == v[d := a][a + SIZE := size][a + NEXT := d] || w == v[a + SIZE := size][d := a][a + NEXT := d])
    ensures Represents(w, Merge(c, k)) && OnlyAt(v, w, c[k].addr + NEXT, c[k].addr + SIZE, c[k + 2].addr)
  {
    Ordered(c, total, k, k + 1);
    Ordered(c, total, k + 1, k + 2);
    assert Header(v, c, k);
    assert MergeWords(v, w, c, k);
    MergeStored(v, w, c, total, k);
  }

  // ----- Payloads -----

  /** The payload of every given block holds the same words. */
  ghost predicate PayloadsKept(v: View, w: View, blocks: set<Block>) {
    forall b, x :: b in blocks && b.Payload() <= x < b.End() && x in v ==> x in w && w[x] == v[x]
  }

  /** The used blocks, each with its address and size. */
  ghost function Live(c: Chain): set<Block> {
    set b | b in c && b.kind == Used
  }

  lemma KeptByCut(v: View, w: View, c: Chain, total: nat, k: nat)
    requires Tiled(c, total) && k + 1 < |c| && c[k].kind == Free && SameOutside(v, w, c[k].addr, c[k + 1].addr)
    ensures PayloadsKept(v, w, Live(c))
  {
    forall b, x | b in Live(c) && b.Payload() <= x < b.End() && x in v
      ensures x in w && w[x] == v[x]
    {
      var i :| 0 <= i < |c| && c[i] == b;
      if i < k {
        Ordered(c, total, i, k);
      } else if i > k + 1 {
        Ordered(c, total, k + 1, i);
      }
    }
  }

  lemma KeptByGrowth(v: View, w: View, c: Chain, total: nat)
    requires Heap(c, total) && SameBelow(v, w, c[|c| - 2].addr)
    ensures PayloadsKept(v, w, Live(c))
  {
    forall b, x | b in Live(c) && b.Payload() <= x < b.End() && x in v
      ensures x in w && w[x] == v[x]
    {
      var i :| 0 <= i < |c| && c[i] == b;
      Ordered(c, total, i, |c| - 2);
    }
  }

  /** x is the address of a word of some header. */
  ghost predicate HeaderWord(c: Chain, x: int) {
    exists i: nat :: i < |c| && c[i].addr <= x < c[i].addr + HEADER
  }

  /** Only words of headers differ. */
  ghost predicate OnlyHeaders(v: View, w: View, c: Chain) {
    forall x :: x in v ==> x in w && (w[x] == v[x] || HeaderWord(c, x))
  }

  /** Only the words at p, q and r differ. */
  ghost predicate OnlyAt(v: View, w: View, p: int, q: int, r: int) {
    forall x :: x in v ==> x in w && (w[x] == v[x] || x == p || x == q || x == r)
  }

  lemma OnlyHeadersNext(u: View, v: View, w: View, c: Chain, p: int, q: int, r: int)
    requires OnlyHeaders(u, v, c) && OnlyAt(v, w, p, q, r)
    requires HeaderWord(c, p) && HeaderWord(c, q) && HeaderWord(c, r)
    ensures OnlyHeaders(u, w, c)
  {
  }

  lemma HeaderOf(c: Chain, k: nat)
    requires k < |c|
    ensures HeaderWord(c, c[k].addr) && HeaderWord(c, c[k].addr + NEXT)
    ensures HeaderWord(c, c[k].addr + SIZE) && HeaderWord(c, c[k].addr + FLAGS)
  {
  }

  lemma PreviousHeader(c: Chain, k: nat)
    requires k < |c|
    ensures HeaderWord(c, PrevAddr(c, k) + NEXT) && HeaderWord(c, PrevAddr(c, k) + SIZE)
  {
    HeaderOf(c, if k > 0 then k - 1 else k);
  }

  /** The headers that freeing block k writes to, the next block's part having been done or not. */
  lemma HeadersAround(c: Chain, total: nat, k: nat)
    requires Tiled(c, total) && k + 2 < |c| && c[k].kind == Used
    ensures k + 1 < |WithNext(c, k)| && PrevAddr(WithNext(c, k), k) == PrevAddr(c, k)
    ensures HeaderWord(c, PrevAddr(c, k) + NEXT) && HeaderWord(c, PrevAddr(c, k) + SIZE)
    ensures HeaderWord(c, WithNext(c, k)[k + 1].addr)
  {
    NextJoined(c, total, k);
    PreviousHeader(c, k);
    var after := if c[k + 1].kind == Free then k + 2 else k + 1;
    HeaderOf(c, after);
    assert WithNext(c, k)[k + 1].addr == c[after].addr;
  }

  lemma KeptByHeaders(v: View, w: View, c: Chain, total: nat)
    requires Tiled(c, total) && OnlyHeaders(v, w, c)
    ensures PayloadsKept(v, w, Live(c))
  {
    forall b, x | b in Live(c) && b.Payload() <= x < b.End() && x in v
      ensures x in w && w[x] == v[x]
    {
      var i :| 0 <= i < |c| && c[i] == b;
      if HeaderWord(c, x) {
        var j: nat :| j < |c| && c[j].addr <= x < c[j].addr + HEADER;
        if i < j {
          Ordered(c, total, i, j);
        } else if j < i {
          Ordered(c, total, j, i);
        }
      }
    }
  }

  lemma KeptTwice(u: View, v: View, w: View, blocks: set<Block>)
    requires PayloadsKept(u, v, blocks) && PayloadsKept(v, w, blocks)
    ensures PayloadsKept(u, w, blocks)
  {
  }

  // ----- A header that claims more than there is -----

  /** Chain d begins like chain c, the words of whose first k headers it shares. */
  lemma {:induction false} SameBeginning(v: View, w: View, c: Chain, d: Chain, total: nat, k: nat, i: nat)
    requires Tiled(c, total) && Tiled(d, total) && Represents(v, c) && Represents(w, d)
    requires i <= k < |c| && SameOutside(v, w, c[k].addr, c[k].addr + FLAGS)
    ensures i < |d| && d[i].addr == c[i].addr
    decreases i
  {
    if i > 0 {
      SameBeginning(v, w, c, d, total, k, i - 1);
      Ordered(c, total, i - 1, k);
      assert Header(v, c, i - 1) && Header(w, d, i - 1) && Joined(c, i - 1);
      assert d[i - 1].kind != Tail && Joined(d, i - 1);
    }
  }

  /** When the header of block k gives a size that leaves the heap, the words are those of no chain. */
  lemma NoChainLeft(v: View, w: View, c: Chain, d: Chain, total: nat, k: nat)
    requires Tiled(c, total) && Represents(v, c) && k < |c|
    requires var a := c[k].addr; SameOutside(v, w, a, a + FLAGS) && a + SIZE in w && w[a + SIZE] >= total
    ensures !(Tiled(d, total) && Represents(w, d))
  {
    if Tiled(d, total) && Represents(w, d) {
      SameBeginning(v, w, c, d, total, k, k);
      assert Header(w, d, k);
      Inside(d, total, k);
    }
  }

  /** The stores of the cut when the new header falls on the old one. */
  lemma SpoilingStores(v: View, w: View, a: Word, d: Word, length: Word, n: Word, f0: Word, f1: Word)
    requires HasHeader(v, a) && d in v && v[d] == a && a + HEADER <= d && f1 % 256 == Flag(Free) && a + FLAGS < WORD_LIMIT
    requires w == v[d := a][a + SIZE := length][a := a][a + NEXT := d][a + SIZE := n][a + NEXT := a][a + FLAGS := f0][a + FLAGS := f1]
    ensures HeaderAt(w, a, a, a, n, Flag(Free)) && SameOutside(v, w, a, a + FLAGS)
  {
  }
}
