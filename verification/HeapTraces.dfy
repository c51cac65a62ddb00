/** Runs of kmalloc, kfree and stores by the callers, with the words of the heap region. */
module HeapTraces {
  import opened Mmu
  import opened HeapChain
  import opened HeapScan
  import opened HeapStore
  import opened HeapRuns

  datatype Call = Kmalloc(bsize: nat) | Kfree(ptr: nat) | Store(addr: int, word: Word)

  datatype State = State(c: Chain, total: nat, v: View)

  /** The words are those of the heap region, no more and no less. */
  ghost predicate Covers(v: View, total: nat) {
    forall a: int :: a in v <==> HEAP_BASE <= a < HEAP_BASE + total && a % 4 == 0
  }

  ghost predicate Sound(s: State) {
    Heap(s.c, s.total) && Represents(s.v, s.c) && Covers(s.v, s.total)
  }

  ghost predicate LiveAt(c: Chain, a: int) {
    exists b :: b in Live(c) && b.addr == a
  }

  ghost predicate InPayload(c: Chain, a: int) {
    exists b :: b in Live(c) && b.Payload() <= a < b.End()
  }

  /** What is asked of a caller: a request whose search ends, within the address range of the heap; a pointer
      with no used flag before it unless it is that of a live block; a store into the payload of such a block. */
  ghost predicate Proper(s: State, call: Call) {
    && Sound(s)
    && match call
       case Kmalloc(b) => b < WRAP && Requestable(s.c, s.total, AlignBlock(b)) && !Diverges(s.c, s.total, AlignBlock(b))
       case Kfree(p) => p >= HEADER && (MarkedUsed(s.v, p - HEADER) ==> LiveAt(s.c, p - HEADER))
       case Store(a, w) => a in s.v && InPayload(s.c, a)
  }

  /** What a call may make of the heap: its blocks, whose headers the words then hold, and its words. */
  ghost predicate Step(s: State, call: Call, t: State) {
    && Proper(s, call)
    && match call
       case Kmalloc(b) =>
         && Outcome(s.c, s.total, AlignBlock(b)) == Returned(Outcome(s.c, s.total, AlignBlock(b)).p, t.c, t.total)
         && PayloadsKept(s.v, t.v, Live(s.c)) && Represents(t.v, t.c) && Covers(t.v, t.total)
       case Kfree(p) =>
         if MarkedUsed(s.v, p - HEADER) then
           && t.c == FreeAt(s.c, s.total, p - HEADER) && t.total == s.total
           && PayloadsKept(s.v, t.v, Live(s.c)) && Represents(t.v, t.c) && Covers(t.v, t.total)
           && !MarkedUsed(t.v, p - HEADER)
         else t == s
       case Store(a, w) => t == State(s.c, s.total, s.v[a := w])
  }

  lemma StoreIsSound(s: State, a: int, w: Word)
    requires Sound(s) && a in s.v && InPayload(s.c, a)
    ensures Represents(s.v[a := w], s.c)
  {
    var b :| b in Live(s.c) && b.Payload() <= a < b.End();
    var k: nat :| k < |s.c| && s.c[k] == b;
    PayloadStored(s.v, s.v[a := w], s.c, s.total, k, a);
  }

  /** A step keeps the invariant. */
  lemma StepIsSound(s: State, call: Call, t: State)
    requires Step(s, call, t)
    ensures Sound(t)
  {
    match call
    case Kmalloc(b) => OutcomeHeap(s.c, s.total, AlignBlock(b));
    case Kfree(p) =>
    case Store(a, w) => StoreIsSound(s, a, w);
  }

  /** A pointer freed once may be freed again at once, which does nothing. */
  lemma SecondFree(s: State, p: nat, t: State)
    requires Step(s, Kfree(p), t)
    ensures forall u :: Step(t, Kfree(p), u) <==> u == t
  {
    StepIsSound(s, Kfree(p), t);
  }

  /** From a sound state the call is proper and the next state comes of it. */
  ghost predicate StepAt(states: seq<State>, calls: seq<Call>, i: int) {
    0 <= i < |calls| && i + 1 < |states| && (Sound(states[i]) ==> Step(states[i], calls[i], states[i + 1]))
  }

  /** The states before, between and after the calls. */
  ghost predicate Run(states: seq<State>, calls: seq<Call>) {
    |states| == |calls| + 1 && Sound(states[0]) && forall i :: 0 <= i < |calls| ==> StepAt(states, calls, i)
  }

  /** The invariant holds over every run. */
  lemma {:induction false} RunsAreSound(states: seq<State>, calls: seq<Call>, i: nat)
    requires Run(states, calls) && i <= |calls|
    ensures Sound(states[i])
    decreases i
  {
    if i > 0 {
      RunsAreSound(states, calls, i - 1);
      assert StepAt(states, calls, i - 1);
      StepIsSound(states[i - 1], calls[i - 1], states[i]);
    }
  }

  lemma StepOf(states: seq<State>, calls: seq<Call>, i: nat)
    requires Run(states, calls) && i < |calls|
    ensures Step(states[i], calls[i], states[i + 1])
  {
    RunsAreSound(states, calls, i);
    assert StepAt(states, calls, i);
  }

  // ----- Calls that can be served -----

  /** The call stays within the first limit bytes of the heap's address range, and its pointer in the heap. */
  ghost predicate Feasible(s: State, call: Call, limit: nat)
    requires Proper(s, call)
  {
    match call
    case Kmalloc(b) => Outcome(s.c, s.total, AlignBlock(b)).total <= limit
    case Kfree(p) => p < WORD_LIMIT && HasHeader(s.v, p - HEADER)
    case Store(a, w) => true
  }

  /** Each call is proper and feasible, whatever state the calls before it have led to. */
  ghost predicate Servable(s: State, calls: seq<Call>, limit: nat)
    decreases |calls|
  {
    calls != [] ==>
      && Proper(s, calls[0]) && Feasible(s, calls[0], limit)
      && forall t :: Step(s, calls[0], t) ==> Servable(t, calls[1..], limit)
  }

  lemma ServableFirst(s: State, call: Call, rest: seq<Call>, limit: nat)
    requires Proper(s, call) && Feasible(s, call, limit)
    requires forall t :: Step(s, call, t) ==> Servable(t, rest, limit)
    ensures Servable(s, [call] + rest, limit)
  {
    assert ([call] + rest)[1..] == rest;
  }

  lemma RunPrepended(s: State, call: Call, states: seq<State>, calls: seq<Call>)
    requires Sound(s) && Run(states, calls) && Step(s, call, states[0])
    ensures Run([s] + states, [call] + calls)
  {
    var all, more := [s] + states, [call] + calls;
    forall i | 0 <= i < |more|
      ensures StepAt(all, more, i)
    {
      if i > 0 {
        assert StepAt(states, calls, i - 1);
      }
    }
  }

  lemma TwoStepRun(s: State, first: Call, t: State, second: Call, u: State) returns (states: seq<State>)
    requires Step(s, first, t) && Step(t, second, u)
    ensures Run(states, [first, second]) && states == [s, t, u]
  {
    states := [s, t, u];
    assert StepAt(states, [first, second], 0) && StepAt(states, [first, second], 1);
  }

  /** A run may go on where another ended. */
  lemma RunAppended(states: seq<State>, calls: seq<Call>, others: seq<State>, more: seq<Call>) returns (all: seq<State>)
    requires Run(states, calls) && Run(others, more) && states[|calls|] == others[0]
    ensures Run(all, calls + more) && all[0] == states[0] && all[|calls| + |more|] == others[|more|]
  {
    all := states + others[1..];
    forall i | 0 <= i < |calls + more|
      ensures StepAt(all, calls + more, i)
    {
      if i < |calls| {
        assert StepAt(states, calls, i);
      } else {
        assert StepAt(others, more, i - |calls|);
        assert all[i] == others[i - |calls|];
      }
    }
  }

  // ----- The account a caller would keep -----

  /** The live blocks: what requests returned, less what was freed. */
  ghost function Accounted(live: set<Block>, s: State, call: Call): set<Block>
    requires Proper(s, call)
  {
    match call
    case Kmalloc(b) =>
      var p := Outcome(s.c, s.total, AlignBlock(b)).p;
      if p < HEADER then live else live + {Block(p - HEADER, AlignBlock(b), Used)}
    case Kfree(p) => set b | b in live && b.addr != p - HEADER
    case Store(a, w) => live
  }

  ghost function Account(states: seq<State>, calls: seq<Call>, i: nat): set<Block>
    requires Run(states, calls) && i <= |calls|
  {
    if i == 0 then Live(states[0].c)
    else
      StepOf(states, calls, i - 1);
      Accounted(Account(states, calls, i - 1), states[i - 1], calls[i - 1])
  }

  lemma RequestIsAccounted(s: State, b: nat)
    requires Proper(s, Kmalloc(b))
    ensures var r := Outcome(s.c, s.total, AlignBlock(b));
            r.total >= s.total && Live(r.c) == Accounted(Live(s.c), s, Kmalloc(b))
  {
    var r := Outcome(s.c, s.total, AlignBlock(b));
    OutcomeHeap(s.c, s.total, AlignBlock(b));
    AddsOne(s.c, r.c, r.p, AlignBlock(b));
  }

  lemma FreeKeepsAccount(s: State, p: nat, t: State)
    requires Step(s, Kfree(p), t)
    ensures t.total == s.total && Live(t.c) == Accounted(Live(s.c), s, Kfree(p))
  {
    if !MarkedUsed(s.v, p - HEADER) {
      LiveIsMarked(s.v, s.c, p - HEADER);
    }
  }

  lemma StepKeepsAccount(s: State, call: Call, t: State)
    requires Step(s, call, t)
    ensures t.total >= s.total && Live(t.c) == Accounted(Live(s.c), s, call)
  {
    match call
    case Kmalloc(b) => RequestIsAccounted(s, b);
    case Kfree(p) => FreeKeepsAccount(s, p, t);
    case Store(a, w) =>
  }

  lemma AccountNext(states: seq<State>, calls: seq<Call>, i: nat)
    requires Run(states, calls) && 0 < i <= |calls|
    requires Live(states[i - 1].c) == Account(states, calls, i - 1)
    ensures states[i].total >= states[i - 1].total && Live(states[i].c) == Account(states, calls, i)
  {
    StepOf(states, calls, i - 1);
    StepKeepsAccount(states[i - 1], calls[i - 1], states[i]);
  }

  /** The caller's account is right over every run. */
  lemma {:induction false} RunsKeepAccount(states: seq<State>, calls: seq<Call>, i: nat)
    requires Run(states, calls) && i <= |calls|
    ensures states[i].total >= states[0].total && Live(states[i].c) == Account(states, calls, i)
    decreases i
  {
    if i > 0 {
      RunsKeepAccount(states, calls, i - 1);
      AccountNext(states, calls, i);
    }
  }

  /** So two runs that end with the same account and the same length end with the same chain, whatever calls
      they made. */
  lemma AccountDeterminesChain(states: seq<State>, calls: seq<Call>, others: seq<State>, more: seq<Call>)
    requires Run(states, calls) && Run(others, more)
    requires Account(states, calls, |calls|) == Account(others, more, |more|)
    requires states[|calls|].total == others[|more|].total
    ensures states[|calls|].c == others[|more|].c
  {
    RunsAreSound(states, calls, |calls|);
    RunsAreSound(others, more, |more|);
    RunsKeepAccount(states, calls, |calls|);
    RunsKeepAccount(others, more, |more|);
    LiveBlocksDetermineChain(states[|calls|].c, others[|more|].c, states[|calls|].total);
  }

  // ----- The words of a live block -----

  /** The call neither frees block b nor stores to address x. */
  predicate Leaves(call: Call, b: Block, x: int) {
    match call
    case Kmalloc(n) => true
    case Kfree(p) => p != b.Payload()
    case Store(a, w) => a != x
  }

  lemma StepKeepsWord(s: State, call: Call, t: State, b: Block, x: int)
    requires Step(s, call, t) && Leaves(call, b, x)
    requires b in Live(s.c) && b.Payload() <= x < b.End() && x in s.v
    ensures b in Live(t.c) && x in t.v && t.v[x] == s.v[x]
  {
    StepKeepsAccount(s, call, t);
  }

  /** Over every run a live block that is not freed stays live, and each of its words that is not stored to
      keeps its value. */
  lemma {:induction false} RunsKeepWords(states: seq<State>, calls: seq<Call>, i: nat, j: nat, b: Block, x: int)
    requires Run(states, calls) && i <= j <= |calls|
    requires b in Live(states[i].c) && b.Payload() <= x < b.End() && x in states[i].v
    requires forall k :: i <= k < j ==> Leaves(calls[k], b, x)
    ensures b in Live(states[j].c) && x in states[j].v && states[j].v[x] == states[i].v[x]
    decreases j
  {
    if i != j {
      RunsKeepWords(states, calls, i, j - 1, b, x);
      StepOf(states, calls, j - 1);
      StepKeepsWord(states[j - 1], calls[j - 1], states[j], b, x);
    }
  }
}
