/** The loop of csc369_simulation.c on the memory manager, and what a whole simulation shows. */
module Simulation {
  import opened Machine
  import opened Powers
  import opened MemoryManager
  import opened Policies
  import opened IntrusiveList
  import opened Sequences
  import opened Ledger
  import opened RadixTable
  import opened Seals
  import opened SwapFile
  import Paging
  import Refinement = PagingRefinement
  import PagingCounters
  import PolicySpec
  import Replacement
  import SwapSpace
  import Teardown
  import Visits

  /** The loop has got through the first |bytes| accesses from a start, under a policy. */
  ghost predicate Through(start: Paging.State, first: PolicySpec.Order, trace: seq<Access>, bytes: seq<Byte>,
      logged: set<int>, now: Paging.State, order: PolicySpec.Order) {
    && Paging.Mapped(start) && |now.frames| == |start.frames| && |bytes| <= |trace|
    && PolicySpec.RunUnder(start, first, trace[..|bytes|]) == Refinement.Ended(bytes, now)
    && PolicySpec.Played(start, first, trace[..|bytes|]).order == order
    && logged == Refinement.Mismatches(trace[..|bytes|], bytes)
  }

  lemma LogGrows(trace: seq<Access>, bytes: seq<Byte>, byte: Byte)
    requires |bytes| < |trace|
    ensures trace[..|bytes| + 1] == trace[..|bytes|] + [trace[|bytes|]]
    ensures var a, logged := trace[|bytes|], Refinement.Mismatches(trace[..|bytes|], bytes);
            Refinement.Mismatches(trace[..|bytes| + 1], bytes + [byte])
            == if !IsWrite(a) && byte != a.value then logged + {|bytes|} else logged
  {}

  /** One access more gets through. */
  lemma OneFurther(start: Paging.State, first: PolicySpec.Order, trace: seq<Access>, bytes: seq<Byte>,
      logged: set<int>, now: Paging.State, order: PolicySpec.Order, victim: nat, next: Paging.State,
      order': PolicySpec.Order, byte: Byte)
    requires Through(start, first, trace, bytes, logged, now, order) && |bytes| < |trace|
    requires PolicySpec.Known(PolicySpec.Executed(now, order, trace[|bytes|], victim, order', true, next, byte))
    ensures var a := trace[|bytes|];
            Through(start, first, trace, bytes + [byte],
                    if !IsWrite(a) && byte != a.value then logged + {|bytes|} else logged,
                    next, order')
  {
    PolicySpec.GoesOn(start, first, trace[..|bytes|], trace[|bytes|], bytes, now, order, victim, next, order', byte);
    LogGrows(trace, bytes, byte);
  }

  /** One turn of the loop. */
  method Step(mm: Mm, trace: seq<Access>, bytes: seq<Byte>, logged: set<int>, ghost start: Paging.State,
      ghost first: PolicySpec.Order)
    returns (ok: bool, bytes': seq<Byte>, logged': set<int>)
    requires mm.Valid() && |bytes| < |trace| && trace[|bytes|].address < ADDRESS_LIMIT
    requires Through(start, first, trace, bytes, logged, mm.s, mm.order)
    modifies mm`s, mm`order, mm`stats, mm.swap`file, mm.swap.swapmap.words, mm.physmem, mm.frames`free, mm.frames`pte
    modifies mm.owner.Keys`frameNumber, mm.owner.Keys`swapOffset, mm.owner.Keys`valid, mm.owner.Keys`dirty,
        mm.owner.Keys`onSwap, mm.owner.Keys`reference
    modifies State(mm.policy), mm.frames`next, mm.frames`prev, Heads(mm.policy)`next, Heads(mm.policy)`prev
    modifies mm`pages, mm`owner, mm.tree`entries, mm.tree`nodes, mm.tree`tables, mm.tree`owners, mm.tree`blocks,
        mm.tree.heap, mm.tree.owners.Keys
    ensures fresh(mm.owner.Keys - old(mm.owner.Keys)) && fresh(mm.tree.owners.Keys - old(mm.tree.owners.Keys))
    ensures ok ==>
          mm.Valid() && |bytes'| == |bytes| + 1 && Through(start, first, trace, bytes', logged', mm.s, mm.order)
    ensures !ok ==> bytes' == bytes && logged' == logged
    ensures !ok ==> PolicySpec.RunUnder(start, first, trace) == Refinement.Broken(bytes)
  {
    var a := trace[|bytes|];
    var byte;
    ghost var victim;
    ghost var now, order := mm.s, mm.order;
    ok, byte, victim := mm.ExecuteMemInstruction(a);
    bytes', logged' := bytes, logged;
    if ok {
      OneFurther(start, first, trace, bytes, logged, now, order, victim, mm.s, mm.order, byte);
      bytes', logged' := bytes + [byte], if !IsWrite(a) && byte != a.value then logged + {|bytes|} else logged;
    } else {
      PolicySpec.Stops(start, first, trace, |bytes|, bytes, now, order, victim, mm.s, mm.order, byte);
    }
  }

  /**
   * CSC369_SimulationRun: the model's run under the policy, to its end or to where it stops; logged
   * are the accesses reported as errors.
   */
  method Execute(mm: Mm, trace: seq<Access>) returns (ended: bool, bytes: seq<Byte>, logged: set<int>)
    requires mm.Valid() && forall a | a in trace :: a.address < ADDRESS_LIMIT
    modifies mm`s, mm`order, mm`stats, mm.swap`file, mm.swap.swapmap.words, mm.physmem, mm.frames`free, mm.frames`pte
    modifies mm.owner.Keys`frameNumber, mm.owner.Keys`swapOffset, mm.owner.Keys`valid, mm.owner.Keys`dirty,
        mm.owner.Keys`onSwap, mm.owner.Keys`reference
    modifies State(mm.policy), mm.frames`next, mm.frames`prev, Heads(mm.policy)`next, Heads(mm.policy)`prev
    modifies mm`pages, mm`owner, mm.tree`entries, mm.tree`nodes, mm.tree`tables, mm.tree`owners, mm.tree`blocks,
        mm.tree.heap, mm.tree.owners.Keys
    ensures ended ==> mm.Valid()
    ensures ended ==> PolicySpec.RunUnder(old(mm.s), old(mm.order), trace) == Refinement.Ended(bytes, mm.s)
    ensures !ended ==> PolicySpec.RunUnder(old(mm.s), old(mm.order), trace) == Refinement.Broken(bytes)
    ensures |bytes| <= |trace| && logged == Refinement.Mismatches(trace[..|bytes|], bytes)
  {
    ghost var start, first := mm.s, mm.order;
    bytes, logged, ended := [], {}, true;
    while |bytes| < |trace|
      invariant mm.Valid() && Through(start, first, trace, bytes, logged, mm.s, mm.order)
      invariant fresh(mm.owner.Keys - old(mm.owner.Keys)) && fresh(mm.tree.owners.Keys - old(mm.tree.owners.Keys))
      decreases |trace| - |bytes|
    {
      ended, bytes, logged := Step(mm, trace, bytes, logged, start, first);
      if !ended {
        return;
      }
    }
    assert trace[..|bytes|] == trace;
  }

  // ----- from power-on -----

  /** CSC369_CoremapCreate: the frames, all free. */
  method CreateFrames(n: nat) returns (frames: seq<Frame>)
    ensures |frames| == n && Distinct(frames) && fresh(frames)
    ensures forall f | f in frames :: f.free && f.pte == null && f.next == null
  {
    frames := [];
    while |frames| < n
      invariant |frames| <= n && Distinct(frames) && fresh(frames)
      invariant forall f | f in frames :: f.free && f.pte == null && f.next == null
      decreases n - |frames|
    {
      var f := new Frame();
      frames := frames + [f];
    }
  }

  const MM_SIZE: nat := 32

  /** CSC369_MallocInit, and the two allocations of CSC369_MMCreate. */
  method CreateTree() returns (tree: Tree, address: nat)
    ensures fresh(tree) && fresh(tree.heap) && tree.owners.Keys == {tree.root.ptes} && fresh(tree.root.ptes)
    ensures tree.Sound(SEAL) && tree.entries == map[] && tree.base == map[address := MM_SIZE]
  {
    var heap := new Tracker();
    address := heap.Malloc(MM_SIZE);
    tree := new Tree(heap);
    tree.BreakSound(SEAL);
  }

  /** CSC369_SimulationCreate. */
  method Create(frameCount: nat, swapSize: nat, choice: Choice) returns (mm: Mm)
    requires 1 <= frameCount
    ensures fresh(mm) && fresh(mm.swap) && fresh(mm.swap.swapmap.words) && fresh(mm.physmem) && fresh(mm.frames)
    ensures fresh(State(mm.policy)) && fresh(Heads(mm.policy)) && fresh(mm.tree) && fresh(mm.tree.heap)
    ensures mm.tree.owners.Keys == {mm.tree.root.ptes} && fresh(mm.tree.root.ptes)
    ensures mm.Valid() && |mm.frames| == frameCount && mm.s == Refinement.Init(frameCount, swapSize)
            && mm.owner == map[] && mm.order == Start(choice)
    ensures mm.tree.base == map[mm.address := MM_SIZE]
  {
    var physmem := new Byte[frameCount * FRAME_SIZE](_ => 0);
    var swap := new Swap(swapSize, physmem);
    var frames := CreateFrames(frameCount);
    var tree, address := CreateTree();
    var policy := Choose(choice, frames);
    Refinement.InitInv(frameCount, swapSize);
    mm := new Mm(frames, swap, tree, physmem, policy, address, Start(choice));
    mm.BreakReady(SEAL, -1);
  }

  /** CSC369_MMDestroy: nothing it got from the allocator is left. */
  method DestroyMm(mm: Mm)
    requires mm.Valid() && mm.tree.base == map[mm.address := MM_SIZE]
    modifies mm.tree.heap
    ensures mm.tree.heap.Valid() && mm.tree.heap.live == map[]
  {
    mm.TreeIsSound();
    Teardown.Destroy(mm.tree);
    mm.tree.heap.Free(mm.address);
  }

  /** The run of the model from power-on, with the victims the policy names. */
  ghost function Specified(frameCount: nat, swapSize: nat, choice: Choice, trace: seq<Access>): Refinement.Trace
    requires 1 <= frameCount
  {
    Refinement.InitInv(frameCount, swapSize);
    PolicySpec.RunUnder(Refinement.Init(frameCount, swapSize), Start(choice), trace)
  }

  /** The victims it names. */
  ghost function Victims(frameCount: nat, swapSize: nat, choice: Choice, trace: seq<Access>): (v: seq<nat>)
    requires 1 <= frameCount
    ensures |v| == |trace| && Refinement.AllBelow(v, frameCount)
  {
    Refinement.InitInv(frameCount, swapSize);
    PolicySpec.Played(Refinement.Init(frameCount, swapSize), Start(choice), trace).victims
  }

  /** The frames of the pages the policy puts out in n accesses are those told from the accesses. */
  ghost predicate VictimsChosen(frameCount: nat, swapSize: nat, choice: Choice, trace: seq<Access>, n: nat)
    requires 1 <= frameCount && n <= |trace|
  {
    var nothing := if choice == Choice.Clock then Replacement.Fifo([], {}) else Replacement.Times(0, map[], map[]);
    Replacement.Chosen(Visits.Empty(frameCount), nothing, trace, Victims(frameCount, swapSize, choice, trace), n)
  }

  /** The accesses stay within a frame, and the frames can be told apart or hold all pages. */
  ghost predicate Flat(frameCount: nat, trace: seq<Access>) {
    && (forall a | a in trace :: InTrace(a))
    && (frameCount <= MAX_FRAMES || |Refinement.Pages(trace)| <= frameCount)
  }

  /** There is a place for each page. */
  ghost predicate Ample(frameCount: nat, swapSize: nat, trace: seq<Access>) {
    && (forall a | a in trace :: InTrace(a))
    && (|Refinement.Pages(trace)| <= swapSize || |Refinement.Pages(trace)| <= frameCount)
  }

  /**
   * A whole simulation. It is the model's run, with the victims of the clock on an array of bits or
   * of the two queues of frame numbers, whatever the trace and the sizes. For a trace whose accesses
   * stay within a frame, and frames the swap functions can tell apart, every access finds the byte
   * last stored at its address and errors are logged exactly where the trace expects another. The
   * run ends with a slot or a frame for each page; in a run that ends the statistics are those told
   * from the accesses, modulo 2^32, and add up, and what was allocated has been freed.
   */
  method Simulate(frameCount: nat, swapSize: nat, choice: Choice, trace: seq<Access>)
    returns (ended: bool, bytes: seq<Byte>, logged: set<int>, stats: Paging.Stats, leaked: int, leakedBytes: int)
    requires 1 <= frameCount && forall a | a in trace :: a.address < ADDRESS_LIMIT
    ensures match Specified(frameCount, swapSize, choice, trace)
            case Ended(bytes', final) => ended && bytes == bytes' && stats == final.stats
            case Broken(bytes') => !ended && bytes == bytes'
    ensures if ended then |bytes| == |trace| else |bytes| < |trace|
    ensures forall i :: i in logged <==>
              0 <= i < |bytes| && (trace[i].kind == Load || trace[i].kind == Fetch) && bytes[i] != trace[i].value
    ensures VictimsChosen(frameCount, swapSize, choice, trace, if ended then |trace| else |bytes| + 1)
    ensures ended ==>
              stats == Visits.Counters(Visits.VisitAll(Visits.Empty(frameCount), trace,
                                                       Victims(frameCount, swapSize, choice, trace)))
    ensures (forall a | a in trace :: InTrace(a)) ==>
              |bytes| == SwapSpace.Reached(Visits.Empty(frameCount), SwapSpace.Space({}, {}), swapSize, trace,
                                           Victims(frameCount, swapSize, choice, trace))
    ensures Flat(frameCount, trace) ==>
              && bytes == FlatRun(map[], trace)[..|bytes|]
              && logged == (set i | i in Refinement.Mismatches(trace, FlatRun(map[], trace)) && i < |bytes|)
    ensures Ample(frameCount, swapSize, trace) ==> ended
    ensures ended && |trace| < UINT32 ==> AddUp(stats, frameCount, |trace|)
    ensures ended ==> leaked == 0 && leakedBytes == 0
  {
    var mm := Create(frameCount, swapSize, choice);
    ended, bytes, logged := Execute(mm, trace);
    stats, leaked, leakedBytes := mm.stats, 0, 0;
    Reported(frameCount, swapSize, choice, trace, ended, bytes, logged, stats);
    if ended {
      DestroyMm(mm);
      leaked, leakedBytes := CurrentBalances(mm.tree.heap);
    }
  }

  /** Each of n accesses a hit or a miss, and an eviction for each miss in excess of the frames. */
  predicate AddUp(stats: Paging.Stats, frameCount: nat, n: nat) {
    && stats.refs == n == stats.hits + stats.misses
    && stats.evictClean + stats.evictDirty == if stats.misses > frameCount then stats.misses - frameCount else 0
  }

  /** What the theorems about the model say of a run that has been executed. */
  lemma {:induction false} Reported(frameCount: nat, swapSize: nat, choice: Choice, trace: seq<Access>, ended: bool,
      bytes: seq<Byte>, logged: set<int>, stats: Paging.Stats)
    requires 1 <= frameCount
    requires |bytes| <= |trace| && logged == Refinement.Mismatches(trace[..|bytes|], bytes)
    requires match Specified(frameCount, swapSize, choice, trace)
             case Ended(bytes', final) => ended && bytes == bytes' && stats == final.stats
             case Broken(bytes') => !ended && bytes == bytes'
    ensures if ended then |bytes| == |trace| else |bytes| < |trace|
    ensures forall i :: i in logged <==>
              0 <= i < |bytes| && (trace[i].kind == Load || trace[i].kind == Fetch) && bytes[i] != trace[i].value
    ensures VictimsChosen(frameCount, swapSize, choice, trace, if ended then |trace| else |bytes| + 1)
    ensures ended ==>
              stats == Visits.Counters(Visits.VisitAll(Visits.Empty(frameCount), trace,
                                                       Victims(frameCount, swapSize, choice, trace)))
    ensures (forall a | a in trace :: InTrace(a)) ==>
              |bytes| == SwapSpace.Reached(Visits.Empty(frameCount), SwapSpace.Space({}, {}), swapSize, trace,
                                           Victims(frameCount, swapSize, choice, trace))
    ensures Flat(frameCount, trace) ==>
              && bytes == FlatRun(map[], trace)[..|bytes|]
              && logged == (set i | i in Refinement.Mismatches(trace, FlatRun(map[], trace)) && i < |bytes|)
    ensures Ample(frameCount, swapSize, trace) ==> ended
    ensures ended && |trace| < UINT32 ==> AddUp(stats, frameCount, |trace|)
  {
    var r := Specified(frameCount, swapSize, choice, trace);
    ReportedVictims(frameCount, swapSize, choice, trace, r);
    if forall a | a in trace :: InTrace(a) {
      ReportedLength(frameCount, swapSize, choice, trace, r);
    }
    if Flat(frameCount, trace) {
      ReportedBytes(frameCount, swapSize, choice, trace, r);
    }
    if Ample(frameCount, swapSize, trace) {
      ReportedEnd(frameCount, swapSize, choice, trace, r);
    }
    if |trace| < UINT32 {
      ReportedStats(frameCount, swapSize, choice, trace, r);
    }
  }

  lemma ReportedBytes(frameCount: nat, swapSize: nat, choice: Choice, trace: seq<Access>, r: Refinement.Trace)
    requires 1 <= frameCount && Flat(frameCount, trace)
    requires r == Specified(frameCount, swapSize, choice, trace)
    ensures Refinement.Found(r, FlatRun(map[], trace)) && |r.bytes| <= |trace|
    ensures Refinement.Mismatches(trace[..|r.bytes|], r.bytes)
         == (set i | i in Refinement.Mismatches(trace, FlatRun(map[], trace)) && i < |r.bytes|)
  {
    Refinement.InitInv(frameCount, swapSize);
    var victims := PolicySpec.Played(Refinement.Init(frameCount, swapSize), Start(choice), trace).victims;
    Refinement.PagingRefinesFlatMemory(frameCount, swapSize, trace, victims);
    Refinement.LogIsExact(frameCount, swapSize, trace, victims);
  }

  lemma ReportedLength(frameCount: nat, swapSize: nat, choice: Choice, trace: seq<Access>, r: Refinement.Trace)
    requires 1 <= frameCount && r == Specified(frameCount, swapSize, choice, trace)
    requires forall a | a in trace :: InTrace(a)
    ensures |r.bytes| == SwapSpace.Reached(Visits.Empty(frameCount), SwapSpace.Space({}, {}), swapSize, trace,
                                           Victims(frameCount, swapSize, choice, trace))
  {
    SwapSpace.LengthFromTrace(frameCount, swapSize, trace, Victims(frameCount, swapSize, choice, trace));
  }

  lemma ReportedEnd(frameCount: nat, swapSize: nat, choice: Choice, trace: seq<Access>, r: Refinement.Trace)
    requires 1 <= frameCount && Ample(frameCount, swapSize, trace)
    requires r == Specified(frameCount, swapSize, choice, trace)
    ensures r.Ended?
  {
    Refinement.InitInv(frameCount, swapSize);
    var s := Refinement.Init(frameCount, swapSize);
    Refinement.RunEnds(s, trace, PolicySpec.Played(s, Start(choice), trace).victims, Refinement.Pages(trace));
  }

  lemma ReportedStats(frameCount: nat, swapSize: nat, choice: Choice, trace: seq<Access>, r: Refinement.Trace)
    requires 1 <= frameCount && |trace| < UINT32
    requires r == Specified(frameCount, swapSize, choice, trace)
    ensures r.Ended? ==> AddUp(r.final.stats, frameCount, |trace|)
  {
    Refinement.InitInv(frameCount, swapSize);
    var victims := PolicySpec.Played(Refinement.Init(frameCount, swapSize), Start(choice), trace).victims;
    PagingCounters.ReportedStatistics(frameCount, swapSize, trace, victims);
  }

  lemma {:induction false} ReportedVictims(frameCount: nat, swapSize: nat, choice: Choice, trace: seq<Access>,
      r: Refinement.Trace)
    requires 1 <= frameCount && r == Specified(frameCount, swapSize, choice, trace)
    ensures match r
            case Ended(bytes, final) =>
              && |bytes| == |trace| && VictimsChosen(frameCount, swapSize, choice, trace, |trace|)
              && final.stats == Visits.Counters(Visits.VisitAll(Visits.Empty(frameCount), trace,
                                                                Victims(frameCount, swapSize, choice, trace)))
            case Broken(bytes) =>
              |bytes| < |trace| && VictimsChosen(frameCount, swapSize, choice, trace, |bytes| + 1)
  {
    Refinement.InitInv(frameCount, swapSize);
    Refinement.RunLength(Refinement.Init(frameCount, swapSize), trace, Victims(frameCount, swapSize, choice, trace));
    Visits.StatisticsFromTrace(frameCount, swapSize, trace, Victims(frameCount, swapSize, choice, trace));
    Replacement.VictimsFromTrace(frameCount, swapSize, Start(choice), trace);
  }

  /** CSC369_MallocCurrentCount and CSC369_MallocCurrentBytes. */
  method CurrentBalances(heap: Tracker) returns (count: int, bytes: int)
    requires heap.Valid()
    ensures count == |heap.live| && bytes == heap.books.bytesMalloced - heap.books.bytesFreed
    ensures heap.live == map[] ==> count == 0 && bytes == 0
  {
    count, bytes := heap.books.mallocs - heap.books.frees, heap.books.bytesMalloced - heap.books.bytesFreed;
    BreakBalance(SEAL, heap.books, heap.live);
    if heap.live == map[] {
      assert OutstandingPointers(heap.books.sizes) == {};
    }
  }
}
