/** Where the simulator's own limits lie, and what happens one step beyond them. */
module PagingLimits {
  import opened Options
  import opened Machine
  import opened Paging
  import opened PagingInvariant
  import opened PagingRefinement

  /** csc369_swap.c computes a frame's address in unsigned int: right exactly below 2^28 frames. */
  lemma SwapAddressExact(f: nat)
    ensures SwapAddress(f) == f * FRAME_SIZE <==> f < MAX_FRAMES
  {}

  /** With one frame more than that, paging out the last frame writes the bytes of the first. */
  lemma SwapAddressAlias()
    ensures SwapAddress(MAX_FRAMES) == SwapAddress(0)
  {}

  /** A page is put out successfully exactly when it has a slot already or one is clear. */
  lemma PageOutSucceeds(s: State, p: nat)
    requires Mapped(s) && p in s.pt && s.pt[p].valid
    ensures HandleEviction(s, p).pt[p].swapOffset != INVALID_SWAP
       <==> s.pt[p].swapOffset != INVALID_SWAP || exists i :: 0 <= i < |s.swap.used| && !s.swap.used[i]
  {
    AddressFits(s.pt[p].frame, |s.frames|);
    var r := LowestClear(s.swap.used);
    assert r.Some? ==> !s.swap.used[r.value];
  }

  /** A load of page p. */
  function LoadOf(p: nat): (a: Access)
    ensures !IsWrite(a) && PageOf(a) == p && OffsetOf(a) == 0 && a.address == p * PAGE_SIZE
  {
    Access(Load, p * PAGE_SIZE, 0)
  }

  function Zeros(n: nat): (victims: seq<nat>)
    ensures |victims| == n && AllBelow(victims, 1)
  {
    seq(n, _ => 0)
  }

  // ----- more pages than slots -----

  /**
   * A page the swap file had no room for stays lost, and a run that comes to it again stops there
   * at the latest: only a run that does not need the page gets to its end.
   */
  lemma {:induction false} LostPage(s: State, trace: seq<Access>, victims: seq<nat>, p: nat)
    requires Mapped(s) && Lost(s, p)
    requires |victims| == |trace| && AllBelow(victims, |s.frames|)
    requires forall a | a in trace :: OffsetOf(a) < FRAME_SIZE
    ensures var r := Run(s, trace, victims);
            && (if r.Ended? then |r.bytes| == |trace| && Lost(r.final, p) else |r.bytes| < |trace|)
            && forall i | 0 <= i < |r.bytes| :: PageOf(trace[i]) != p
    decreases |trace|
  {
    if trace != [] {
      StillLost(s, trace[0], victims[0], p);
      var r := Execute(s, trace[0], victims[0]);
      if r.Done? {
        LostPage(r.next, trace[1..], victims[1..], p);
        TailAvoids(trace, |Run(r.next, trace[1..], victims[1..]).bytes|, p);
      }
    }
  }

  /** An access to a lost page stops; one to another page leaves it lost. */
  lemma StillLost(s: State, a: Access, victim: nat, p: nat)
    requires Mapped(s) && Lost(s, p) && victim < |s.frames| && OffsetOf(a) < FRAME_SIZE
    ensures match Execute(s, a, victim)
            case Stopped => true
            case Done(t, _) => PageOf(a) != p && Mapped(t) && |t.frames| == |s.frames| && Lost(t, p)
  {
    ExecuteLost(s, a, victim);
  }

  lemma TailAvoids(trace: seq<Access>, n: nat, p: nat)
    requires n < |trace| && PageOf(trace[0]) != p && forall i | 0 <= i < n :: PageOf(trace[1..][i]) != p
    ensures forall i | 0 <= i < n + 1 :: PageOf(trace[i]) != p
  {
    assert forall i | 1 <= i < n + 1 :: trace[i] == trace[1..][i - 1];
  }

  const STORE_0 := Access(Store, 0, 5)
  const STORE_1 := Access(Store, 4096, 7)
  const LOAD_0 := Access(Load, 0, 5)
  const LOAD_1 := Access(Load, 4096, 7)

  /** One frame, one slot: only page 0 has been touched. */
  ghost predicate OneTouched(s: State) {
    && Mapped(s) && |s.frames| == 1 && s.swap.used == [false]
    && s.frames[0] == Frame(false, Some(0)) && s.pt == map[0 := Pte(0, INVALID_SWAP, true, true, false)]
  }

  /** Page 0 has gone to the slot for page 1. */
  ghost predicate OneSaved(s: State) {
    && Mapped(s) && |s.frames| == 1 && s.swap.used == [true]
    && s.frames[0] == Frame(false, Some(1)) && 0 in s.pt && 1 in s.pt
    && s.pt[0] == Pte(0, 0, false, false, true) && s.pt[1] == Pte(0, INVALID_SWAP, true, true, false)
  }

  /** Page 0 is back, and page 1 found no slot. */
  ghost predicate OneLost(s: State) {
    Mapped(s) && |s.frames| == 1 && Lost(s, 1)
  }

  lemma FirstTurn()
    ensures Mapped(Init(1, 1)) && Execute(Init(1, 1), STORE_0, 0).Done?
    ensures OneTouched(Execute(Init(1, 1), STORE_0, 0).next)
  {
    InitInv(1, 1);
  }

  lemma SecondTurn(s: State)
    requires OneTouched(s)
    ensures Execute(s, STORE_1, 0).Done? && OneSaved(Execute(s, STORE_1, 0).next)
  {
    ExecuteMapped(s, STORE_1, 0);
  }

  lemma ThirdTurn(s: State)
    requires OneSaved(s)
    ensures Execute(s, LOAD_0, 0).Done? && OneLost(Execute(s, LOAD_0, 0).next)
  {
    ExecuteMapped(s, LOAD_0, 0);
  }

  lemma FourthTurn(s: State)
    requires OneLost(s)
    ensures Execute(s, LOAD_1, 0).Stopped?
  {}

  lemma LastTurns(s: State)
    requires OneSaved(s)
    ensures AllBelow([0, 0], 1)
    ensures Run(s, [LOAD_0, LOAD_1], [0, 0]).Broken? && |Run(s, [LOAD_0, LOAD_1], [0, 0]).bytes| == 1
  {
    ThirdTurn(s);
    FourthTurn(Execute(s, LOAD_0, 0).next);
    assert [LOAD_0, LOAD_1][1..] == [LOAD_1] && [0, 0][1..] == [0];
    assert Run(Execute(s, LOAD_0, 0).next, [LOAD_1], [0]) == Broken([]);
  }

  lemma LaterTurns(s: State)
    requires OneTouched(s)
    ensures AllBelow([0, 0, 0], 1)
    ensures var r := Run(s, [STORE_1, LOAD_0, LOAD_1], [0, 0, 0]);
            r.Broken? && |r.bytes| == 2
  {
    SecondTurn(s);
    LastTurns(Execute(s, STORE_1, 0).next);
    assert [STORE_1, LOAD_0, LOAD_1][1..] == [LOAD_0, LOAD_1] && [0, 0, 0][1..] == [0, 0];
  }

  lemma AllTurns()
    ensures Mapped(Init(1, 1)) && AllBelow([0, 0, 0, 0], 1)
    ensures var r := Run(Init(1, 1), [STORE_0, STORE_1, LOAD_0, LOAD_1], [0, 0, 0, 0]);
            r.Broken? && |r.bytes| == 3
  {
    FirstTurn();
    LaterTurns(Execute(Init(1, 1), STORE_0, 0).next);
    assert [STORE_0, STORE_1, LOAD_0, LOAD_1][1..] == [STORE_1, LOAD_0, LOAD_1] && [0, 0, 0, 0][1..] == [0, 0, 0];
  }

  lemma FlatTurns()
    ensures FlatRun(map[], [STORE_0, STORE_1, LOAD_0, LOAD_1]) == [5, 7, 5, 7]
  {
    var flat := map[0 := 5, 4096 := 7];
    assert [LOAD_0, LOAD_1][1..] == [LOAD_1];
    assert FlatRun(flat, [LOAD_1]) == [7];
    assert FlatRun(flat, [LOAD_0, LOAD_1]) == [5, 7];
    assert [STORE_1, LOAD_0, LOAD_1][1..] == [LOAD_0, LOAD_1];
    assert FlatRun(map[0 := 5], [STORE_1, LOAD_0, LOAD_1]) == [7, 5, 7];
    assert [STORE_0, STORE_1, LOAD_0, LOAD_1][1..] == [STORE_1, LOAD_0, LOAD_1];
  }

  /** Two pages take turns: page 1 is lost, and its next load stops the run. */
  lemma RunOutOfSwap()
    ensures Mapped(Init(1, 1)) && AllBelow([0, 0, 0, 0], 1)
    ensures FlatRun(map[], [STORE_0, STORE_1, LOAD_0, LOAD_1]) == [5, 7, 5, 7]
    ensures Run(Init(1, 1), [STORE_0, STORE_1, LOAD_0, LOAD_1], [0, 0, 0, 0]) == Broken([5, 7, 5])
  {
    AllTurns();
    FlatTurns();
    var trace := [STORE_0, STORE_1, LOAD_0, LOAD_1];
    PagingRefinesFlatMemory(1, 1, trace, [0, 0, 0, 0]);
    assert Run(Init(1, 1), trace, [0, 0, 0, 0]).bytes == [5, 7, 5, 7][..3];
  }

  // ----- offsets beyond the frame -----

  /** The pager gets through the trace and finds what flat memory holds. */
  ghost predicate LooksFlat(frameCount: nat, slots: nat, trace: seq<Access>, victims: seq<nat>) {
    && Mapped(Init(frameCount, slots)) && |victims| == |trace| && AllBelow(victims, frameCount)
    && Run(Init(frameCount, slots), trace, victims).Ended?
    && Run(Init(frameCount, slots), trace, victims).bytes == FlatRun(map[], trace)
  }

  /** On one frame an access beyond the frame is one beyond physical memory. */
  lemma {:induction false} OneFrameStops(s: State, trace: seq<Access>, victims: seq<nat>, a: Access)
    requires Mapped(s) && |s.frames| == 1
    requires |victims| == |trace| && AllBelow(victims, 1)
    requires a in trace && OffsetOf(a) >= FRAME_SIZE
    ensures Run(s, trace, victims).Broken?
    decreases |trace|
  {
    TranslationMapped(s, trace[0], victims[0]);
    ExecuteMapped(s, trace[0], victims[0]);
    if trace[0] != a && Execute(s, trace[0], victims[0]).Done? {
      OneFrameStops(Execute(s, trace[0], victims[0]).next, trace[1..], victims[1..], a);
    }
  }

  /** The machine is as large as the promise needs: frames that can be addressed, and a place for each page. */
  ghost predicate LargeEnough(frameCount: nat, slots: nat, trace: seq<Access>) {
    && 1 <= frameCount && (frameCount <= MAX_FRAMES || |Pages(trace)| <= frameCount)
    && (|Pages(trace)| <= slots || |Pages(trace)| <= frameCount)
  }

  /**
   * The promise holds for a trace, on every machine large enough and under every policy, exactly
   * when all its accesses stay within a frame.
   */
  lemma ExactlyWithinFrames(trace: seq<Access>)
    requires forall a | a in trace :: a.address < ADDRESS_LIMIT
    ensures (forall frameCount: nat, slots: nat, victims: seq<nat>
               | LargeEnough(frameCount, slots, trace) && |victims| == |trace| && AllBelow(victims, frameCount)
               :: LooksFlat(frameCount, slots, trace, victims))
       <==> forall a | a in trace :: OffsetOf(a) < FRAME_SIZE
  {
    if a :| a in trace && OffsetOf(a) >= FRAME_SIZE {
      var victims := seq(|trace|, _ => 0);
      InitInv(1, |Pages(trace)|);
      OneFrameStops(Init(1, |Pages(trace)|), trace, victims, a);
      assert !LooksFlat(1, |Pages(trace)|, trace, victims);
    } else {
      forall frameCount: nat, slots: nat, victims: seq<nat>
        | LargeEnough(frameCount, slots, trace) && |victims| == |trace| && AllBelow(victims, frameCount)
        ensures LooksFlat(frameCount, slots, trace, victims)
      {
        PagingRefinesFlatMemory(frameCount, slots, trace, victims);
      }
    }
  }

  /** One access completes, finds or leaves its page's byte and changes no other. */
  ghost predicate Transparent(s: State, a: Access, victim: nat)
    requires Mapped(s) && victim < |s.frames|
  {
    var r := Execute(s, a, victim);
    r.Done? && Inv(r.next) && ViewAfter(s, r.next, a) && r.byte == View(r.next, PageOf(a), OffsetOf(a))
  }

  /** An access to a page not lost is right in every state of the invariant exactly when it stays within its frame. */
  lemma OwnFrame(a: Access)
    requires a.address < ADDRESS_LIMIT
    ensures (forall s: State, victim: nat
               | Inv(s) && Addressable(s) && victim < |s.frames| && !Lost(s, PageOf(a))
               :: Transparent(s, a, victim))
       <==> OffsetOf(a) < FRAME_SIZE
  {
    if OffsetOf(a) < FRAME_SIZE {
      forall s: State, victim: nat | Inv(s) && Addressable(s) && victim < |s.frames| && !Lost(s, PageOf(a))
        ensures Transparent(s, a, victim)
      {
        ExecuteSound(s, a, victim);
      }
    } else {
      var s := Init(1, 0);
      InitInv(1, 0);
      TranslationMapped(s, a, 0);
      assert !Transparent(s, a, 0);
    }
  }

  /** The offset the trace filter lets through although it is one too large. */
  predicate PassesFilter(a: Access) {
    !(OffsetOf(a) > FRAME_SIZE)
  }

  /**
   * A store at offset 16 passes the filter and lands in the page of the next frame, or, from the
   * last frame, outside physical memory.
   */
  lemma OffsetSixteenSpills(s: State, a: Access, victim: nat)
    requires Mapped(s) && victim < |s.frames| && !Lost(s, PageOf(a))
    requires IsWrite(a) && OffsetOf(a) == FRAME_SIZE
    ensures PassesFilter(a) && !InTrace(a)
    ensures GetFrameNumber(s, a, victim).Ran?
    ensures var t, f := GetFrameNumber(s, a, victim).state, GetFrameNumber(s, a, victim).frame;
            if f + 1 < |s.frames|
            then Execute(s, a, victim).Done? && FrameByte(Execute(s, a, victim).next.memory, f + 1, 0) == a.value
            else Execute(s, a, victim).Stopped?
  {
    TranslationLost(s, a, victim);
    TranslationMapped(s, a, victim);
  }

  const TOUCH_0 := Access(Load, 0, 0)
  const TOUCH_1 := Access(Load, 4096, 0)
  const SPILL_0 := Access(Store, 16, 9)

  /** Two frames, the first with page 0 touched. */
  ghost predicate FirstTouched(s: State) {
    && Mapped(s) && |s.frames| == 2
    && s.frames[0] == Frame(false, Some(0)) && s.frames[1] == Frame(true, None)
    && s.pt == map[0 := Pte(0, INVALID_SWAP, true, true, false)]
  }

  /** Page 1 likewise in the second. */
  ghost predicate BothTouched(s: State) {
    && Mapped(s) && |s.frames| == 2
    && s.frames[0] == Frame(false, Some(0)) && s.frames[1] == Frame(false, Some(1)) && 0 in s.pt && 1 in s.pt
    && s.pt[0] == Pte(0, INVALID_SWAP, true, true, false) && s.pt[1] == Pte(1, INVALID_SWAP, true, true, false)
  }

  lemma TouchFirst()
    ensures Mapped(Init(2, 2))
    ensures var r := Execute(Init(2, 2), TOUCH_0, 0);
            r.Done? && r.byte == 0 && FirstTouched(r.next)
  {
    InitInv(2, 2);
  }

  lemma TouchSecond(s: State)
    requires FirstTouched(s)
    ensures var r := Execute(s, TOUCH_1, 0);
            r.Done? && BothTouched(r.next)
  {
    ExecuteMapped(s, TOUCH_1, 0);
  }

  /** The store to page 0 is found in page 1. */
  lemma StoreSpills(s: State)
    requires BothTouched(s)
    ensures var r := Execute(s, SPILL_0, 0);
            && r.Done? && r.byte == 9 && Mapped(r.next) && |r.next.frames| == 2
            && 1 in r.next.pt && r.next.pt[1].valid && View(r.next, 1, 0) == 9
  {
    ExecuteMapped(s, SPILL_0, 0);
  }

  lemma ReadSpilled(s: State)
    requires Mapped(s) && |s.frames| == 2 && 1 in s.pt && s.pt[1].valid && View(s, 1, 0) == 9
    ensures var r := Execute(s, TOUCH_1, 0);
            r.Done? && r.byte == 9
  {}

  /** One access before others. */
  lemma RunFrom(s: State, trace: seq<Access>, victims: seq<nat>, a: Access, victim: nat)
    requires Mapped(s) && |victims| == |trace| && AllBelow(victims, |s.frames|) && victim < |s.frames|
    requires Execute(s, a, victim).Done?
    ensures var r := Execute(s, a, victim);
            && AllBelow([victim] + victims, |s.frames|) && Mapped(r.next) && |r.next.frames| == |s.frames|
            && Run(s, [a] + trace, [victim] + victims) == Prepend(r.byte, Run(r.next, trace, victims))
  {
    ExecuteMapped(s, a, victim);
    assert ([a] + trace)[1..] == trace && ([victim] + victims)[1..] == victims;
  }

  lemma SpillThenRead(s: State)
    requires BothTouched(s)
    ensures AllBelow([0, 0], 2)
    ensures var r := Run(s, [SPILL_0, TOUCH_1], [0, 0]);
            r.Ended? && |r.bytes| == 2 && r.bytes[1] == 9
  {
    StoreSpills(s);
    var t := Execute(s, SPILL_0, 0).next;
    ReadSpilled(t);
    RunFrom(t, [], [], TOUCH_1, 0);
    RunFrom(s, [TOUCH_1], [0], SPILL_0, 0);
  }

  lemma TouchThenSpill(s: State)
    requires FirstTouched(s)
    ensures AllBelow([0, 0, 0], 2)
    ensures var r := Run(s, [TOUCH_1, SPILL_0, TOUCH_1], [0, 0, 0]);
            r.Ended? && |r.bytes| == 3 && r.bytes[2] == 9
  {
    TouchSecond(s);
    SpillThenRead(Execute(s, TOUCH_1, 0).next);
    RunFrom(s, [SPILL_0, TOUCH_1], [0, 0], TOUCH_1, 0);
  }

  lemma FlatSpill()
    ensures forall a | a in [TOUCH_0, TOUCH_1, SPILL_0, TOUCH_1] :: a.address < ADDRESS_LIMIT && PassesFilter(a)
    ensures FlatRun(map[], [TOUCH_0, TOUCH_1, SPILL_0, TOUCH_1])[3] == 0
  {
    assert [SPILL_0, TOUCH_1][1..] == [TOUCH_1];
    assert [TOUCH_1, SPILL_0, TOUCH_1][1..] == [SPILL_0, TOUCH_1];
    assert [TOUCH_0, TOUCH_1, SPILL_0, TOUCH_1][1..] == [TOUCH_1, SPILL_0, TOUCH_1];
    assert FlatRun(map[], [SPILL_0, TOUCH_1])[1] == 0;
    assert FlatRun(map[], [TOUCH_1, SPILL_0, TOUCH_1])[2] == 0;
  }

  lemma SpillingRun(s: State, t: State)
    requires Mapped(s) && |s.frames| == 2 && Execute(s, TOUCH_0, 0) == Done(t, 0) && FirstTouched(t)
    ensures AllBelow([0, 0, 0, 0], 2)
    ensures var r := Run(s, [TOUCH_0, TOUCH_1, SPILL_0, TOUCH_1], [0, 0, 0, 0]);
            r.Ended? && |r.bytes| == 4 && r.bytes[3] == 9
  {
    TouchThenSpill(t);
    assert [TOUCH_0, TOUCH_1, SPILL_0, TOUCH_1][1..] == [TOUCH_1, SPILL_0, TOUCH_1] && [0, 0, 0, 0][1..] == [0, 0, 0];
    assert Run(s, [TOUCH_0, TOUCH_1, SPILL_0, TOUCH_1], [0, 0, 0, 0])
        == Prepend(0, Run(t, [TOUCH_1, SPILL_0, TOUCH_1], [0, 0, 0]));
  }

  /** Two pages, two frames, two slots: the store of 9 to the one is read from the other. */
  lemma OffsetSixteenBreaksRefinement()
    ensures forall a | a in [TOUCH_0, TOUCH_1, SPILL_0, TOUCH_1] :: a.address < ADDRESS_LIMIT && PassesFilter(a)
    ensures FlatRun(map[], [TOUCH_0, TOUCH_1, SPILL_0, TOUCH_1])[3] == 0
    ensures Mapped(Init(2, 2)) && AllBelow([0, 0, 0, 0], 2)
    ensures var r := Run(Init(2, 2), [TOUCH_0, TOUCH_1, SPILL_0, TOUCH_1], [0, 0, 0, 0]);
            r.Ended? && |r.bytes| == 4 && r.bytes[3] == 9
  {
    var s := Init(2, 2);
    TouchFirst();
    SpillingRun(s, Execute(s, TOUCH_0, 0).next);
    FlatSpill();
  }
}
