/** For how many frames the simulator keeps its promise. */
module FrameLimit {
  import opened Options
  import opened Machine
  import opened Paging
  import opened PagingRefinement
  import opened PagingLimits
  import opened Powers

  const PAGE_LIMIT: nat := ADDRESS_LIMIT / PAGE_SIZE

  /** The first frame the swap functions mistake for another, and the page that gets it. */
  const FAR: nat := MAX_FRAMES

  /** Loads of pages 0 to n - 1. */
  function FirstLoads(n: nat): (trace: seq<Access>)
    ensures |trace| == n
  {
    if n == 0 then [] else FirstLoads(n - 1) + [LoadOf(n - 1)]
  }

  // ----- filling memory -----

  /** Pages 0 to k - 1 are in the frames of their numbers, all zero, and nothing has been swapped. */
  ghost predicate Filled(s: State, n: nat, slots: nat, k: nat) {
    && Mapped(s) && |s.frames| == n && k <= n
    && (forall i | 0 <= i < k :: s.frames[i] == Frame(false, Some(i)))
    && (forall i | k <= i < n :: s.frames[i].free)
    && (forall i | 0 <= i < k :: i in s.pt && s.pt[i] == Pte(i, INVALID_SWAP, true, true, false))
    && (forall i | i in s.pt :: i < k)
    && (forall i | 0 <= i < |s.memory| :: s.memory[i] == 0)
    && |s.swap.used| == slots && (forall i | 0 <= i < slots :: !s.swap.used[i]) && s.swap.file == []
  }

  lemma FirstFreeIs(frames: seq<Frame>, k: nat)
    requires k < |frames| && frames[k].free && forall i | 0 <= i < k :: !frames[i].free
    ensures FreeFrame(frames) == Some(k)
  {}

  /** The state with page k loaded into frame k. */
  function Loaded(s: State, k: nat): State
    requires k < |s.frames| && (k + 1) * FRAME_SIZE <= |s.memory|
  {
    s.(pt := s.pt[k := Pte(k, INVALID_SWAP, true, true, false)], frames := s.frames[k := Frame(false, Some(k))],
       memory := ClearFrame(s.memory, k),
       stats := s.stats.(misses := Inc(s.stats.misses), refs := Inc(s.stats.refs)))
  }

  lemma LoadedIs(s: State, k: nat)
    requires Mapped(s) && k !in s.pt && FreeFrame(s.frames) == Some(k)
    ensures k < |s.frames| && (k + 1) * FRAME_SIZE <= |s.memory|
    ensures var r := Execute(s, LoadOf(k), 0);
            r.Done? && r.next == Loaded(s, k)
  {}

  lemma FillStep(s: State, n: nat, slots: nat, k: nat)
    requires Filled(s, n, slots, k) && k < n
    ensures var r := Execute(s, LoadOf(k), 0);
            r.Done? && Filled(r.next, n, slots, k + 1)
  {
    FirstFreeIs(s.frames, k);
    LoadedIs(s, k);
    ExecuteMapped(s, LoadOf(k), 0);
  }

  /** The first k loads fill the first k frames. */
  ghost predicate FillsFirst(s: State, n: nat, slots: nat, k: nat) {
    && Mapped(s) && AllBelow(Zeros(k), |s.frames|)
    && Run(s, FirstLoads(k), Zeros(k)).Ended?
    && |Run(s, FirstLoads(k), Zeros(k)).bytes| == k
    && Filled(Run(s, FirstLoads(k), Zeros(k)).final, n, slots, k)
  }

  lemma {:induction false} FillRun(s: State, n: nat, slots: nat, k: nat)
    requires Filled(s, n, slots, 0) && k <= n
    ensures FillsFirst(s, n, slots, k)
  {
    if k > 0 {
      FillRun(s, n, slots, k - 1);
      var t := Run(s, FirstLoads(k - 1), Zeros(k - 1)).final;
      FillStep(t, n, slots, k - 1);
      FillExtended(s, k, t);
    }
  }

  lemma NothingFilled(n: nat, slots: nat)
    requires 1 <= n
    ensures Filled(Init(n, slots), n, slots, 0)
  {
    InitInv(n, slots);
  }

  lemma FillExtended(s: State, k: nat, t: State)
    requires Mapped(s) && k > 0 && Run(s, FirstLoads(k - 1), Zeros(k - 1)).Ended?
    requires t == Run(s, FirstLoads(k - 1), Zeros(k - 1)).final && Mapped(t) && Execute(t, LoadOf(k - 1), 0).Done?
    ensures Run(s, FirstLoads(k), Zeros(k))
         == Extend(Run(s, FirstLoads(k - 1), Zeros(k - 1)).bytes, Execute(t, LoadOf(k - 1), 0))
  {
    assert Zeros(k) == Zeros(k - 1) + [0];
    RunExtended(s, FirstLoads(k - 1), Zeros(k - 1), LoadOf(k - 1), 0);
  }

  // ----- a frame mistaken for another -----

  const MARK := Access(Store, FAR * PAGE_SIZE, 9)

  /** All frames are in use; page FAR is in its frame and has been stored to. */
  ghost predicate Marked(s: State, n: nat) {
    && Mapped(s) && |s.frames| == n && FAR < n && (forall i | 0 <= i < n :: !s.frames[i].free)
    && s.frames[FAR] == Frame(false, Some(FAR)) && n !in s.pt
    && FAR in s.pt && s.pt[FAR] == Pte(FAR, INVALID_SWAP, true, true, false)
    && (forall i | 0 <= i < FRAME_SIZE :: s.memory[i] == 0)
    && |s.swap.used| >= 2 && !s.swap.used[0] && !s.swap.used[1] && s.swap.file == []
  }

  /** Page FAR has been put out, but what is in its slot are the bytes of frame 0. */
  ghost predicate Mistaken(s: State, n: nat) {
    && Mapped(s) && |s.frames| == n && FAR < n && (forall i | 0 <= i < n :: !s.frames[i].free)
    && s.frames[FAR] == Frame(false, Some(n)) && n in s.pt && s.pt[n] == Pte(FAR, INVALID_SWAP, true, true, false)
    && FAR in s.pt && s.pt[FAR] == Pte(FAR, 0, false, false, true)
    && s.memory[FAR * FRAME_SIZE] == 0
    && |s.swap.used| >= 2 && s.swap.used[0] && !s.swap.used[1]
    && |s.swap.file| == FRAME_SIZE && (forall i | 0 <= i < FRAME_SIZE :: s.swap.file[i] == 0)
  }

  lemma NoneFree(frames: seq<Frame>)
    requires forall i | 0 <= i < |frames| :: !frames[i].free
    ensures FreeFrame(frames) == None
  {}

  lemma MarkStep(s: State, n: nat, slots: nat)
    requires Filled(s, n, slots, n) && FAR < n && slots >= 2
    ensures var r := Execute(s, MARK, 0);
            r.Done? && Marked(r.next, n)
  {
    ExecuteMapped(s, MARK, 0);
  }

  lemma MistakeStep(s: State, n: nat)
    requires Marked(s, n)
    ensures var r := Execute(s, LoadOf(n), FAR);
            r.Done? && Mistaken(r.next, n)
  {
    NoneFree(s.frames);
    SwapAddressAlias();
    ExecuteMapped(s, LoadOf(n), FAR);
  }

  lemma ReadStep(s: State, n: nat)
    requires Mistaken(s, n)
    ensures var r := Execute(s, LoadOf(FAR), FAR);
            r.Done? && r.byte == 0
  {
    NoneFree(s.frames);
    SwapAddressAlias();
  }

  lemma LastAccess(s: State, n: nat)
    requires Mistaken(s, n)
    ensures AllBelow([FAR], n)
    ensures var r := Run(s, [LoadOf(FAR)], [FAR]);
            r.Ended? && |r.bytes| == 1 && r.bytes[0] == 0
  {
    ReadStep(s, n);
    RunFrom(s, [], [], LoadOf(FAR), FAR);
  }

  lemma LastTwoAccesses(s: State, n: nat)
    requires Marked(s, n)
    ensures AllBelow([FAR, FAR], n)
    ensures var r := Run(s, [LoadOf(n), LoadOf(FAR)], [FAR, FAR]);
            r.Ended? && |r.bytes| == 2 && r.bytes[1] == 0
  {
    MistakeStep(s, n);
    LastAccess(Execute(s, LoadOf(n), FAR).next, n);
    RunFrom(s, [LoadOf(FAR)], [FAR], LoadOf(n), FAR);
  }

  lemma LastAccesses(s: State, n: nat, slots: nat)
    requires Filled(s, n, slots, n) && FAR < n && slots >= 2
    ensures AllBelow([0] + [FAR, FAR], n)
    ensures var r := Run(s, [MARK] + [LoadOf(n), LoadOf(FAR)], [0] + [FAR, FAR]);
            r.Ended? && |r.bytes| == 3 && r.bytes[2] == 0
  {
    MarkStep(s, n, slots);
    ThenLastTwo(s, n, MARK);
  }

  lemma ThenLastTwo(s: State, n: nat, a: Access)
    requires Mapped(s) && |s.frames| == n > FAR && Execute(s, a, 0).Done? && Marked(Execute(s, a, 0).next, n)
    ensures AllBelow([0] + [FAR, FAR], n)
    ensures var r := Run(s, [a] + [LoadOf(n), LoadOf(FAR)], [0] + [FAR, FAR]);
            r.Ended? && |r.bytes| == 3 && r.bytes[2] == 0
  {
    LastTwoAccesses(Execute(s, a, 0).next, n);
    RunFrom(s, [LoadOf(n), LoadOf(FAR)], [FAR, FAR], a, 0);
  }

  /** Pages 0 to n - 1 are loaded, FAR is stored to, and loaded again after page n has taken its frame. */
  function FarTrace(n: nat): seq<Access> {
    FirstLoads(n) + ([MARK] + [LoadOf(n), LoadOf(FAR)])
  }

  function FarVictims(n: nat): (victims: seq<nat>)
    ensures |victims| == |FarTrace(n)|
  {
    Zeros(n) + ([0] + [FAR, FAR])
  }

  /** The last load finds a zero. */
  lemma FarRun(n: nat, slots: nat)
    requires FAR < n && slots >= 2
    ensures Mapped(Init(n, slots)) && AllBelow(FarVictims(n), n)
    ensures var r := Run(Init(n, slots), FarTrace(n), FarVictims(n));
            r.Ended? && |r.bytes| == n + 3 && r.bytes[n + 2] == 0
  {
    var s := Init(n, slots);
    NothingFilled(n, slots);
    FillRun(s, n, slots, n);
    var r := Run(s, FirstLoads(n), Zeros(n));
    LastAccesses(r.final, n, slots);
    RunConcat(s, FirstLoads(n), Zeros(n), [MARK] + [LoadOf(n), LoadOf(FAR)], [0] + [FAR, FAR]);
  }

  // ----- what flat memory holds -----

  function FlatAfter(flat: map<nat, Byte>, trace: seq<Access>): map<nat, Byte>
    decreases |trace|
  {
    if trace == [] then flat else FlatAfter(FlatStep(flat, trace[0]), trace[1..])
  }

  lemma {:induction false} FlatConcat(flat: map<nat, Byte>, trace: seq<Access>, more: seq<Access>)
    ensures FlatRun(flat, trace + more) == FlatRun(flat, trace) + FlatRun(FlatAfter(flat, trace), more)
    decreases |trace|
  {
    TailConcat(trace, more);
    if trace != [] {
      FlatConcat(FlatStep(flat, trace[0]), trace[1..], more);
    }
  }

  /** It holds the 9 stored. */
  lemma FlatLast(flat: map<nat, Byte>, n: nat)
    requires n != FAR
    ensures FlatRun(flat, [MARK] + [LoadOf(n), LoadOf(FAR)])[2] == 9
  {
    var flat' := flat[FAR * PAGE_SIZE := 9];
    assert [LoadOf(n), LoadOf(FAR)][1..] == [LoadOf(FAR)];
    assert FlatRun(flat', [LoadOf(FAR)])[0] == 9;
    assert FlatRun(flat', [LoadOf(n), LoadOf(FAR)])[1] == 9;
    assert ([MARK] + [LoadOf(n), LoadOf(FAR)])[1..] == [LoadOf(n), LoadOf(FAR)];
  }

  lemma FarIsNotFlat(n: nat, slots: nat)
    requires FAR < n && slots >= 2
    ensures !LooksFlat(n, slots, FarTrace(n), FarVictims(n))
  {
    FarRun(n, slots);
    FlatConcat(map[], FirstLoads(n), [MARK] + [LoadOf(n), LoadOf(FAR)]);
    FlatLast(FlatAfter(map[], FirstLoads(n)), n);
  }

  // ----- the limit -----

  lemma {:induction false} FirstLoadsBelow(n: nat, a: Access)
    requires a in FirstLoads(n)
    ensures exists p: nat :: p < n && a == LoadOf(p)
  {
    if a != LoadOf(n - 1) {
      FirstLoadsBelow(n - 1, a);
    }
  }

  lemma FarTraceBelow(n: nat)
    requires FAR < n < PAGE_LIMIT
    ensures forall a | a in FarTrace(n) :: InTrace(a) && PageOf(a) < n + 1
  {
    forall a | a in FarTrace(n)
      ensures InTrace(a) && PageOf(a) < n + 1
    {
      if a in FirstLoads(n) {
        FirstLoadsBelow(n, a);
      }
    }
  }

  lemma PagesBelow(trace: seq<Access>, n: nat)
    requires forall a | a in trace :: PageOf(a) < n
    ensures |Pages(trace)| <= n
  {
    SubsetSize(Pages(trace), Below(n));
  }

  /**
   * Every run within the frames, with a slot for each page and under every policy, finds what flat
   * memory holds, exactly when the frames are no more than the swap functions can tell apart, or so
   * many that all pages of 48-bit addresses fit and nothing is swapped.
   */
  lemma ExactlyAddressable(frameCount: nat)
    requires 1 <= frameCount
    ensures (forall slots: nat, trace: seq<Access>, victims: seq<nat>
               | (forall a | a in trace :: InTrace(a)) && |Pages(trace)| <= slots && |victims| == |trace|
                 && AllBelow(victims, frameCount)
               :: LooksFlat(frameCount, slots, trace, victims))
       <==> frameCount <= MAX_FRAMES || frameCount >= PAGE_LIMIT
  {
    if frameCount <= MAX_FRAMES || frameCount >= PAGE_LIMIT {
      forall slots: nat, trace: seq<Access>, victims: seq<nat>
        | (forall a | a in trace :: InTrace(a)) && |Pages(trace)| <= slots && |victims| == |trace|
          && AllBelow(victims, frameCount)
        ensures LooksFlat(frameCount, slots, trace, victims)
      {
        if frameCount >= PAGE_LIMIT {
          PagesBelow(trace, frameCount);
        }
        PagingRefinesFlatMemory(frameCount, slots, trace, victims);
      }
    } else {
      var trace := FarTrace(frameCount);
      FarTraceBelow(frameCount);
      PagesBelow(trace, frameCount + 1);
      FarRun(frameCount, frameCount + 1);
      FarIsNotFlat(frameCount, frameCount + 1);
    }
  }
}
