/** The statistics add up over every run shorter than their 32-bit counters. */
module PagingCounters {
  import opened Options
  import opened Machine
  import opened Powers
  import opened Paging
  import opened PagingInvariant
  import opened PagingRefinement

  /** Frames in use. */
  ghost function InUse(frames: seq<Frame>): nat {
    if frames == [] then 0 else InUse(frames[..|frames| - 1]) + (if frames[|frames| - 1].free then 0 else 1)
  }

  lemma {:induction false} InUseUpdate(frames: seq<Frame>, f: nat, frame: Frame)
    requires f < |frames| && !frame.free
    ensures InUse(frames[f := frame]) == InUse(frames) + (if frames[f].free then 1 else 0)
    decreases |frames|
  {
    var n := |frames| - 1;
    if f == n {
      assert frames[f := frame][..n] == frames[..n];
    } else {
      assert frames[f := frame][..n] == frames[..n][f := frame];
      InUseUpdate(frames[..n], f, frame);
    }
  }

  lemma {:induction false} InUseBounds(frames: seq<Frame>)
    ensures InUse(frames) <= |frames|
    ensures (forall f | 0 <= f < |frames| :: !frames[f].free) ==> InUse(frames) == |frames|
  {
    if frames != [] {
      InUseBounds(frames[..|frames| - 1]);
    }
  }

  function Evictions(stats: Stats): nat {
    stats.evictClean + stats.evictDirty
  }

  /** What the counters are about: themselves, the frames, those in use and the slots taken. */
  datatype Tally = Tally(stats: Stats, frames: nat, inUse: nat, slots: nat)

  ghost function TallyOf(s: State): Tally {
    Tally(s.stats, |s.frames|, InUse(s.frames), CountUsed(s.swap.used))
  }

  /**
   * After n accesses: each was a hit or a miss; each miss took a free frame or evicted a page, and
   * frames were evicted only when none was free; every slot taken came with a dirty eviction.
   */
  ghost predicate Counted(t: Tally, n: nat) {
    && t.stats.refs == n && t.stats.hits + t.stats.misses == n
    && t.stats.misses == Evictions(t.stats) + t.inUse
    && t.inUse <= t.frames
    && (Evictions(t.stats) > 0 ==> t.inUse == t.frames)
    && t.slots <= t.stats.evictDirty
  }

  /** The closed form: evictions are the misses in excess of the frames. */
  lemma EvictionCount(t: Tally, n: nat)
    requires Counted(t, n)
    ensures Evictions(t.stats) == if t.stats.misses > t.frames then t.stats.misses - t.frames else 0
  {}

  /** An eviction counts once, as dirty or clean as the page is; only a dirty page takes a new slot. */
  lemma EvictionCounts(s: State, p: nat)
    requires Mapped(s) && Accounted(s) && p in s.pt && s.pt[p].valid
    requires Evictions(s.stats) + 1 < UINT32
    ensures var t, u := TallyOf(s), TallyOf(HandleEviction(s, p));
            if s.pt[p].dirty
            then u.slots <= t.slots + 1
                 && u == t.(stats := t.stats.(evictDirty := t.stats.evictDirty + 1), slots := u.slots)
            else u == t.(stats := t.stats.(evictClean := t.stats.evictClean + 1))
  {
    CleanHasSlot(s, p);
    AddressFits(s.pt[p].frame, |s.frames|);
    PageOutCounts(s.swap, s.memory, s.pt[p].frame, s.pt[p].swapOffset);
    EvictionTally(s, p);
  }

  lemma CleanHasSlot(s: State, p: nat)
    requires Mapped(s) && Accounted(s) && p in s.pt && s.pt[p].valid
    ensures !s.pt[p].dirty ==> s.pt[p].swapOffset != INVALID_SWAP
  {}

  /** One counter goes up, and the slots are those of the page-out. */
  lemma EvictionTally(s: State, p: nat)
    requires Mapped(s) && p in s.pt && s.pt[p].valid && SwapAddress(s.pt[p].frame) + FRAME_SIZE <= |s.memory|
    requires Evictions(s.stats) + 1 < UINT32
    ensures var t, u := s.stats, TallyOf(HandleEviction(s, p));
            && u.frames == |s.frames| && u.inUse == InUse(s.frames)
            && u.slots == CountUsed(PageOut(s.swap, s.memory, s.pt[p].frame, s.pt[p].swapOffset).0.used)
            && u.stats == if s.pt[p].dirty then t.(evictDirty := t.evictDirty + 1)
                          else t.(evictClean := t.evictClean + 1)
  {}

  lemma PageOutCounts(swap: Swap, memory: seq<Byte>, frame: nat, offset: int)
    requires SwapAddress(frame) + FRAME_SIZE <= |memory| && offset >= INVALID_SWAP
    ensures var used := PageOut(swap, memory, frame, offset).0.used;
            CountUsed(used) <= CountUsed(swap.used) + (if offset == INVALID_SWAP then 1 else 0)
    ensures offset != INVALID_SWAP ==> PageOut(swap, memory, frame, offset).0.used == swap.used
  {
    if offset == INVALID_SWAP && LowestClear(swap.used).Some? {
      CountUsedUpdate(swap.used, LowestClear(swap.used).value);
    }
  }

  /** The page brought in takes its frame. */
  lemma FillCounts(s: State, p: nat, f: nat)
    requires Shape(s) && p in s.pt && f < |s.frames| && Fill(s, p, f).Ran?
    ensures var t, u := TallyOf(s), TallyOf(Fill(s, p, f).state);
            u == t.(inUse := t.inUse + (if s.frames[f].free then 1 else 0)) && u.inUse <= u.frames
  {
    InUseUpdate(s.frames, f, Frame(false, Some(p)));
    InUseBounds(Fill(s, p, f).state.frames);
  }

  /** What a miss does to the tally besides counting it. */
  ghost predicate MissTally(t: Tally, u: Tally) {
    || (t.inUse < t.frames && u == t.(inUse := t.inUse + 1))
    || (t.inUse == t.frames && u == t.(stats := t.stats.(evictClean := t.stats.evictClean + 1)))
    || (t.inUse == t.frames && u.slots <= t.slots + 1
        && u == t.(stats := t.stats.(evictDirty := t.stats.evictDirty + 1), slots := u.slots))
  }

  /** One miss: a frame more in use, or, when all are, an eviction more. */
  lemma MissCounts(s: State, p: nat, victim: nat)
    requires Mapped(s) && Accounted(s) && p in s.pt && !s.pt[p].valid && victim < |s.frames| && !Lost(s, p)
    requires Evictions(s.stats) + 1 < UINT32
    ensures Miss(s, p, victim).Ran? && MissTally(TallyOf(s), TallyOf(Miss(s, p, victim).state))
  {
    VacateMapped(s, victim);
    MissLost(s, p, victim);
    VacateShape(s, victim);
    FillCounts(Vacate(s, victim), p, ChosenFrame(s, victim));
    InUseBounds(s.frames);
    if FreeFrame(s.frames).None? {
      EvictionCounts(s, s.frames[victim].page.value);
    }
  }

  /** The tally after a hit or miss, short of the reference count. */
  ghost predicate Located(t: Tally, n: nat) {
    t.stats.refs == n && Counted(t.(stats := t.stats.(refs := n + 1)), n + 1)
  }

  lemma MissLocated(t: Tally, u: Tally, n: nat)
    requires Counted(t, n) && MissTally(t.(stats := t.stats.(misses := t.stats.misses + 1)), u)
    ensures Located(u, n)
  {}

  lemma HitLocated(t: Tally, n: nat)
    requires Counted(t, n)
    ensures Located(t.(stats := t.stats.(hits := t.stats.hits + 1)), n)
  {}

  lemma LocateCounts(s: State, p: nat, victim: nat, n: nat)
    requires Mapped(s) && Accounted(s) && p in s.pt && victim < |s.frames| && !Lost(s, p)
    requires Counted(TallyOf(s), n) && n + 1 < UINT32
    ensures Locate(s, p, victim).Ran? && Located(TallyOf(Locate(s, p, victim).state), n)
  {
    if s.pt[p].valid {
      HitCounts(s, p, victim, n);
    } else {
      var u := MissStarted(s, n);
      MissLocates(TallyOf(s), u, p, victim, n);
    }
  }

  lemma HitCounts(s: State, p: nat, victim: nat, n: nat)
    requires Mapped(s) && p in s.pt && s.pt[p].valid && victim < |s.frames|
    requires Counted(TallyOf(s), n) && n + 1 < UINT32
    ensures Locate(s, p, victim).Ran? && Located(TallyOf(Locate(s, p, victim).state), n)
  {
    var t := TallyOf(s);
    HitLocated(t, n);
    assert TallyOf(Locate(s, p, victim).state) == t.(stats := t.stats.(hits := t.stats.hits + 1));
  }

  lemma MissLocates(t: Tally, u: State, p: nat, victim: nat, n: nat)
    requires Mapped(u) && Accounted(u) && p in u.pt && !u.pt[p].valid && victim < |u.frames| && !Lost(u, p)
    requires Counted(t, n) && TallyOf(u) == t.(stats := t.stats.(misses := t.stats.misses + 1))
    requires Evictions(u.stats) + 1 < UINT32
    ensures Miss(u, p, victim).Ran? && Located(TallyOf(Miss(u, p, victim).state), n)
  {
    MissCounts(u, p, victim);
    MissLocated(t, TallyOf(Miss(u, p, victim).state), n);
  }

  /** The state once a miss is counted. */
  lemma MissStarted(s: State, n: nat) returns (u: State)
    requires Mapped(s) && Accounted(s) && Counted(TallyOf(s), n) && n + 1 < UINT32
    ensures u == s.(stats := s.stats.(misses := Inc(s.stats.misses)))
    ensures Mapped(u) && Accounted(u) && TallyOf(u) == TallyOf(s).(stats := s.stats.(misses := s.stats.misses + 1))
    ensures Evictions(u.stats) + 1 < UINT32
  {
    u := s.(stats := s.stats.(misses := Inc(s.stats.misses)));
  }

  lemma FinishCounts(s: State, p: nat, write: bool, n: nat)
    requires p in s.pt && Located(TallyOf(s), n) && n + 1 < UINT32
    ensures Counted(TallyOf(Finish(s, p, write)), n + 1)
  {}

  lemma TranslationCounts(s: State, a: Access, victim: nat, n: nat)
    requires Mapped(s) && Accounted(s) && victim < |s.frames| && !Lost(s, PageOf(a))
    requires Counted(TallyOf(s), n) && n + 1 < UINT32
    ensures GetFrameNumber(s, a, victim).Ran? && Counted(TallyOf(GetFrameNumber(s, a, victim).state), n + 1)
  {
    var p := PageOf(a);
    var u := WithEntry(s, p);
    WithEntryMapped(s, p);
    WithEntryAccounted(s, p);
    WithEntryView(s, p);
    assert TallyOf(u) == TallyOf(s);
    LocateCounts(u, p, victim, n);
    FinishCounts(Locate(u, p, victim).state, p, IsWrite(a), n);
  }

  /** One access keeps the count. */
  lemma ExecuteCounts(s: State, a: Access, victim: nat, n: nat)
    requires Mapped(s) && Accounted(s) && victim < |s.frames|
    requires Counted(TallyOf(s), n) && n + 1 < UINT32
    ensures match Execute(s, a, victim)
            case Stopped => true
            case Done(t, _) => Mapped(t) && Accounted(t) && |t.frames| == |s.frames| && Counted(TallyOf(t), n + 1)
  {
    TranslationLost(s, a, victim);
    ExecuteMapped(s, a, victim);
    ExecuteAccounted(s, a, victim);
    if Execute(s, a, victim).Done? {
      TranslationCounts(s, a, victim, n);
    }
  }

  lemma {:induction false} RunCounts(s: State, trace: seq<Access>, victims: seq<nat>, n: nat)
    requires Mapped(s) && Accounted(s) && Counted(TallyOf(s), n) && n + |trace| < UINT32
    requires |victims| == |trace| && AllBelow(victims, |s.frames|)
    ensures var r := Run(s, trace, victims);
            r.Ended? ==>
              && Counted(TallyOf(r.final), n + |trace|) && |r.final.frames| == |s.frames|
              && Accounted(r.final)
    decreases |trace|
  {
    if trace != [] {
      ExecuteCounts(s, trace[0], victims[0], n);
      var r := Execute(s, trace[0], victims[0]);
      if r.Done? {
        RunCounts(r.next, trace[1..], victims[1..], n + 1);
      }
    }
  }

  /** The statistics the simulator reports at the end of a run, whatever the trace and however many frames and slots. */
  lemma {:induction false} ReportedStatistics(frameCount: nat, slots: nat, trace: seq<Access>, victims: seq<nat>)
    requires 1 <= frameCount
    requires |victims| == |trace| < UINT32 && AllBelow(victims, frameCount)
    ensures Mapped(Init(frameCount, slots))
    ensures match Run(Init(frameCount, slots), trace, victims)
            case Broken(_) => true
            case Ended(_, final) =>
              && final.stats.refs == |trace|
              && final.stats.hits + final.stats.misses == |trace|
              && Evictions(final.stats)
                 == (if final.stats.misses > frameCount then final.stats.misses - frameCount else 0)
              && |SlotOwners(final.pt)| <= final.stats.evictDirty
  {
    var s := Init(frameCount, slots);
    InitInv(frameCount, slots);
    NoneUsed(s.swap.used);
    NoneInUse(s.frames);
    RunCounts(s, trace, victims, 0);
    var r := Run(s, trace, victims);
    if r.Ended? {
      EvictionCount(TallyOf(r.final), |trace|);
    }
  }

  lemma {:induction false} NoneInUse(frames: seq<Frame>)
    requires forall f | 0 <= f < |frames| :: frames[f].free
    ensures InUse(frames) == 0
  {
    if frames != [] {
      NoneInUse(frames[..|frames| - 1]);
    }
  }
}
