/** How many slots the swap file needs. */
module SwapCapacity {
  import opened Options
  import opened Machine
  import opened Paging
  import opened PagingInvariant
  import opened PagingRefinement
  import opened PagingLimits
  import opened Powers

  ghost predicate Ends(frameCount: nat, slots: nat, trace: seq<Access>, victims: seq<nat>) {
    && Mapped(Init(frameCount, slots)) && |victims| == |trace| && AllBelow(victims, frameCount)
    && Run(Init(frameCount, slots), trace, victims).Ended?
  }

  /** Loads of the pages in this order. */
  function Loads(pages: seq<nat>): (trace: seq<Access>)
    ensures |trace| == |pages| && forall i | 0 <= i < |pages| :: trace[i] == LoadOf(pages[i])
  {
    seq(|pages|, i requires 0 <= i < |pages| => LoadOf(pages[i]))
  }

  // ----- pages put out -----

  /** The pages not in memory, but for page p, have been put out. */
  ghost predicate PutOutBut(s: State, p: int) {
    forall q | q in s.pt && q != p && !s.pt[q].valid :: s.pt[q].onSwap
  }

  lemma LocatePutOut(s: State, p: nat, victim: nat)
    requires Mapped(s) && PutOutBut(s, p) && p in s.pt && victim < |s.frames| && Locate(s, p, victim).Ran?
    ensures PutOutBut(Locate(s, p, victim).state, -1)
    ensures !s.pt[p].valid && s.pt[p].onSwap ==> Locate(s, p, victim).state.pt[p].swapOffset != INVALID_SWAP
  {
    LocateMapped(s, p, victim);
    if !s.pt[p].valid {
      var u := s.(stats := s.stats.(misses := Inc(s.stats.misses)));
      VacateMapped(u, victim);
      if FreeFrame(u.frames).None? {
        EvictionPutOut(u, u.frames[victim].page.value, p);
      }
      FillPutOut(Vacate(u, victim), p, ChosenFrame(u, victim));
    }
  }

  lemma EvictionPutOut(s: State, v: nat, p: nat)
    requires Mapped(s) && PutOutBut(s, p) && v in s.pt && s.pt[v].valid
    ensures PutOutBut(HandleEviction(s, v), p)
  {
    AddressFits(s.pt[v].frame, |s.frames|);
  }

  lemma FillPutOut(s: State, p: nat, f: nat)
    requires Shape(s) && PutOutBut(s, p) && p in s.pt && f < |s.frames| && Fill(s, p, f).Ran?
    ensures PutOutBut(Fill(s, p, f).state, -1)
    ensures s.pt[p].onSwap ==> Fill(s, p, f).state.pt[p].swapOffset != INVALID_SWAP
  {}

  /** An access leaves all pages but those in memory put out; a page brought back has a slot. */
  lemma ExecutePutOut(s: State, a: Access, victim: nat)
    requires Mapped(s) && PutOutBut(s, -1) && victim < |s.frames| && Execute(s, a, victim).Done?
    ensures var t := Execute(s, a, victim).next;
            && PutOutBut(t, -1) && PageOf(a) in t.pt
            && (PageOf(a) in s.pt && !s.pt[PageOf(a)].valid ==> t.pt[PageOf(a)].swapOffset != INVALID_SWAP)
  {
    var p := PageOf(a);
    WithEntryMapped(s, p);
    LocatePutOut(WithEntry(s, p), p, victim);
    FinishPutOut(Locate(WithEntry(s, p), p, victim).state, p, IsWrite(a));
  }

  lemma FinishPutOut(s: State, p: nat, write: bool)
    requires PutOutBut(s, -1) && p in s.pt
    ensures PutOutBut(Finish(s, p, write), -1) && Finish(s, p, write).pt[p].swapOffset == s.pt[p].swapOffset
  {}

  // ----- one frame -----

  /** One frame; the pages that are not in it have been put out. */
  ghost predicate Single(s: State) {
    Mapped(s) && |s.frames| == 1 && Accounted(s) && PutOutBut(s, -1)
  }

  /** An access brings its page in and puts the other out; a page keeps its slot. */
  lemma SingleStep(s: State, a: Access)
    requires Single(s) && OffsetOf(a) < FRAME_SIZE && Execute(s, a, 0).Done?
    ensures var t := Execute(s, a, 0).next;
            && Single(t) && t.pt.Keys == s.pt.Keys + {PageOf(a)} && |t.swap.used| == |s.swap.used|
            && t.pt[PageOf(a)].valid
            && (PageOf(a) in s.pt && !s.pt[PageOf(a)].valid ==> t.pt[PageOf(a)].swapOffset != INVALID_SWAP)
  {
    ExecuteLost(s, a, 0);
    ExecuteAccounted(s, a, 0);
    ExecuteFrame(s, a, 0);
    ExecutePutOut(s, a, 0);
  }

  lemma {:induction false} SingleRun(s: State, pages: seq<nat>)
    requires Single(s) && pages != []
    requires Run(s, Loads(pages), Zeros(|pages|)).Ended?
    ensures var t := Run(s, Loads(pages), Zeros(|pages|)).final;
            && Single(t) && |t.swap.used| == |s.swap.used| && s.pt.Keys <= t.pt.Keys
            && (forall p | p in pages :: p in t.pt) && t.pt[pages[|pages| - 1]].valid
    decreases |pages|
  {
    var trace, victims := Loads(pages), Zeros(|pages|);
    ExecuteMapped(s, trace[0], 0);
    SingleStep(s, trace[0]);
    assert trace[1..] == Loads(pages[1..]) && victims[1..] == Zeros(|pages| - 1);
    if |pages| > 1 {
      SingleRun(Execute(s, trace[0], 0).next, pages[1..]);
    }
  }

  // ----- too few slots -----

  lemma {:induction false} Listed(pages: set<nat>) returns (list: seq<nat>)
    ensures |list| == |pages| && forall p :: p in list <==> p in pages
    ensures forall i, j | 0 <= i < j < |list| :: list[i] != list[j]
  {
    list := [];
    if pages != {} {
      var p :| p in pages;
      list := Listed(pages - {p});
      assert forall q :: q in list + [p] <==> q in pages;
      list := list + [p];
    }
  }

  /** Of more pages than slots one has none. */
  lemma SomeWithout(s: State, pages: set<nat>) returns (q: nat)
    requires Accounted(s) && pages <= s.pt.Keys && |pages| > |s.swap.used|
    ensures q in pages && s.pt[q].swapOffset == INVALID_SWAP
  {
    CountUsedFull(s.swap.used);
    if forall p | p in pages :: s.pt[p].swapOffset != INVALID_SWAP {
      SubsetSize(pages, SlotOwners(s.pt));
    }
    q :| q in pages && s.pt[q].swapOffset == INVALID_SWAP;
  }

  /** In one frame only one page is in memory. */
  lemma OneValid(s: State, p: nat, q: nat)
    requires Single(s) && p in s.pt && s.pt[p].valid && q in s.pt && q != p
    ensures !s.pt[q].valid && s.pt[q].onSwap
  {
    assert s.frames[0] == Frame(false, Some(p));
  }

  /** With all pages put out or back from swap one of them is lost, and its load stops. */
  lemma ThirdVisitStops(s: State, list: seq<nat>, pages: set<nat>, p: nat)
    requires Single(s) && pages <= s.pt.Keys && |pages| > |s.swap.used| && forall q :: q in list <==> q in pages
    requires p in s.pt && s.pt[p].valid && s.pt[p].swapOffset != INVALID_SWAP
    ensures Run(s, Loads(list), Zeros(|list|)).Broken?
  {
    var q := SomeWithout(s, pages);
    OneValid(s, p, q);
    LostPage(s, Loads(list), Zeros(|list|), q);
    var i :| 0 <= i < |list| && list[i] == q;
    assert PageOf(Loads(list)[i]) == q;
  }

  /** All pages in turn, the first again, and all in turn: with fewer slots than pages one is lost and needed. */
  function Turns(list: seq<nat>): seq<Access>
    requires list != []
  {
    Loads(list) + (Loads(list[..1]) + Loads(list))
  }

  function TurnVictims(list: seq<nat>): (victims: seq<nat>)
    requires list != []
    ensures |victims| == |Turns(list)| && AllBelow(victims, 1)
  {
    Zeros(|list|) + (Zeros(1) + Zeros(|list|))
  }

  lemma SecondVisit(s: State, list: seq<nat>, pages: set<nat>)
    requires Single(s) && |list| >= 2 && list[0] != list[|list| - 1] && forall q :: q in list <==> q in pages
    requires pages <= s.pt.Keys && |pages| > |s.swap.used| && s.pt[list[|list| - 1]].valid
    ensures AllBelow(Zeros(1) + Zeros(|list|), 1)
    ensures Run(s, Loads(list[..1]) + Loads(list), Zeros(1) + Zeros(|list|)).Broken?
  {
    OneValid(s, list[|list| - 1], list[0]);
    RunConcat(s, Loads(list[..1]), Zeros(1), Loads(list), Zeros(|list|));
    var a := Loads(list[..1])[0];
    ExecuteMapped(s, a, 0);
    assert Loads(list[..1]) == [a] && Zeros(1) == [0];
    var r := Execute(s, a, 0);
    if r.Done? {
      SingleStep(s, a);
      assert Run(r.next, [], []) == Ended([], r.next);
      ThirdVisitStops(r.next, list, pages, list[0]);
    }
  }

  lemma TurnsStop(slots: nat, list: seq<nat>, pages: set<nat>)
    requires |list| >= 2 && list[0] != list[|list| - 1] && (forall q :: q in list <==> q in pages) && |pages| > slots
    ensures Mapped(Init(1, slots)) && Run(Init(1, slots), Turns(list), TurnVictims(list)).Broken?
  {
    InitInv(1, slots);
    var s := Init(1, slots);
    RunConcat(s, Loads(list), Zeros(|list|), Loads(list[..1]) + Loads(list), Zeros(1) + Zeros(|list|));
    if Run(s, Loads(list), Zeros(|list|)).Ended? {
      SingleRun(s, list);
      SecondVisit(Run(s, Loads(list), Zeros(|list|)).final, list, pages);
    }
  }

  /** A trace over the pages. */
  ghost predicate Over(pages: set<nat>, trace: seq<Access>) {
    forall a | a in trace :: InTrace(a) && PageOf(a) in pages
  }

  lemma EnoughSlots(pages: set<nat>, frameCount: nat, slots: nat, trace: seq<Access>, victims: seq<nat>)
    requires |pages| <= slots || |pages| <= 1
    requires 1 <= frameCount && Over(pages, trace) && |victims| == |trace| && AllBelow(victims, frameCount)
    ensures Ends(frameCount, slots, trace, victims)
  {
    InitInv(frameCount, slots);
    RunEnds(Init(frameCount, slots), trace, victims, pages);
  }

  lemma LoadsOver(list: seq<nat>, pages: set<nat>)
    requires forall q | q in list :: q in pages && q * PAGE_SIZE < ADDRESS_LIMIT
    ensures Over(pages, Loads(list))
  {
    forall a | a in Loads(list)
      ensures InTrace(a) && PageOf(a) in pages
    {
      var i :| 0 <= i < |list| && Loads(list)[i] == a;
      assert list[i] in list;
    }
  }

  lemma TooFewSlots(pages: set<nat>, slots: nat) returns (trace: seq<Access>, victims: seq<nat>)
    requires (forall p | p in pages :: p * PAGE_SIZE < ADDRESS_LIMIT) && |pages| > slots && |pages| > 1
    ensures Over(pages, trace) && |victims| == |trace| && AllBelow(victims, 1)
    ensures !Ends(1, slots, trace, victims)
  {
    var list := Listed(pages);
    TurnsStop(slots, list, pages);
    LoadsOver(list, pages);
    LoadsOver(list[..1], pages);
    trace, victims := Turns(list), TurnVictims(list);
  }

  /**
   * Every run over the pages, on any number of frames and under any policy, gets to its end exactly
   * when there is a slot for each of them, or no more than one.
   */
  lemma ExactlyEnoughSlots(pages: set<nat>, slots: nat)
    requires forall p | p in pages :: p * PAGE_SIZE < ADDRESS_LIMIT
    ensures (forall frameCount: nat, trace: seq<Access>, victims: seq<nat>
               | 1 <= frameCount && Over(pages, trace) && |victims| == |trace| && AllBelow(victims, frameCount)
               :: Ends(frameCount, slots, trace, victims))
       <==> |pages| <= slots || |pages| <= 1
  {
    if |pages| <= slots || |pages| <= 1 {
      forall frameCount: nat, trace: seq<Access>, victims: seq<nat>
        | 1 <= frameCount && Over(pages, trace) && |victims| == |trace| && AllBelow(victims, frameCount)
        ensures Ends(frameCount, slots, trace, victims)
      {
        EnoughSlots(pages, frameCount, slots, trace, victims);
      }
    } else {
      var trace, victims := TooFewSlots(pages, slots);
    }
  }
}
