/** What every reachable state satisfies, and that no paging step changes what a page holds. */
module PagingInvariant {
  import opened Options
  import opened Machine
  import opened Paging
  import opened Powers

  // ----- the invariant -----

  ghost function CountUsed(used: seq<bool>): nat {
    if used == [] then 0 else CountUsed(used[..|used| - 1]) + (if used[|used| - 1] then 1 else 0)
  }

  /** The pages that own a slot of the swap file. */
  ghost function SlotOwners(pt: map<nat, Pte>): set<nat> {
    set p | p in pt && pt[p].swapOffset != INVALID_SWAP
  }

  /** An offset names a slot that is in use and has been written. */
  ghost predicate GoodOffset(swap: Swap, offset: int) {
    && offset >= 0 && offset % FRAME_SIZE == 0
    && offset / FRAME_SIZE < |swap.used| && swap.used[offset / FRAME_SIZE]
    && offset + FRAME_SIZE <= |swap.file|
  }

  function FrameByte(memory: seq<Byte>, f: nat, o: nat): Byte {
    if f * FRAME_SIZE + o < |memory| then memory[f * FRAME_SIZE + o] else 0
  }

  function SlotByte(file: seq<Byte>, offset: int, o: nat): Byte {
    if 0 <= offset + o < |file| then file[offset + o] else 0
  }

  /** The slot at offset holds exactly the bytes of frame f. */
  ghost predicate Saved(s: State, offset: int, f: nat) {
    && 0 <= offset && offset + FRAME_SIZE <= |s.swap.file| && (f + 1) * FRAME_SIZE <= |s.memory|
    && forall o: nat | o < FRAME_SIZE :: SlotByte(s.swap.file, offset, o) == FrameByte(s.memory, f, o)
  }

  /** Two files agree on the slot at offset. */
  ghost predicate SameSlot(file: seq<Byte>, file': seq<Byte>, offset: int) {
    forall o: nat | o < FRAME_SIZE :: SlotByte(file, offset, o) == SlotByte(file', offset, o)
  }

  /** Slots in use are good, never shared, and as many as the pages that own one. */
  ghost predicate Slots(s: State) {
    && (forall p | p in s.pt && s.pt[p].swapOffset != INVALID_SWAP :: GoodOffset(s.swap, s.pt[p].swapOffset))
    && (forall p, q | p in s.pt && q in s.pt && p != q && s.pt[p].swapOffset != INVALID_SWAP ::
          s.pt[p].swapOffset != s.pt[q].swapOffset)
    && CountUsed(s.swap.used) == |SlotOwners(s.pt)|
  }

  /** A page on swap is not in memory, one never brought in has no slot, and a clean page in memory has a copy. */
  ghost predicate Copies(s: State) {
    && (forall p | p in s.pt && s.pt[p].onSwap :: !s.pt[p].valid)
    && (forall p | p in s.pt && !s.pt[p].valid && !s.pt[p].onSwap :: s.pt[p].swapOffset == INVALID_SWAP)
    && (forall p | p in s.pt && s.pt[p].valid && !s.pt[p].dirty ::
          s.pt[p].swapOffset != INVALID_SWAP && Saved(s, s.pt[p].swapOffset, s.pt[p].frame))
  }

  ghost predicate Swapped(s: State) {
    Slots(s) && Copies(s)
  }

  ghost predicate Inv(s: State) {
    Mapped(s) && Swapped(s)
  }

  /** The swap functions find the frames they look for. */
  predicate Addressable(s: State) {
    |s.frames| <= MAX_FRAMES
  }

  // ----- what a page holds -----

  /** The byte a page holds at an offset, wherever the page is. */
  ghost function View(s: State, p: nat, o: nat): Byte {
    if p !in s.pt then 0
    else
      var pte := s.pt[p];
      if pte.valid then FrameByte(s.memory, pte.frame, o)
      else if pte.onSwap then SlotByte(s.swap.file, pte.swapOffset, o)
      else 0
  }

  /** A page that was paged out to no slot, the swap file being full. */
  predicate Lost(s: State, p: nat) {
    p in s.pt && !s.pt[p].valid && s.pt[p].onSwap && s.pt[p].swapOffset == INVALID_SWAP
  }

  /** No lost page comes back, and a page not lost holds what it held. */
  ghost predicate SameView(s: State, t: State) {
    && (forall p: nat | Lost(s, p) :: Lost(t, p))
    && (forall p: nat, o: nat | o < FRAME_SIZE && !Lost(t, p) :: View(s, p, o) == View(t, p, o))
  }

  // ----- slots -----

  lemma {:induction false} CountUsedUpdate(used: seq<bool>, i: nat)
    requires i < |used| && !used[i]
    ensures CountUsed(used[i := true]) == CountUsed(used) + 1
    decreases |used|
  {
    var n := |used| - 1;
    if i == n {
      assert used[i := true][..n] == used[..n];
    } else {
      assert used[i := true][..n] == used[..n][i := true];
      CountUsedUpdate(used[..n], i);
    }
  }

  lemma {:induction false} CountUsedFull(used: seq<bool>)
    ensures CountUsed(used) <= |used|
    ensures (forall i | 0 <= i < |used| :: used[i]) ==> CountUsed(used) == |used|
  {
    if used != [] {
      CountUsedFull(used[..|used| - 1]);
    }
  }

  /** A page can be saved: it has a slot, or one is clear. */
  predicate HasRoom(s: State, p: nat)
    requires p in s.pt
  {
    s.pt[p].swapOffset != INVALID_SWAP || LowestClear(s.swap.used).Some?
  }

  /** The slots in use are counted for the pages that own one, and a clean page in memory owns one. */
  ghost predicate Accounted(s: State) {
    && CountUsed(s.swap.used) == |SlotOwners(s.pt)|
    && (forall p | p in s.pt && s.pt[p].valid && !s.pt[p].dirty :: s.pt[p].swapOffset != INVALID_SWAP)
  }

  /** A page without a slot, among no more pages than slots, leaves a slot clear. */
  lemma SlotLeft(s: State, p: nat)
    requires Accounted(s) && p in s.pt && s.pt[p].swapOffset == INVALID_SWAP
    requires |s.pt| <= |s.swap.used|
    ensures LowestClear(s.swap.used).Some?
  {
    SubsetSize(SlotOwners(s.pt), s.pt.Keys - {p});
    CountUsedFull(s.swap.used);
  }

  // ----- eviction -----

  /** The slot written holds the frame; a slot apart from it is as before. */
  lemma WrittenSlot(file: seq<Byte>, memory: seq<Byte>, f: nat, pos: nat)
    requires (f + 1) * FRAME_SIZE <= |memory|
    ensures var file' := WriteFile(file, pos, memory[f * FRAME_SIZE..f * FRAME_SIZE + FRAME_SIZE]);
            && pos + FRAME_SIZE <= |file'| && |file| <= |file'|
            && (forall o: nat | o < FRAME_SIZE :: SlotByte(file', pos, o) == FrameByte(memory, f, o))
            && (forall q: nat, o: nat
                  | o < FRAME_SIZE && (q + FRAME_SIZE <= pos || pos + FRAME_SIZE <= q) && q + FRAME_SIZE <= |file|
                  :: SlotByte(file', q, o) == SlotByte(file, q, o))
  {}

  /** The offset a page-out uses. */
  lemma PageOutOffset(s: State, p: nat)
    requires Inv(s) && Addressable(s) && p in s.pt && s.pt[p].valid && HasRoom(s, p)
    ensures SwapAddress(s.pt[p].frame) == s.pt[p].frame * FRAME_SIZE
    ensures (s.pt[p].frame + 1) * FRAME_SIZE <= |s.memory|
    ensures var (swap, offset) := PageOut(s.swap, s.memory, s.pt[p].frame, s.pt[p].swapOffset);
            && offset >= 0 && offset % FRAME_SIZE == 0
            && offset / FRAME_SIZE < |swap.used| == |s.swap.used| && swap.used[offset / FRAME_SIZE]
            && (forall i | 0 <= i < |swap.used| && s.swap.used[i] :: swap.used[i])
            && swap.file == WriteFile(s.swap.file, offset,
                                      s.memory[s.pt[p].frame * FRAME_SIZE..s.pt[p].frame * FRAME_SIZE + FRAME_SIZE])
  {
    AddressFits(s.pt[p].frame, |s.frames|);
    if s.pt[p].swapOffset != INVALID_SWAP {
      assert GoodOffset(s.swap, s.pt[p].swapOffset);
    }
  }

  /** Which no other page owns. */
  lemma PageOutOwn(s: State, p: nat, q: nat)
    requires Inv(s) && Addressable(s) && p in s.pt && s.pt[p].valid && HasRoom(s, p)
    requires q in s.pt && q != p && s.pt[q].swapOffset != INVALID_SWAP
    ensures SwapAddress(s.pt[p].frame) + FRAME_SIZE <= |s.memory|
    ensures s.pt[q].swapOffset != PageOut(s.swap, s.memory, s.pt[p].frame, s.pt[p].swapOffset).1
  {
    AddressFits(s.pt[p].frame, |s.frames|);
    assert GoodOffset(s.swap, s.pt[q].swapOffset);
  }

  /** The swap after a page-out: the offset is good, in use by no other page, and holds the frame. */
  lemma PageOutSaves(s: State, p: nat)
    requires Inv(s) && Addressable(s) && p in s.pt && s.pt[p].valid && HasRoom(s, p)
    ensures SwapAddress(s.pt[p].frame) + FRAME_SIZE <= |s.memory|
    ensures var (swap, offset) := PageOut(s.swap, s.memory, s.pt[p].frame, s.pt[p].swapOffset);
            && GoodOffset(swap, offset)
            && Saved(s.(swap := swap), offset, s.pt[p].frame)
            && (forall q | q in s.pt && q != p && s.pt[q].swapOffset != INVALID_SWAP :: s.pt[q].swapOffset != offset)
  {
    PageOutOffset(s, p);
    var (swap, offset) := PageOut(s.swap, s.memory, s.pt[p].frame, s.pt[p].swapOffset);
    WrittenSlot(s.swap.file, s.memory, s.pt[p].frame, offset);
    forall q | q in s.pt && q != p && s.pt[q].swapOffset != INVALID_SWAP
      ensures s.pt[q].swapOffset != offset
    {
      PageOutOwn(s, p, q);
    }
  }

  /** Other slots are not touched by a page-out. */
  lemma PageOutLocal(s: State, p: nat, q: nat)
    requires Inv(s) && Addressable(s) && p in s.pt && s.pt[p].valid && HasRoom(s, p)
    requires q in s.pt && q != p && s.pt[q].swapOffset != INVALID_SWAP
    ensures SwapAddress(s.pt[p].frame) + FRAME_SIZE <= |s.memory|
    ensures var (swap, offset) := PageOut(s.swap, s.memory, s.pt[p].frame, s.pt[p].swapOffset);
            && GoodOffset(swap, s.pt[q].swapOffset)
            && SameSlot(s.swap.file, swap.file, s.pt[q].swapOffset)
  {
    PageOutOffset(s, p);
    PageOutOwn(s, p, q);
    var (swap, offset) := PageOut(s.swap, s.memory, s.pt[p].frame, s.pt[p].swapOffset);
    SlotsApart(offset, s.pt[q].swapOffset);
    WrittenSlot(s.swap.file, s.memory, s.pt[p].frame, offset);
  }

  lemma SlotsApart(a: int, b: int)
    requires a % FRAME_SIZE == 0 && b % FRAME_SIZE == 0 && a != b
    ensures a + FRAME_SIZE <= b || b + FRAME_SIZE <= a
  {}

  /** A page gains or keeps its slot, or remains without. */
  lemma OwnersUpdate(pt: map<nat, Pte>, p: nat, pte: Pte)
    requires p in pt
    ensures pte.swapOffset != INVALID_SWAP ==> SlotOwners(pt[p := pte]) == SlotOwners(pt) + {p}
    ensures pte.swapOffset == pt[p].swapOffset ==> SlotOwners(pt[p := pte]) == SlotOwners(pt)
  {
    forall q
      ensures q in SlotOwners(pt[p := pte]) <==> if q == p then pte.swapOffset != INVALID_SWAP else q in SlotOwners(pt)
    {}
  }

  /** The slot taken, if any, is counted for the page that takes it. */
  lemma OwnersAfter(pt: map<nat, Pte>, swap: Swap, memory: seq<Byte>, p: nat, pte: Pte)
    requires p in pt && CountUsed(swap.used) == |SlotOwners(pt)|
    requires SwapAddress(pt[p].frame) + FRAME_SIZE <= |memory| && pt[p].swapOffset >= INVALID_SWAP
    requires pte.swapOffset == PageOut(swap, memory, pt[p].frame, pt[p].swapOffset).1
    ensures CountUsed(PageOut(swap, memory, pt[p].frame, pt[p].swapOffset).0.used) == |SlotOwners(pt[p := pte])|
  {
    OwnersUpdate(pt, p, pte);
    if pt[p].swapOffset != INVALID_SWAP {
      assert p in SlotOwners(pt);
    } else if LowestClear(swap.used).Some? {
      CountUsedUpdate(swap.used, LowestClear(swap.used).value);
    }
  }

  /** Even when the swap file is full, the victim's frame is the only one left without a page. */
  lemma EvictionMapped(s: State, p: nat)
    requires Mapped(s) && p in s.pt && s.pt[p].valid
    ensures Shape(HandleEviction(s, p)) && MappedBut(HandleEviction(s, p), s.pt[p].frame)
  {}

  lemma EvictionSlots(s: State, p: nat)
    requires Inv(s) && Addressable(s) && p in s.pt && s.pt[p].valid && HasRoom(s, p)
    ensures Slots(HandleEviction(s, p))
  {
    var t := HandleEviction(s, p);
    PageOutSaves(s, p);
    OwnersAfter(s.pt, s.swap, s.memory, p, t.pt[p]);
    forall q | q in s.pt && q != p && s.pt[q].swapOffset != INVALID_SWAP
      ensures GoodOffset(t.swap, s.pt[q].swapOffset)
    {
      PageOutLocal(s, p, q);
    }
  }

  lemma EvictionCopies(s: State, p: nat)
    requires Inv(s) && Addressable(s) && p in s.pt && s.pt[p].valid && HasRoom(s, p)
    ensures Copies(HandleEviction(s, p))
  {
    var t := HandleEviction(s, p);
    forall q | q in t.pt && t.pt[q].valid && !t.pt[q].dirty
      ensures t.pt[q].swapOffset != INVALID_SWAP && Saved(t, t.pt[q].swapOffset, t.pt[q].frame)
    {
      assert Saved(s, s.pt[q].swapOffset, s.pt[q].frame);
      PageOutLocal(s, p, q);
    }
  }

  lemma EvictionSameView(s: State, p: nat)
    requires Inv(s) && Addressable(s) && p in s.pt && s.pt[p].valid && HasRoom(s, p)
    ensures SameView(s, HandleEviction(s, p))
  {
    var t := HandleEviction(s, p);
    PageOutSaves(s, p);
    forall q: nat, o: nat | o < FRAME_SIZE && !Lost(t, q)
      ensures View(s, q, o) == View(t, q, o)
    {
      if q in s.pt && q != p && s.pt[q].onSwap {
        PageOutLocal(s, p, q);
      }
    }
  }

  /** Without room nothing is written: the page is lost, and everything else is as it was. */
  lemma EvictionLoses(s: State, p: nat)
    requires Inv(s) && Addressable(s) && p in s.pt && s.pt[p].valid && !HasRoom(s, p)
    ensures var t := HandleEviction(s, p);
            && t.swap == s.swap && t.pt == s.pt[p := Pte(s.pt[p].frame, INVALID_SWAP, false, false, true)]
            && Swapped(t) && SameView(s, t) && Lost(t, p)
  {
    var t := HandleEviction(s, p);
    AddressFits(s.pt[p].frame, |s.frames|);
    OwnersAfter(s.pt, s.swap, s.memory, p, t.pt[p]);
    LosingKeepsCopies(s, t, p);
  }

  lemma LosingKeepsCopies(s: State, t: State, p: nat)
    requires Copies(s) && p in s.pt && s.pt[p].valid
    requires t.swap == s.swap && t.memory == s.memory
    requires t.pt == s.pt[p := Pte(s.pt[p].frame, INVALID_SWAP, false, false, true)]
    ensures Copies(t) && SameView(s, t)
  {
    assert forall q | q in s.pt && s.pt[q].valid && !s.pt[q].dirty :: Saved(s, s.pt[q].swapOffset, s.pt[q].frame);
  }

  /**
   * Eviction keeps the invariant, empties the victim's frame and changes no page; it loses the
   * victim exactly when there is no room for it, and no other page.
   */
  lemma EvictionSound(s: State, p: nat)
    requires Inv(s) && Addressable(s) && p in s.pt && s.pt[p].valid
    ensures var t := HandleEviction(s, p);
            && Shape(t) && MappedBut(t, s.pt[p].frame) && Swapped(t) && SameView(s, t)
            && forall q: nat :: Lost(t, q) <==> Lost(s, q) || (q == p && !HasRoom(s, p))
  {
    EvictionMapped(s, p);
    EvictionLost(s, p);
    if HasRoom(s, p) {
      EvictionSlots(s, p);
      EvictionCopies(s, p);
      EvictionSameView(s, p);
    } else {
      EvictionLoses(s, p);
    }
  }

  /** Whatever the bytes are, eviction loses the victim exactly when there is no room for it, and no other page. */
  lemma EvictionLost(s: State, p: nat)
    requires Mapped(s) && p in s.pt && s.pt[p].valid
    ensures forall q: nat :: Lost(HandleEviction(s, p), q) <==> Lost(s, q) || (q == p && !HasRoom(s, p))
  {
    AddressFits(s.pt[p].frame, |s.frames|);
  }

  /** And it keeps the account of the slots. */
  lemma EvictionAccounted(s: State, p: nat)
    requires Mapped(s) && Accounted(s) && p in s.pt && s.pt[p].valid
    ensures Accounted(HandleEviction(s, p))
  {
    AddressFits(s.pt[p].frame, |s.frames|);
    OwnersAfter(s.pt, s.swap, s.memory, p, HandleEviction(s, p).pt[p]);
  }

  // ----- bringing a page in -----

  lemma FillSlots(s: State, p: nat, f: nat)
    requires Shape(s) && Swapped(s) && p in s.pt && !s.pt[p].valid && !Lost(s, p) && f < |s.frames|
    ensures Fill(s, p, f).Ran? && Slots(Fill(s, p, f).state)
  {
    assert SlotOwners(Fill(s, p, f).state.pt) == SlotOwners(s.pt);
  }

  lemma FillMapped(s: State, p: nat, f: nat)
    requires Shape(s) && MappedBut(s, f) && p in s.pt && !s.pt[p].valid && f < |s.frames|
    ensures Fill(s, p, f).Ran? ==> Mapped(Fill(s, p, f).state)
  {}

  /** Only the bytes of frame f change. */
  lemma FillLocal(s: State, p: nat, f: nat, g: nat, o: nat)
    requires Shape(s) && Swapped(s) && p in s.pt && !s.pt[p].valid && !Lost(s, p) && f < |s.frames|
    requires s.pt[p].onSwap ==> Addressable(s)
    requires g != f && o < FRAME_SIZE
    ensures Fill(s, p, f).Ran? && FrameByte(Fill(s, p, f).state.memory, g, o) == FrameByte(s.memory, g, o)
  {
    AddressFits(f, |s.frames|);
  }

  /** Frame f then holds what the page held. */
  lemma FillBrings(s: State, p: nat, f: nat, o: nat)
    requires Shape(s) && Swapped(s) && p in s.pt && !s.pt[p].valid && !Lost(s, p) && f < |s.frames|
    requires o < FRAME_SIZE && (s.pt[p].onSwap ==> Addressable(s))
    ensures Fill(s, p, f).Ran? && FrameByte(Fill(s, p, f).state.memory, f, o) == View(s, p, o)
  {
    AddressFits(f, |s.frames|);
    if s.pt[p].onSwap {
      assert GoodOffset(s.swap, s.pt[p].swapOffset);
    }
  }

  lemma FillCopies(s: State, p: nat, f: nat)
    requires Shape(s) && MappedBut(s, f) && Swapped(s) && p in s.pt && !s.pt[p].valid && !Lost(s, p) && f < |s.frames|
    requires s.pt[p].onSwap ==> Addressable(s)
    ensures Fill(s, p, f).Ran? && Copies(Fill(s, p, f).state)
  {
    var t := Fill(s, p, f).state;
    forall q | q in t.pt && t.pt[q].valid && !t.pt[q].dirty
      ensures t.pt[q].swapOffset != INVALID_SWAP && Saved(t, t.pt[q].swapOffset, t.pt[q].frame)
    {
      forall o: nat | o < FRAME_SIZE
        ensures SlotByte(t.swap.file, t.pt[q].swapOffset, o) == FrameByte(t.memory, t.pt[q].frame, o)
      {
        if q == p {
          FillBrings(s, p, f, o);
        } else {
          assert Saved(s, s.pt[q].swapOffset, s.pt[q].frame);
          FillLocal(s, p, f, s.pt[q].frame, o);
        }
      }
    }
  }

  lemma FillSameView(s: State, p: nat, f: nat)
    requires Shape(s) && MappedBut(s, f) && Swapped(s) && p in s.pt && !s.pt[p].valid && !Lost(s, p) && f < |s.frames|
    requires s.pt[p].onSwap ==> Addressable(s)
    ensures Fill(s, p, f).Ran? && SameView(s, Fill(s, p, f).state)
  {
    var t := Fill(s, p, f).state;
    forall q: nat, o: nat | o < FRAME_SIZE && !Lost(t, q)
      ensures View(s, q, o) == View(t, q, o)
    {
      if q == p {
        FillBrings(s, p, f, o);
      } else if q in s.pt && s.pt[q].valid {
        FillLocal(s, p, f, s.pt[q].frame, o);
      }
    }
  }

  lemma VacateMapped(s: State, victim: nat)
    requires Mapped(s) && victim < |s.frames|
    ensures Shape(Vacate(s, victim)) && MappedBut(Vacate(s, victim), ChosenFrame(s, victim))
    ensures forall p | p in s.pt && !s.pt[p].valid :: p in Vacate(s, victim).pt && Vacate(s, victim).pt[p] == s.pt[p]
  {
    if FreeFrame(s.frames).None? {
      EvictionMapped(s, s.frames[victim].page.value);
    }
  }

  /** The page a miss pushes out of memory for want of a free frame, without room for it on swap. */
  predicate PushedOut(s: State, victim: nat, q: nat)
    requires Mapped(s) && victim < |s.frames|
  {
    FreeFrame(s.frames).None? && s.frames[victim].page == Some(q) && !HasRoom(s, q)
  }

  /** A miss stops exactly on a lost page, and loses none but one pushed out. */
  lemma MissLost(s: State, p: nat, victim: nat)
    requires Mapped(s) && p in s.pt && !s.pt[p].valid && victim < |s.frames|
    ensures Miss(s, p, victim).AssertionFailed? <==> Lost(s, p)
    ensures !Lost(s, p) ==>
              forall q: nat :: Lost(Miss(s, p, victim).state, q) <==> Lost(s, q) || PushedOut(s, victim, q)
  {
    VacateMapped(s, victim);
    if FreeFrame(s.frames).None? {
      EvictionLost(s, s.frames[victim].page.value);
    }
    FillLost(Vacate(s, victim), p, ChosenFrame(s, victim));
  }

  lemma FillLost(s: State, p: nat, f: nat)
    requires Shape(s) && p in s.pt && !s.pt[p].valid && f < |s.frames|
    ensures Fill(s, p, f).AssertionFailed? <==> Lost(s, p)
    ensures !Lost(s, p) ==> forall q: nat :: Lost(Fill(s, p, f).state, q) <==> Lost(s, q)
  {}

  lemma FillAccounted(s: State, p: nat, f: nat)
    requires Shape(s) && Accounted(s) && p in s.pt && !s.pt[p].valid && f < |s.frames| && !Lost(s, p)
    ensures Accounted(Fill(s, p, f).state)
  {
    OwnersUpdate(s.pt, p, Fill(s, p, f).state.pt[p]);
  }

  lemma MissAccounted(s: State, p: nat, victim: nat)
    requires Mapped(s) && Accounted(s) && p in s.pt && !s.pt[p].valid && victim < |s.frames| && !Lost(s, p)
    ensures Miss(s, p, victim).Ran? && Accounted(Miss(s, p, victim).state)
  {
    VacateMapped(s, victim);
    MissLost(s, p, victim);
    if FreeFrame(s.frames).None? {
      EvictionAccounted(s, s.frames[victim].page.value);
    }
    FillAccounted(Vacate(s, victim), p, ChosenFrame(s, victim));
  }

  /** Emptying the chosen frame, by eviction or because it is free, keeps everything else. */
  lemma VacateSound(s: State, victim: nat)
    requires Inv(s) && victim < |s.frames| && (Addressable(s) || FreeFrame(s.frames).Some?)
    ensures var t, f := Vacate(s, victim), ChosenFrame(s, victim);
            && Shape(t) && MappedBut(t, f) && Swapped(t) && SameView(s, t)
            && (forall p | p in s.pt && !s.pt[p].valid :: p in t.pt && t.pt[p] == s.pt[p])
  {
    VacateMapped(s, victim);
    if FreeFrame(s.frames).None? {
      EvictionSound(s, s.frames[victim].page.value);
    }
  }

  /** Nothing is put out to swap or read from it to bring the page in. */
  predicate NeedsNoSwap(s: State, p: nat) {
    || (p in s.pt && s.pt[p].valid)
    || (FreeFrame(s.frames).Some? && (p in s.pt ==> !s.pt[p].onSwap))
  }

  /**
   * A miss stops exactly on a lost page; otherwise it keeps the invariant, makes the page resident
   * and changes no page, and loses none but one pushed out.
   */
  lemma MissSound(s: State, p: nat, victim: nat)
    requires Inv(s) && p in s.pt && !s.pt[p].valid && victim < |s.frames| && (Addressable(s) || NeedsNoSwap(s, p))
    ensures Miss(s, p, victim).AssertionFailed? <==> Lost(s, p)
    ensures !Lost(s, p) ==>
              var t := Miss(s, p, victim).state;
              && Inv(t) && SameView(s, t) && t.pt[p].valid && t.pt[p].frame == Miss(s, p, victim).frame
              && forall q: nat :: Lost(t, q) <==> Lost(s, q) || PushedOut(s, victim, q)
  {
    VacateSound(s, victim);
    MissLost(s, p, victim);
    if !Lost(s, p) {
      var u, f := Vacate(s, victim), ChosenFrame(s, victim);
      FillMapped(u, p, f);
      FillSlots(u, p, f);
      FillCopies(u, p, f);
      FillSameView(u, p, f);
    }
  }
}
