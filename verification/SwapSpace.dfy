/**
 * Where a run stops, told from the accesses and the victims alone: a page put out keeps a slot of the
 * swap file for good; one put out when all slots are taken is lost, and the next access to it stops.
 */
module SwapSpace {
  import opened Options
  import opened Machine
  import opened Paging
  import opened PagingInvariant
  import opened PagingRefinement
  import opened Visits

  /** The pages that have a slot, and those that are lost. */
  datatype Space = Space(saved: set<nat>, lost: set<nat>)

  /** The page an access puts out. */
  function PutOut(r: Residents, a: Access, victim: nat): Option<nat>
    requires victim < |r.held|
  {
    if Some(PageOf(a)) in r.held then None else r.held[Place(r.held, victim)]
  }

  function After(w: Space, slots: nat, out: Option<nat>): Space {
    match out
    case None => w
    case Some(q) =>
      if q in w.saved then w
      else if |w.saved| < slots then w.(saved := w.saved + {q})
      else w.(lost := w.lost + {q})
  }

  /** How many accesses get through. */
  function Reached(r: Residents, w: Space, slots: nat, trace: seq<Access>, victims: seq<nat>): (n: nat)
    requires |victims| == |trace| && AllBelow(victims, |r.held|)
    ensures n <= |trace|
    decreases |trace|
  {
    if trace == [] || PageOf(trace[0]) in w.lost then 0
    else
      Reached(Visit(r, trace[0], victims[0]), After(w, slots, PutOut(r, trace[0], victims[0])), slots, trace[1..],
              victims[1..]) + 1
  }

  ghost predicate SpaceIs(s: State, w: Space, slots: nat) {
    && Accounted(s) && |s.swap.used| == slots && w.saved == SlotOwners(s.pt)
    && forall q: nat :: q in w.lost <==> Lost(s, q)
  }

  /** There is a clear slot exactly when fewer pages have one than there are. */
  lemma ClearSlot(used: seq<bool>)
    ensures LowestClear(used).Some? <==> CountUsed(used) < |used|
  {
    CountUsedFull(used);
    if LowestClear(used).Some? {
      CountUsedUpdate(used, LowestClear(used).value);
      CountUsedFull(used[LowestClear(used).value := true]);
    }
  }

  /** Putting out page p. */
  lemma OwnersPutOut(s: State, w: Space, slots: nat, p: nat)
    requires Mapped(s) && SpaceIs(s, w, slots) && p in s.pt && s.pt[p].valid
    ensures HasRoom(s, p) <==> p in w.saved || |w.saved| < slots
    ensures SlotOwners(HandleEviction(s, p).pt) == After(w, slots, Some(p)).saved
  {
    ClearSlot(s.swap.used);
    AddressFits(s.pt[p].frame, |s.frames|);
    OwnersUpdate(s.pt, p, HandleEviction(s, p).pt[p]);
  }

  lemma FillOwners(s: State, p: nat, f: nat)
    requires Shape(s) && p in s.pt && f < |s.frames| && Fill(s, p, f).Ran?
    ensures SlotOwners(Fill(s, p, f).state.pt) == SlotOwners(s.pt)
  {
    OwnersUpdate(s.pt, p, Fill(s, p, f).state.pt[p]);
  }

  lemma MissOwners(s: State, w: Space, slots: nat, p: nat, victim: nat)
    requires Mapped(s) && SpaceIs(s, w, slots) && p in s.pt && !s.pt[p].valid && victim < |s.frames|
    requires Miss(s, p, victim).Ran?
    ensures SlotOwners(Miss(s, p, victim).state.pt) == After(w, slots, Outgoing(s, victim)).saved
  {
    VacateMapped(s, victim);
    if FreeFrame(s.frames).None? {
      OwnersPutOut(s, w, slots, s.frames[victim].page.value);
    }
    FillOwners(Vacate(s, victim), p, ChosenFrame(s, victim));
  }

  lemma TranslationOwners(s: State, r: Residents, w: Space, slots: nat, a: Access, victim: nat)
    requires Mapped(s) && Tracks(s, r) && SpaceIs(s, w, slots) && victim < |s.frames|
    requires GetFrameNumber(s, a, victim).Ran?
    ensures SlotOwners(GetFrameNumber(s, a, victim).state.pt) == After(w, slots, PutOut(r, a, victim)).saved
  {
    var p := PageOf(a);
    InMemory(s, r.held, p);
    PlaceIs(s, r.held, victim);
    if Some(p) in r.held {
      OwnersUpdate(s.pt, p, s.pt[p].(dirty := true));
    } else {
      WithEntryMapped(s, p);
      WithEntryAccounted(s, p);
      WithEntryView(s, p);
      assert SlotOwners(WithEntry(s, p).pt) == SlotOwners(s.pt);
      MissOwners(Missing(s, p), w, slots, p, victim);
      var t := Miss(Missing(s, p), p, victim).state;
      OwnersUpdate(t.pt, p, t.pt[p].(dirty := true));
    }
  }

  /** One access: it stops exactly on a lost page, and loses the page it puts out if there is no slot for it. */
  lemma AccessReaches(s: State, r: Residents, w: Space, slots: nat, a: Access, victim: nat)
    requires Mapped(s) && Tracks(s, r) && SpaceIs(s, w, slots) && victim < |s.frames| && OffsetOf(a) < FRAME_SIZE
    ensures match Execute(s, a, victim)
            case Stopped => PageOf(a) in w.lost
            case Done(t, _) => PageOf(a) !in w.lost && SpaceIs(t, After(w, slots, PutOut(r, a, victim)), slots)
  {
    ExecuteLost(s, a, victim);
    ExecuteAccounted(s, a, victim);
    ExecuteFrame(s, a, victim);
    if Execute(s, a, victim).Done? {
      TranslationOwners(s, r, w, slots, a, victim);
      var g := GetFrameNumber(s, a, victim);
      InstructionKeeps(g.state, a, g.frame);
      LostAfter(s, r, w, slots, a, victim);
    }
  }

  lemma LostAfter(s: State, r: Residents, w: Space, slots: nat, a: Access, victim: nat)
    requires Mapped(s) && Tracks(s, r) && SpaceIs(s, w, slots) && victim < |s.frames|
    ensures forall q: nat :: q in After(w, slots, PutOut(r, a, victim)).lost <==> Lost(s, q) || Loses(s, a, victim, q)
  {
    InMemory(s, r.held, PageOf(a));
    PlaceIs(s, r.held, victim);
    if FreeFrame(s.frames).None? {
      OwnersPutOut(s, w, slots, s.frames[victim].page.value);
    }
  }

  /** The same, and what is told of memory. */
  lemma AccessTold(s: State, r: Residents, w: Space, slots: nat, a: Access, victim: nat)
    requires Mapped(s) && Tracks(s, r) && SpaceIs(s, w, slots) && victim < |s.frames| && OffsetOf(a) < FRAME_SIZE
    ensures match Execute(s, a, victim)
            case Stopped => PageOf(a) in w.lost
            case Done(t, _) =>
              && PageOf(a) !in w.lost && SpaceIs(t, After(w, slots, PutOut(r, a, victim)), slots)
              && Mapped(t) && |t.frames| == |s.frames| && Tracks(t, Visit(r, a, victim))
  {
    ExecuteMapped(s, a, victim);
    AccessReaches(s, r, w, slots, a, victim);
    if Execute(s, a, victim).Done? {
      ExecuteTracks(s, r, a, victim);
    }
  }

  lemma {:induction false} RunReaches(s: State, r: Residents, w: Space, slots: nat, trace: seq<Access>,
      victims: seq<nat>)
    requires Mapped(s) && Tracks(s, r) && SpaceIs(s, w, slots)
    requires |victims| == |trace| && AllBelow(victims, |s.frames|)
    requires forall a | a in trace :: OffsetOf(a) < FRAME_SIZE
    ensures |Run(s, trace, victims).bytes| == Reached(r, w, slots, trace, victims)
    decreases |trace|
  {
    if trace != [] {
      AccessTold(s, r, w, slots, trace[0], victims[0]);
      var step := Execute(s, trace[0], victims[0]);
      if step.Done? {
        RunReaches(step.next, Visit(r, trace[0], victims[0]), After(w, slots, PutOut(r, trace[0], victims[0])), slots,
                   trace[1..], victims[1..]);
      }
    }
  }

  /** Every run whose accesses stay within a frame gets as far as is told from the accesses and the victims. */
  lemma LengthFromTrace(frameCount: nat, slots: nat, trace: seq<Access>, victims: seq<nat>)
    requires 1 <= frameCount && |victims| == |trace| && AllBelow(victims, frameCount)
    requires forall a | a in trace :: InTrace(a)
    ensures Mapped(Init(frameCount, slots))
    ensures var r, n := Run(Init(frameCount, slots), trace, victims),
                        Reached(Empty(frameCount), Space({}, {}), slots, trace, victims);
            |r.bytes| == n && (r.Ended? <==> n == |trace|)
  {
    InitInv(frameCount, slots);
    var s := Init(frameCount, slots);
    RunLength(s, trace, victims);
    RunReaches(s, Empty(frameCount), Space({}, {}), slots, trace, victims);
  }
}
