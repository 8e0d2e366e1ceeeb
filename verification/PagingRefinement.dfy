/**
 * The paging machinery looks like flat memory: over every run of accesses, under every policy,
 * each access finds at its address the byte last stored there.
 */
module PagingRefinement {
  import opened Options
  import opened Machine
  import opened Paging
  import opened PagingInvariant
  import opened Powers

  // ----- one access -----

  lemma LocateMapped(s: State, p: nat, victim: nat)
    requires Mapped(s) && p in s.pt && victim < |s.frames|
    ensures var r := Locate(s, p, victim);
            r.Ran? ==> Mapped(r.state) && |r.state.frames| == |s.frames|
                       && r.state.pt[p].valid && r.state.pt[p].frame == r.frame
  {
    if !s.pt[p].valid {
      var u := s.(stats := s.stats.(misses := Inc(s.stats.misses)));
      VacateMapped(u, victim);
      FillMapped(Vacate(u, victim), p, ChosenFrame(u, victim));
    }
  }

  lemma FinishMapped(s: State, p: nat, write: bool)
    requires Mapped(s) && p in s.pt
    ensures Mapped(Finish(s, p, write))
  {}

  /** The frames and entries stay matched whatever the policy answers and however small the swap file. */
  lemma TranslationMapped(s: State, a: Access, victim: nat)
    requires Mapped(s) && victim < |s.frames|
    ensures var r := GetFrameNumber(s, a, victim);
            r.Ran? ==> Mapped(r.state) && |r.state.frames| == |s.frames| && PageOf(a) in r.state.pt
                       && r.state.pt[PageOf(a)].valid && r.state.pt[PageOf(a)].frame == r.frame
  {
    var p := PageOf(a);
    WithEntryMapped(s, p);
    LocateMapped(WithEntry(s, p), p, victim);
    var r := Locate(WithEntry(s, p), p, victim);
    if r.Ran? {
      FinishMapped(r.state, p, IsWrite(a));
    }
  }

  lemma ExecuteMapped(s: State, a: Access, victim: nat)
    requires Mapped(s) && victim < |s.frames|
    ensures var r := Execute(s, a, victim);
            r.Done? ==> Mapped(r.next) && |r.next.frames| == |s.frames|
  {
    TranslationMapped(s, a, victim);
  }

  lemma WithEntrySound(s: State, p: nat)
    requires Inv(s)
    ensures Inv(WithEntry(s, p)) && SameView(s, WithEntry(s, p))
    ensures forall q: nat :: Lost(WithEntry(s, p), q) <==> Lost(s, q)
  {
    WithEntryMapped(s, p);
    SlotsKept(s, WithEntry(s, p));
    CopiesKept(s, WithEntry(s, p));
    WithEntryView(s, p);
  }

  /** A page without an entry reads as zero, as does one with a new entry. */
  lemma WithEntryView(s: State, p: nat)
    ensures SameView(s, WithEntry(s, p))
    ensures forall q: nat :: Lost(WithEntry(s, p), q) <==> Lost(s, q)
  {}

  /** Slots are kept as long as their owners are. */
  lemma SlotsKept(s: State, t: State)
    requires Slots(s) && t.swap == s.swap && s.pt.Keys <= t.pt.Keys
    requires forall q | q in t.pt :: t.pt[q].swapOffset == if q in s.pt then s.pt[q].swapOffset else INVALID_SWAP
    ensures Slots(t)
  {
    assert SlotOwners(t.pt) == SlotOwners(s.pt);
  }

  /** The copies of clean pages survive as long as entries, memory and file stay the same for them. */
  lemma CopiesKept(s: State, t: State)
    requires Copies(s) && t.memory == s.memory && t.swap == s.swap
    requires forall q | q in t.pt ::
               || t.pt[q] == NEW_PTE
               || (q in s.pt && (t.pt[q] == s.pt[q] || (s.pt[q].valid && t.pt[q] == s.pt[q].(dirty := true))))
    ensures Copies(t)
  {
    assert forall q | q in s.pt && s.pt[q].valid && !s.pt[q].dirty :: Saved(s, s.pt[q].swapOffset, s.pt[q].frame);
  }

  lemma CountingSound(s: State, stats: Stats)
    requires Inv(s)
    ensures Inv(s.(stats := stats)) && SameView(s, s.(stats := stats))
  {
    CopiesKept(s, s.(stats := stats));
  }

  lemma DirtyMapped(s: State, p: nat)
    requires Mapped(s) && p in s.pt
    ensures Mapped(SetDirty(s, p))
  {}

  lemma DirtySound(s: State, p: nat)
    requires Inv(s) && p in s.pt && s.pt[p].valid
    ensures Inv(SetDirty(s, p)) && SameView(s, SetDirty(s, p))
  {
    DirtyMapped(s, p);
    SlotsKept(s, SetDirty(s, p));
    CopiesKept(s, SetDirty(s, p));
  }

  lemma LocateSound(s: State, p: nat, victim: nat)
    requires Inv(s) && p in s.pt && victim < |s.frames| && (Addressable(s) || NeedsNoSwap(s, p))
    ensures var r := Locate(s, p, victim);
            && (r.AssertionFailed? <==> Lost(s, p))
            && (r.Ran? ==>
                  Inv(r.state) && SameView(s, r.state) && r.state.pt[p].valid && r.state.pt[p].frame == r.frame)
  {
    if s.pt[p].valid {
      CountingSound(s, s.stats.(hits := Inc(s.stats.hits)));
    } else {
      var u := s.(stats := s.stats.(misses := Inc(s.stats.misses)));
      CountingSound(s, u.stats);
      MissSound(u, p, victim);
    }
  }

  lemma FinishSound(s: State, p: nat, write: bool)
    requires Inv(s) && p in s.pt && s.pt[p].valid
    ensures Inv(Finish(s, p, write)) && SameView(s, Finish(s, p, write))
  {
    var t := if write then SetDirty(s, p) else s;
    if write {
      DirtySound(s, p);
    }
    CountingSound(t, t.stats.(refs := Inc(t.stats.refs)));
  }

  /** The access loses page q: it misses, no frame is free, and q is the victim and has no room on swap. */
  predicate Loses(s: State, a: Access, victim: nat, q: nat)
    requires Mapped(s) && victim < |s.frames|
  {
    (PageOf(a) in s.pt ==> !s.pt[PageOf(a)].valid) && PushedOut(s, victim, q)
  }

  /**
   * Translation fails exactly for a lost page. Otherwise it is transparent: the page becomes
   * resident, and no page changes.
   */
  lemma TranslationSound(s: State, a: Access, victim: nat)
    requires Inv(s) && victim < |s.frames| && (Addressable(s) || NeedsNoSwap(s, PageOf(a)))
    ensures var r := GetFrameNumber(s, a, victim);
            && (r.AssertionFailed? <==> Lost(s, PageOf(a)))
            && (r.Ran? ==>
                  && Inv(r.state) && SameView(s, r.state)
                  && PageOf(a) in r.state.pt && r.state.pt[PageOf(a)].valid && r.state.pt[PageOf(a)].frame == r.frame
                  && (IsWrite(a) ==> r.state.pt[PageOf(a)].dirty))
  {
    var p := PageOf(a);
    var t := WithEntry(s, p);
    WithEntrySound(s, p);
    LocateSound(t, p, victim);
    var r := Locate(t, p, victim);
    if r.Ran? {
      FinishSound(r.state, p, IsWrite(a));
    }
  }

  // ----- what an access loses -----

  lemma LocateLost(s: State, p: nat, victim: nat)
    requires Mapped(s) && p in s.pt && victim < |s.frames|
    ensures var r := Locate(s, p, victim);
            && (r.AssertionFailed? <==> Lost(s, p))
            && (r.Ran? ==>
                  forall q: nat :: Lost(r.state, q) <==> Lost(s, q) || (!s.pt[p].valid && PushedOut(s, victim, q)))
  {
    if !s.pt[p].valid {
      MissLost(s.(stats := s.stats.(misses := Inc(s.stats.misses))), p, victim);
    }
  }

  /**
   * However many frames there are, translation fails exactly on a lost page and loses none but a
   * victim without room.
   */
  lemma TranslationLost(s: State, a: Access, victim: nat)
    requires Mapped(s) && victim < |s.frames|
    ensures var r := GetFrameNumber(s, a, victim);
            && (r.AssertionFailed? <==> Lost(s, PageOf(a)))
            && (r.Ran? ==> forall q: nat :: Lost(r.state, q) <==> Lost(s, q) || Loses(s, a, victim, q))
  {
    var p := PageOf(a);
    var t := WithEntry(s, p);
    WithEntryMapped(s, p);
    WithEntryView(s, p);
    LocateLost(t, p, victim);
    var r := Locate(t, p, victim);
    if r.Ran? {
      forall q: nat
        ensures Lost(Finish(r.state, p, IsWrite(a)), q) <==> Lost(s, q) || Loses(s, a, victim, q)
      {
        assert PushedOut(t, victim, q) <==> PushedOut(s, victim, q);
        FinishLoses(r.state, p, IsWrite(a), q);
      }
    }
  }

  lemma FinishLoses(s: State, p: nat, write: bool, q: nat)
    requires p in s.pt
    ensures Lost(Finish(s, p, write), q) <==> Lost(s, q)
  {}

  /** So does an access that stays within its frame, whatever bytes it finds. */
  lemma ExecuteLost(s: State, a: Access, victim: nat)
    requires Mapped(s) && victim < |s.frames| && OffsetOf(a) < FRAME_SIZE
    ensures var r := Execute(s, a, victim);
            && (r.Stopped? <==> Lost(s, PageOf(a)))
            && (r.Done? ==>
                  && Mapped(r.next) && |r.next.frames| == |s.frames|
                  && PageOf(a) in r.next.pt && r.next.pt[PageOf(a)].valid
                  && forall q: nat :: Lost(r.next, q) <==> Lost(s, q) || Loses(s, a, victim, q))
  {
    TranslationLost(s, a, victim);
    TranslationMapped(s, a, victim);
    var r := GetFrameNumber(s, a, victim);
    if r.Ran? {
      InstructionLost(r.state, a, r.frame);
    }
  }

  lemma InstructionLost(s: State, a: Access, f: nat)
    requires Mapped(s) && f < |s.frames| && OffsetOf(a) < FRAME_SIZE
    ensures var r := Instruction(s, a, f);
            && r.Done? && Mapped(r.next) && r.next.pt == s.pt && r.next.frames == s.frames && r.next.swap == s.swap
            && forall q: nat :: Lost(r.next, q) <==> Lost(s, q)
  {
    if IsWrite(a) {
      StoreMapped(s, f * FRAME_SIZE + OffsetOf(a), a.value);
    }
  }

  /** The account of the slots is kept over every access. */
  lemma ExecuteAccounted(s: State, a: Access, victim: nat)
    requires Mapped(s) && Accounted(s) && victim < |s.frames|
    ensures var r := Execute(s, a, victim);
            r.Done? ==> Accounted(r.next)
  {
    var p := PageOf(a);
    WithEntryMapped(s, p);
    WithEntryAccounted(s, p);
    LocateAccounted(WithEntry(s, p), p, victim);
    var r := Locate(WithEntry(s, p), p, victim);
    if r.Ran? {
      FinishAccounted(r.state, p, IsWrite(a));
    }
  }

  lemma WithEntryAccounted(s: State, p: nat)
    requires Accounted(s)
    ensures Accounted(WithEntry(s, p))
  {
    assert SlotOwners(WithEntry(s, p).pt) == SlotOwners(s.pt);
  }

  lemma LocateAccounted(s: State, p: nat, victim: nat)
    requires Mapped(s) && Accounted(s) && p in s.pt && victim < |s.frames|
    ensures Locate(s, p, victim).Ran? ==> Accounted(Locate(s, p, victim).state)
  {
    if !s.pt[p].valid {
      var u := s.(stats := s.stats.(misses := Inc(s.stats.misses)));
      MissLost(u, p, victim);
      if !Lost(u, p) {
        MissAccounted(u, p, victim);
      }
    }
  }

  lemma FinishAccounted(s: State, p: nat, write: bool)
    requires Accounted(s) && p in s.pt
    ensures Accounted(Finish(s, p, write))
  {
    OwnersUpdate(s.pt, p, s.pt[p].(dirty := true));
  }

  // ----- one instruction -----

  /** What each page not lost holds after an access: the stored byte at its address, all else as before. */
  ghost predicate ViewAfter(s: State, t: State, a: Access) {
    && (forall p: nat | Lost(s, p) :: Lost(t, p))
    && forall p: nat, o: nat | o < FRAME_SIZE && !Lost(t, p) ::
      View(t, p, o) == if (a.kind == Store || a.kind == Modify) && p == PageOf(a) && o == OffsetOf(a) then a.value
                       else View(s, p, o)
  }

  /** A translated access stays within its frame. */
  lemma WithinFrame(s: State, p: nat, o: nat)
    requires Inv(s) && p in s.pt && s.pt[p].valid && o < FRAME_SIZE
    ensures s.pt[p].frame * FRAME_SIZE + o < |s.memory|
    ensures s.memory[s.pt[p].frame * FRAME_SIZE + o] == View(s, p, o)
  {}

  /** Storing one byte in the frame of a dirty page. */
  lemma StoreSound(s: State, p: nat, o: nat, v: Byte)
    requires Inv(s) && p in s.pt && s.pt[p].valid && s.pt[p].dirty && o < FRAME_SIZE
    requires s.pt[p].frame * FRAME_SIZE + o < |s.memory|
    ensures Swapped(s.(memory := s.memory[s.pt[p].frame * FRAME_SIZE + o := v]))
  {
    var f := s.pt[p].frame;
    var t := s.(memory := s.memory[f * FRAME_SIZE + o := v]);
    assert forall g: nat, i: nat | g != f && i < FRAME_SIZE :: FrameByte(t.memory, g, i) == FrameByte(s.memory, g, i);
    assert Slots(t);
    forall q | q in t.pt && t.pt[q].valid && !t.pt[q].dirty
      ensures t.pt[q].swapOffset != INVALID_SWAP && Saved(t, t.pt[q].swapOffset, t.pt[q].frame)
    {
      assert Saved(s, s.pt[q].swapOffset, s.pt[q].frame);
    }
  }

  lemma StoreMapped(s: State, address: nat, v: Byte)
    requires Mapped(s) && address < |s.memory|
    ensures Mapped(s.(memory := s.memory[address := v]))
  {}

  lemma StoreView(s: State, p: nat, o: nat, v: Byte, q: nat, i: nat)
    requires Inv(s) && p in s.pt && s.pt[p].valid && o < FRAME_SIZE && i < FRAME_SIZE
    requires s.pt[p].frame * FRAME_SIZE + o < |s.memory|
    ensures var t := s.(memory := s.memory[s.pt[p].frame * FRAME_SIZE + o := v]);
            View(t, q, i) == if q == p && i == o then v else View(s, q, i)
  {}

  lemma InstructionSound(s: State, a: Access)
    requires Inv(s) && PageOf(a) in s.pt && s.pt[PageOf(a)].valid && InTrace(a)
    requires IsWrite(a) ==> s.pt[PageOf(a)].dirty
    ensures var r := Instruction(s, a, s.pt[PageOf(a)].frame);
            && r.Done? && r.next.pt == s.pt && Inv(r.next) && ViewAfter(s, r.next, a)
            && r.byte == View(r.next, PageOf(a), OffsetOf(a))
  {
    if IsWrite(a) {
      StoreInstruction(s, a);
    } else {
      LoadInstruction(s, a);
    }
  }

  lemma LoadInstruction(s: State, a: Access)
    requires Inv(s) && PageOf(a) in s.pt && s.pt[PageOf(a)].valid && InTrace(a) && !IsWrite(a)
    ensures var r := Instruction(s, a, s.pt[PageOf(a)].frame);
            && r.Done? && r.next == s && ViewAfter(s, s, a) && r.byte == View(s, PageOf(a), OffsetOf(a))
  {
    WithinFrame(s, PageOf(a), OffsetOf(a));
  }

  lemma StoreInstruction(s: State, a: Access)
    requires Inv(s) && PageOf(a) in s.pt && s.pt[PageOf(a)].valid && s.pt[PageOf(a)].dirty && InTrace(a) && IsWrite(a)
    ensures var r := Instruction(s, a, s.pt[PageOf(a)].frame);
            && r.Done? && r.next.pt == s.pt && Inv(r.next) && ViewAfter(s, r.next, a)
            && r.byte == View(r.next, PageOf(a), OffsetOf(a))
  {
    WithinFrame(s, PageOf(a), OffsetOf(a));
    StoreKeeps(s, a);
    StoreView(s, PageOf(a), OffsetOf(a), a.value, PageOf(a), OffsetOf(a));
  }

  lemma StoreKeeps(s: State, a: Access)
    requires Inv(s) && PageOf(a) in s.pt && s.pt[PageOf(a)].valid && s.pt[PageOf(a)].dirty && InTrace(a)
    requires s.pt[PageOf(a)].frame * FRAME_SIZE + OffsetOf(a) < |s.memory| && IsWrite(a)
    ensures var t := s.(memory := s.memory[s.pt[PageOf(a)].frame * FRAME_SIZE + OffsetOf(a) := a.value]);
            Inv(t) && ViewAfter(s, t, a)
  {
    StoreSound(s, PageOf(a), OffsetOf(a), a.value);
    StoreMapped(s, s.pt[PageOf(a)].frame * FRAME_SIZE + OffsetOf(a), a.value);
    StoreViews(s, a);
  }

  lemma StoreViews(s: State, a: Access)
    requires Inv(s) && PageOf(a) in s.pt && s.pt[PageOf(a)].valid && InTrace(a)
    requires s.pt[PageOf(a)].frame * FRAME_SIZE + OffsetOf(a) < |s.memory| && IsWrite(a)
    ensures ViewAfter(s, s.(memory := s.memory[s.pt[PageOf(a)].frame * FRAME_SIZE + OffsetOf(a) := a.value]), a)
  {
    var t := s.(memory := s.memory[s.pt[PageOf(a)].frame * FRAME_SIZE + OffsetOf(a) := a.value]);
    forall q: nat, i: nat | i < FRAME_SIZE
      ensures View(t, q, i) == if q == PageOf(a) && i == OffsetOf(a) then a.value else View(s, q, i)
    {
      StoreView(s, PageOf(a), OffsetOf(a), a.value, q, i);
    }
  }

  /**
   * Executing an access of a trace stops exactly on a lost page. Otherwise it reads or leaves the
   * page's byte, changes no other, and loses no page but a victim without room.
   */
  lemma ExecuteSound(s: State, a: Access, victim: nat)
    requires Inv(s) && victim < |s.frames| && InTrace(a) && (Addressable(s) || NeedsNoSwap(s, PageOf(a)))
    ensures var r := Execute(s, a, victim);
            && (r.Stopped? <==> Lost(s, PageOf(a)))
            && (r.Done? ==>
                  && Inv(r.next) && ViewAfter(s, r.next, a)
                  && r.byte == View(r.next, PageOf(a), OffsetOf(a)) && !Lost(r.next, PageOf(a))
                  && forall q: nat :: Lost(r.next, q) <==> Lost(s, q) || Loses(s, a, victim, q))
  {
    TranslationSound(s, a, victim);
    ExecuteLost(s, a, victim);
    var r := GetFrameNumber(s, a, victim);
    if r.Ran? {
      InstructionSound(r.state, a);
    }
  }

  // ----- whole runs -----

  datatype Trace = Ended(bytes: seq<Byte>, final: State) | Broken(bytes: seq<Byte>)

  function Prepend(byte: Byte, r: Trace): Trace {
    match r
    case Ended(bytes, final) => Ended([byte] + bytes, final)
    case Broken(bytes) => Broken([byte] + bytes)
  }

  predicate AllBelow(victims: seq<nat>, n: nat) {
    forall i | 0 <= i < |victims| :: victims[i] < n
  }

  /** CSC369_SimulationRun: victims are the policy's answers, used or not, one for each access. */
  function Run(s: State, trace: seq<Access>, victims: seq<nat>): Trace
    requires Mapped(s) && |victims| == |trace| && AllBelow(victims, |s.frames|)
    decreases |trace|
  {
    if trace == [] then Ended([], s)
    else
      ExecuteMapped(s, trace[0], victims[0]);
      match Execute(s, trace[0], victims[0])
      case Stopped => Broken([])
      case Done(next, byte) => Prepend(byte, Run(next, trace[1..], victims[1..]))
  }

  /** A byte for each access, of those before the one a run stops at. */
  lemma {:induction false} RunLength(s: State, trace: seq<Access>, victims: seq<nat>)
    requires Mapped(s) && |victims| == |trace| && AllBelow(victims, |s.frames|)
    ensures var r := Run(s, trace, victims); if r.Ended? then |r.bytes| == |trace| else |r.bytes| < |trace|
    decreases |trace|
  {
    if trace != [] {
      ExecuteMapped(s, trace[0], victims[0]);
      var r := Execute(s, trace[0], victims[0]);
      if r.Done? {
        RunLength(r.next, trace[1..], victims[1..]);
      }
    }
  }

  lemma TailExtended<T>(s: seq<T>, x: T)
    ensures s != [] ==> (s + [x])[0] == s[0] && (s + [x])[1..] == s[1..] + [x]
    ensures s == [] ==> (s + [x])[1..] == []
  {}

  /** The bytes of the accesses before, and what the next one gives. */
  function Extend(bytes: seq<Byte>, step: Step): Trace {
    match step
    case Stopped => Broken(bytes)
    case Done(next, byte) => Ended(bytes + [byte], next)
  }

  lemma PrependExtended(byte: Byte, bytes: seq<Byte>, step: Step)
    ensures Prepend(byte, Extend(bytes, step)) == Extend([byte] + bytes, step)
  {
    if step.Done? {
      assert [byte] + (bytes + [step.byte]) == [byte] + bytes + [step.byte];
    }
  }

  /** A run one access longer: that access executed in the state the run ends in. */
  lemma {:induction false} RunExtended(s: State, trace: seq<Access>, victims: seq<nat>, a: Access, victim: nat)
    requires Mapped(s) && |victims| == |trace| && AllBelow(victims, |s.frames|) && victim < |s.frames|
    ensures AllBelow(victims + [victim], |s.frames|)
    ensures match Run(s, trace, victims)
            case Broken(_) => true
            case Ended(bytes, final) =>
              && Mapped(final) && |final.frames| == |s.frames|
              && Run(s, trace + [a], victims + [victim]) == Extend(bytes, Execute(final, a, victim))
    decreases |trace|
  {
    TailExtended(trace, a);
    TailExtended(victims, victim);
    if trace != [] {
      ExecuteMapped(s, trace[0], victims[0]);
      var r := Execute(s, trace[0], victims[0]);
      if r.Done? {
        RunExtended(r.next, trace[1..], victims[1..], a, victim);
        match Run(r.next, trace[1..], victims[1..])
        case Broken(_) =>
        case Ended(bytes, final) => PrependExtended(r.byte, bytes, Execute(final, a, victim));
      }
    }
  }

  /** What a run gives after other bytes. */
  function Append(bytes: seq<Byte>, r: Trace): Trace {
    match r
    case Ended(more, final) => Ended(bytes + more, final)
    case Broken(more) => Broken(bytes + more)
  }

  lemma PrependAppended(byte: Byte, bytes: seq<Byte>, r: Trace)
    ensures Prepend(byte, Append(bytes, r)) == Append([byte] + bytes, r) && Append([], r) == r
  {
    assert [byte] + (bytes + r.bytes) == [byte] + bytes + r.bytes && [] + r.bytes == r.bytes;
  }

  lemma TailConcat<T>(s: seq<T>, more: seq<T>)
    ensures s != [] ==> (s + more)[0] == s[0] && (s + more)[1..] == s[1..] + more
    ensures s == [] ==> s + more == more
  {}

  /** One run after another. */
  lemma {:induction false} RunConcat(s: State, trace: seq<Access>, victims: seq<nat>, more: seq<Access>,
      moreVictims: seq<nat>)
    requires Mapped(s) && |victims| == |trace| && AllBelow(victims, |s.frames|)
    requires |moreVictims| == |more| && AllBelow(moreVictims, |s.frames|)
    ensures AllBelow(victims + moreVictims, |s.frames|)
    ensures match Run(s, trace, victims)
            case Broken(_) => Run(s, trace + more, victims + moreVictims) == Run(s, trace, victims)
            case Ended(bytes, t) =>
              && Mapped(t) && |t.frames| == |s.frames|
              && Run(s, trace + more, victims + moreVictims) == Append(bytes, Run(t, more, moreVictims))
    decreases |trace|
  {
    TailConcat(trace, more);
    TailConcat(victims, moreVictims);
    if trace == [] {
      PrependAppended(0, [], Run(s, more, moreVictims));
    } else {
      ExecuteMapped(s, trace[0], victims[0]);
      var r := Execute(s, trace[0], victims[0]);
      if r.Done? {
        RunConcat(r.next, trace[1..], victims[1..], more, moreVictims);
        match Run(r.next, trace[1..], victims[1..])
        case Broken(_) =>
        case Ended(bytes, t) => PrependAppended(r.byte, bytes, Run(t, more, moreVictims));
      }
    }
  }

  ghost function Pages(trace: seq<Access>): set<nat> {
    set a | a in trace :: PageOf(a)
  }

  /** Every byte a trace can address is the same in the pages not lost as in flat memory. */
  ghost predicate Agrees(s: State, flat: map<nat, Byte>) {
    forall p: nat, o: nat | o < FRAME_SIZE && !Lost(s, p) :: View(s, p, o) == ByteAt(flat, p * PAGE_SIZE + o)
  }

  lemma AddressParts(a: Access, p: nat, o: nat)
    requires o < FRAME_SIZE
    ensures p * PAGE_SIZE + o == a.address <==> p == PageOf(a) && o == OffsetOf(a)
  {}

  lemma AgreesAfter(s: State, t: State, a: Access, flat: map<nat, Byte>)
    requires Agrees(s, flat) && ViewAfter(s, t, a) && InTrace(a)
    ensures Agrees(t, FlatStep(flat, a))
    ensures !Lost(t, PageOf(a)) ==> View(t, PageOf(a), OffsetOf(a)) == ByteAt(FlatStep(flat, a), a.address)
  {
    forall p: nat, o: nat | o < FRAME_SIZE && !Lost(t, p)
      ensures View(t, p, o) == ByteAt(FlatStep(flat, a), p * PAGE_SIZE + o)
    {
      AddressParts(a, p, o);
    }
    AddressParts(a, PageOf(a), OffsetOf(a));
  }

  /** The first n accesses get through and leave the page of the next one lost. */
  predicate LostAt(s: State, trace: seq<Access>, victims: seq<nat>, n: nat)
    requires Mapped(s) && |victims| == |trace| && AllBelow(victims, |s.frames|) && n < |trace|
  {
    var r := Run(s, trace[..n], victims[..n]);
    r.Ended? && Lost(r.final, PageOf(trace[n]))
  }

  /** The run found these bytes, or the first of them if it stopped. */
  predicate Found(r: Trace, bytes: seq<Byte>) {
    match r
    case Ended(found, _) => found == bytes
    case Broken(found) => |found| < |bytes| && found == bytes[..|found|]
  }

  lemma FoundPrepended(byte: Byte, r: Trace, bytes: seq<Byte>)
    requires Found(r, bytes)
    ensures Found(Prepend(byte, r), [byte] + bytes)
  {}

  /** One access finds what flat memory holds and leaves the two in agreement, unless it stops. */
  lemma StepRefines(s: State, a: Access, victim: nat, flat: map<nat, Byte>)
    requires Inv(s) && Agrees(s, flat) && victim < |s.frames| && InTrace(a)
    requires Addressable(s) || NeedsNoSwap(s, PageOf(a))
    ensures match Execute(s, a, victim)
            case Stopped => true
            case Done(t, byte) =>
              && Inv(t) && |t.frames| == |s.frames| && Agrees(t, FlatStep(flat, a))
              && byte == ByteAt(FlatStep(flat, a), a.address)
  {
    ExecuteSound(s, a, victim);
    ExecuteMapped(s, a, victim);
    var r := Execute(s, a, victim);
    if r.Done? {
      AgreesAfter(s, r.next, a, flat);
    }
  }

  /** From any state that agrees with flat memory the run of the pager is that of flat memory, as far as it goes. */
  lemma {:induction false} RunRefines(s: State, trace: seq<Access>, victims: seq<nat>, flat: map<nat, Byte>)
    requires Inv(s) && Agrees(s, flat) && Addressable(s)
    requires |victims| == |trace| && AllBelow(victims, |s.frames|)
    requires forall a | a in trace :: InTrace(a)
    ensures Found(Run(s, trace, victims), FlatRun(flat, trace))
    ensures Run(s, trace, victims).Ended? ==> Inv(Run(s, trace, victims).final)
    decreases |trace|
  {
    if trace != [] {
      StepRefines(s, trace[0], victims[0], flat);
      var r := Execute(s, trace[0], victims[0]);
      if r.Done? {
        var flat' := FlatStep(flat, trace[0]);
        RunRefines(r.next, trace[1..], victims[1..], flat');
        FoundPrepended(r.byte, Run(r.next, trace[1..], victims[1..]), FlatRun(flat', trace[1..]));
      }
    }
  }

  /** Any run within its frames stops at the first access to a page lost by then, and nowhere else. */
  lemma {:induction false} RunStops(s: State, trace: seq<Access>, victims: seq<nat>, n: nat)
    requires Mapped(s) && n < |trace|
    requires |victims| == |trace| && AllBelow(victims, |s.frames|)
    requires forall a | a in trace :: OffsetOf(a) < FRAME_SIZE
    ensures var r := Run(s, trace, victims);
            r.Broken? && |r.bytes| == n <==> LostAt(s, trace, victims, n)
    decreases |trace|
  {
    ExecuteLost(s, trace[0], victims[0]);
    LostFirst(s, trace, victims, n);
    if n > 0 && Execute(s, trace[0], victims[0]).Done? {
      PrefixOfTail(s, trace, victims, n - 1);
      RunStops(Execute(s, trace[0], victims[0]).next, trace[1..], victims[1..], n - 1);
    }
  }

  /** Before the first access no other has got through; after one that stops none does. */
  lemma LostFirst(s: State, trace: seq<Access>, victims: seq<nat>, n: nat)
    requires Mapped(s) && |victims| == |trace| && AllBelow(victims, |s.frames|) && n < |trace|
    ensures n == 0 ==> (LostAt(s, trace, victims, n) <==> Lost(s, PageOf(trace[0])))
    ensures n > 0 && Execute(s, trace[0], victims[0]).Stopped? ==> !LostAt(s, trace, victims, n)
  {
    if n == 0 {
      assert Run(s, trace[..0], victims[..0]) == Ended([], s);
    } else {
      assert trace[..n][0] == trace[0] && victims[..n][0] == victims[0];
    }
  }

  /** The run of a prefix begins with the first access. */
  lemma PrefixOfTail(s: State, trace: seq<Access>, victims: seq<nat>, n: nat)
    requires Mapped(s) && |victims| == |trace| && AllBelow(victims, |s.frames|) && n + 1 < |trace|
    requires Execute(s, trace[0], victims[0]).Done?
    ensures var t := Execute(s, trace[0], victims[0]).next;
            && Mapped(t) && AllBelow(victims[1..], |t.frames|)
            && (LostAt(t, trace[1..], victims[1..], n) <==> LostAt(s, trace, victims, n + 1))
  {
    ExecuteMapped(s, trace[0], victims[0]);
    assert trace[..n + 1][1..] == trace[1..][..n];
    assert victims[..n + 1][1..] == victims[1..][..n];
  }

  /** Full memory holds as many pages as it has frames. */
  lemma {:induction false} PagesHeld(s: State, k: nat) returns (held: set<nat>)
    requires Mapped(s) && k <= |s.frames| && forall f | 0 <= f < |s.frames| :: !s.frames[f].free
    ensures |held| == k && forall q | q in held :: q in s.pt && s.pt[q].valid && s.pt[q].frame < k
  {
    held := {};
    if k > 0 {
      held := PagesHeld(s, k - 1);
      assert s.pt[s.frames[k - 1].page.value].frame == k - 1;
      held := held + {s.frames[k - 1].page.value};
    }
  }

  /** A frame is free for a page not in memory while there are no more pages than frames. */
  lemma FrameLeft(s: State, p: nat, pages: set<nat>)
    requires Mapped(s) && s.pt.Keys <= pages && p in pages && |pages| <= |s.frames|
    requires p in s.pt ==> !s.pt[p].valid
    ensures FreeFrame(s.frames).Some?
  {
    if FreeFrame(s.frames).None? {
      var held := PagesHeld(s, |s.frames|);
      SubsetSize(held + {p}, pages);
    }
  }

  /** With a slot or a frame for each page an access loses none, and does not stop. */
  lemma StepEnds(s: State, a: Access, victim: nat, pages: set<nat>)
    requires Mapped(s) && Accounted(s) && (forall p: nat :: !Lost(s, p)) && victim < |s.frames|
    requires OffsetOf(a) < FRAME_SIZE && s.pt.Keys + {PageOf(a)} <= pages
    requires |pages| <= |s.swap.used| || |pages| <= |s.frames|
    ensures match Execute(s, a, victim)
            case Stopped => false
            case Done(t, _) =>
              && Mapped(t) && Accounted(t) && (forall p: nat :: !Lost(t, p)) && |t.frames| == |s.frames|
              && t.pt.Keys <= pages && |t.swap.used| == |s.swap.used|
  {
    ExecuteLost(s, a, victim);
    ExecuteAccounted(s, a, victim);
    ExecuteFrame(s, a, victim);
    SubsetSize(s.pt.Keys, pages);
    forall q: nat
      ensures !Loses(s, a, victim, q)
    {
      if q in s.pt && s.pt[q].swapOffset == INVALID_SWAP && |pages| <= |s.swap.used| {
        SlotLeft(s, q);
      } else if (PageOf(a) in s.pt ==> !s.pt[PageOf(a)].valid) && |pages| <= |s.frames| {
        FrameLeft(s, PageOf(a), pages);
      }
    }
  }

  lemma {:induction false} RunEnds(s: State, trace: seq<Access>, victims: seq<nat>, pages: set<nat>)
    requires Mapped(s) && Accounted(s) && forall p: nat :: !Lost(s, p)
    requires |victims| == |trace| && AllBelow(victims, |s.frames|)
    requires forall a | a in trace :: OffsetOf(a) < FRAME_SIZE && PageOf(a) in pages
    requires s.pt.Keys <= pages && (|pages| <= |s.swap.used| || |pages| <= |s.frames|)
    ensures Run(s, trace, victims).Ended?
    decreases |trace|
  {
    if trace != [] {
      StepEnds(s, trace[0], victims[0], pages);
      RunEnds(Execute(s, trace[0], victims[0]).next, trace[1..], victims[1..], pages);
    }
  }

  /** All pages touched are in memory, so nothing has been swapped. */
  ghost predicate Resident(s: State) {
    forall p | p in s.pt :: s.pt[p].valid
  }

  /** With a frame for each page none is ever put out. */
  lemma StepFits(s: State, a: Access, victim: nat, pages: set<nat>)
    requires Mapped(s) && Resident(s) && victim < |s.frames|
    requires s.pt.Keys + {PageOf(a)} <= pages && |pages| <= |s.frames|
    ensures NeedsNoSwap(s, PageOf(a))
    ensures match Execute(s, a, victim)
            case Stopped => true
            case Done(t, _) => Resident(t) && t.pt.Keys <= pages
  {
    ExecuteFrame(s, a, victim);
    WithEntryMapped(s, PageOf(a));
    if PageOf(a) !in s.pt {
      FrameLeft(s, PageOf(a), pages);
    }
  }

  /** The run of the pager is then that of flat memory, however many frames there are. */
  lemma {:induction false} RunFits(s: State, trace: seq<Access>, victims: seq<nat>, flat: map<nat, Byte>,
      pages: set<nat>)
    requires Inv(s) && Agrees(s, flat) && Resident(s)
    requires |victims| == |trace| && AllBelow(victims, |s.frames|)
    requires forall a | a in trace :: InTrace(a) && PageOf(a) in pages
    requires s.pt.Keys <= pages && |pages| <= |s.frames|
    ensures Found(Run(s, trace, victims), FlatRun(flat, trace))
    ensures Run(s, trace, victims).Ended? ==> Inv(Run(s, trace, victims).final)
    decreases |trace|
  {
    if trace != [] {
      StepFits(s, trace[0], victims[0], pages);
      StepRefines(s, trace[0], victims[0], flat);
      var r := Execute(s, trace[0], victims[0]);
      if r.Done? {
        var flat' := FlatStep(flat, trace[0]);
        RunFits(r.next, trace[1..], victims[1..], flat', pages);
        FoundPrepended(r.byte, Run(r.next, trace[1..], victims[1..]), FlatRun(flat', trace[1..]));
      }
    }
  }

  /** An access adds at most its own page, and the bitmap keeps its size. */
  lemma ExecuteFrame(s: State, a: Access, victim: nat)
    requires Mapped(s) && victim < |s.frames|
    ensures var r := Execute(s, a, victim);
            r.Done? ==> r.next.pt.Keys == s.pt.Keys + {PageOf(a)} && |r.next.swap.used| == |s.swap.used|
  {
    WithEntryMapped(s, PageOf(a));
    var u := WithEntry(s, PageOf(a));
    assert u.pt.Keys == s.pt.Keys + {PageOf(a)};
    LocateFrame(u, PageOf(a), victim);
  }

  lemma LocateFrame(s: State, p: nat, victim: nat)
    requires Mapped(s) && p in s.pt && victim < |s.frames|
    ensures var r := Locate(s, p, victim);
            r.Ran? ==> r.state.pt.Keys == s.pt.Keys && |r.state.swap.used| == |s.swap.used|
  {
    if !s.pt[p].valid {
      var u := s.(stats := s.stats.(misses := Inc(s.stats.misses)));
      VacateShape(u, victim);
      VacateSlots(u, victim);
    }
  }

  lemma VacateSlots(s: State, victim: nat)
    requires Mapped(s) && victim < |s.frames|
    ensures |Vacate(s, victim).swap.used| == |s.swap.used|
  {}

  // ----- from power-on -----

  /** The state CSC369_SimulationCreate builds: free frames, zeroed memory, an empty swap file. */
  function Init(frameCount: nat, slots: nat): State {
    State(map[], seq(frameCount, _ => Frame(true, None)), seq(frameCount * FRAME_SIZE, _ => 0),
          Swap(seq(slots, _ => false), []), Stats(0, 0, 0, 0, 0))
  }

  lemma InitInv(frameCount: nat, slots: nat)
    requires 1 <= frameCount
    ensures Inv(Init(frameCount, slots)) && Agrees(Init(frameCount, slots), map[])
    ensures Accounted(Init(frameCount, slots))
  {
    var s := Init(frameCount, slots);
    NoneUsed(s.swap.used);
    assert SlotOwners(s.pt) == {};
  }

  lemma {:induction false} NoneUsed(used: seq<bool>)
    requires forall i | 0 <= i < |used| :: !used[i]
    ensures CountUsed(used) == 0
  {
    if used != [] {
      NoneUsed(used[..|used| - 1]);
    }
  }

  /**
   * The promise of the simulator: whatever frames the replacement policy names, every access finds
   * at its address the byte last stored there, or zero. With a slot or a frame for each page of the
   * trace the run goes to its end; with fewer it may stop, and does so exactly where it needs a lost
   * page. All frames must be ones the swap functions find, or as many as there are pages.
   */
  lemma {:induction false} PagingRefinesFlatMemory(frameCount: nat, slots: nat, trace: seq<Access>, victims: seq<nat>)
    requires 1 <= frameCount && (frameCount <= MAX_FRAMES || |Pages(trace)| <= frameCount)
    requires |victims| == |trace| && AllBelow(victims, frameCount)
    requires forall a | a in trace :: InTrace(a)
    ensures Mapped(Init(frameCount, slots))
    ensures var r := Run(Init(frameCount, slots), trace, victims);
            && Found(r, FlatRun(map[], trace))
            && (r.Ended? ==> Inv(r.final))
            && forall n: nat | n < |trace| ::
                  r.Broken? && |r.bytes| == n <==> LostAt(Init(frameCount, slots), trace, victims, n)
    ensures |Pages(trace)| <= slots || |Pages(trace)| <= frameCount ==>
              Run(Init(frameCount, slots), trace, victims).Ended?
  {
    InitInv(frameCount, slots);
    var s := Init(frameCount, slots);
    if frameCount <= MAX_FRAMES {
      RunRefines(s, trace, victims, map[]);
    } else {
      RunFits(s, trace, victims, map[], Pages(trace));
    }
    forall n: nat | n < |trace|
      ensures Run(s, trace, victims).Broken? && |Run(s, trace, victims).bytes| == n <==> LostAt(s, trace, victims, n)
    {
      RunStops(s, trace, victims, n);
    }
    if |Pages(trace)| <= slots || |Pages(trace)| <= frameCount {
      RunEnds(s, trace, victims, Pages(trace));
    }
  }

  // ----- the mismatch log -----

  /** The accesses whose expected value was not found: the lines the simulator logs as errors. */
  function Mismatches(trace: seq<Access>, bytes: seq<Byte>): set<nat>
    requires |bytes| == |trace|
  {
    set i: nat | i < |trace| && (trace[i].kind == Load || trace[i].kind == Fetch) && bytes[i] != trace[i].value
  }

  /** A trace whose reads expect what flat memory holds. */
  ghost predicate Consistent(trace: seq<Access>) {
    Mismatches(trace, FlatRun(map[], trace)) == {}
  }

  /**
   * As far as the run goes, the simulator logs a mismatch exactly for the reads that expect another
   * value than flat memory's; in a run that ends, none exactly when the trace is consistent.
   */
  lemma LogIsExact(frameCount: nat, slots: nat, trace: seq<Access>, victims: seq<nat>)
    requires 1 <= frameCount && (frameCount <= MAX_FRAMES || |Pages(trace)| <= frameCount)
    requires |victims| == |trace| && AllBelow(victims, frameCount)
    requires forall a | a in trace :: InTrace(a)
    ensures Mapped(Init(frameCount, slots))
    ensures var r := Run(Init(frameCount, slots), trace, victims);
            var n, flat := |r.bytes|, Mismatches(trace, FlatRun(map[], trace));
            && n <= |trace| && Mismatches(trace[..n], r.bytes) == (set i | i in flat && i < n)
            && (r.Ended? ==> n == |trace| && (Mismatches(trace[..n], r.bytes) == {} <==> Consistent(trace)))
  {
    PagingRefinesFlatMemory(frameCount, slots, trace, victims);
    PrefixLogged(trace, Run(Init(frameCount, slots), trace, victims).bytes, FlatRun(map[], trace));
  }

  lemma PrefixLogged(trace: seq<Access>, bytes: seq<Byte>, flat: seq<Byte>)
    requires |bytes| <= |trace| == |flat| && bytes == flat[..|bytes|]
    ensures Mismatches(trace[..|bytes|], bytes) == (set i | i in Mismatches(trace, flat) && i < |bytes|)
  {}

  // ----- what a clean page means -----

  /** Writing a clean victim out again changes nothing, so paging out only dirty victims is the same. */
  lemma CleanVictimNeedsNoWrite(s: State, p: nat)
    requires Inv(s) && Addressable(s) && p in s.pt && s.pt[p].valid && !s.pt[p].dirty
    ensures SwapAddress(s.pt[p].frame) + FRAME_SIZE <= |s.memory|
    ensures PageOut(s.swap, s.memory, s.pt[p].frame, s.pt[p].swapOffset) == (s.swap, s.pt[p].swapOffset)
  {
    AddressFits(s.pt[p].frame, |s.frames|);
    var f, offset := s.pt[p].frame, s.pt[p].swapOffset;
    var (swap, o) := PageOut(s.swap, s.memory, f, offset);
    assert Saved(s, offset, f);
    forall i | 0 <= i < |swap.file|
      ensures swap.file[i] == s.swap.file[i]
    {
      if offset <= i < offset + FRAME_SIZE {
        assert SlotByte(s.swap.file, offset, i - offset) == FrameByte(s.memory, f, i - offset);
      }
    }
    assert swap.file == s.swap.file;
  }

  /** Eviction as the handout describes it: a clean page keeps the copy it has. */
  function EvictIfDirty(s: State, p: nat): State
    requires Mapped(s) && p in s.pt && s.pt[p].valid
  {
    if s.pt[p].dirty then HandleEviction(s, p)
    else s.(pt := s.pt[p := s.pt[p].(valid := false, onSwap := true)],
            stats := s.stats.(evictClean := Inc(s.stats.evictClean)))
  }

  /** In every reachable state the unconditional page-out of the code is that. */
  lemma DirtyOnlyIsEnough(s: State, p: nat)
    requires Inv(s) && Addressable(s) && p in s.pt && s.pt[p].valid
    ensures HandleEviction(s, p) == EvictIfDirty(s, p)
  {
    if !s.pt[p].dirty {
      CleanVictimNeedsNoWrite(s, p);
    }
  }
}
