/**
 * One memory access of the simulator as a function on the whole state: page table entries,
 * coremap, physical memory, swap file and counters.
 */
module Paging {
  import opened Options
  import opened Machine
  import opened Powers

  datatype Pte = Pte(frame: nat, swapOffset: int, valid: bool, dirty: bool, onSwap: bool)

  const NEW_PTE := Pte(0, INVALID_SWAP, false, false, false)

  /** A coremap entry; page stands for its pte pointer. */
  datatype Frame = Frame(free: bool, page: Option<nat>)

  /** The bitmap of slots in use and the swap file's bytes. */
  datatype Swap = Swap(used: seq<bool>, file: seq<Byte>)

  datatype Stats = Stats(refs: nat, hits: nat, misses: nat, evictClean: nat, evictDirty: nat)

  datatype State = State(pt: map<nat, Pte>, frames: seq<Frame>, memory: seq<Byte>, swap: Swap, stats: Stats)

  /** uint32_t increment. */
  function Inc(n: nat): nat {
    (n + 1) % UINT32
  }

  // ----- swap -----

  /** The lowest clear bit, which CSC369_BitmapAlloc takes. */
  function LowestClear(used: seq<bool>): (r: Option<nat>)
    ensures r.Some? ==> r.value < |used| && !used[r.value] && forall i | 0 <= i < r.value :: used[i]
    ensures r.None? ==> forall i | 0 <= i < |used| :: used[i]
  {
    if used == [] then None
    else if !used[0] then Some(0)
    else
      match LowestClear(used[1..])
      case None => None
      case Some(i) => Some(i + 1)
  }

  /** Where the swap functions look for a frame: unsigned int arithmetic. */
  function SwapAddress(frame: nat): nat {
    frame % UINT32 * FRAME_SIZE % UINT32
  }

  /** write() of data at a position of the file, which grows as needed. */
  function WriteFile(file: seq<Byte>, pos: nat, data: seq<Byte>): (r: seq<Byte>)
    ensures |r| == if pos + |data| > |file| then pos + |data| else |file|
    ensures forall i {:trigger r[i]} | 0 <= i < |r| ::
              r[i] == if pos <= i < pos + |data| then data[i - pos] else if i < |file| then file[i] else 0
  {
    var n := if pos + |data| > |file| then pos + |data| else |file|;
    seq(n, i requires 0 <= i < n =>
      if pos <= i < pos + |data| then data[i - pos] else if i < |file| then file[i] else 0)
  }

  /** read() of a frame from a position of the file; past the end of the file it reads nothing. */
  function ReadFrame(memory: seq<Byte>, base: nat, file: seq<Byte>, pos: nat): (r: seq<Byte>)
    requires base + FRAME_SIZE <= |memory|
    ensures |r| == |memory|
    ensures forall i {:trigger r[i]} | 0 <= i < |r| ::
              r[i] == if base <= i < base + FRAME_SIZE && pos + i - base < |file| then file[pos + i - base]
                      else memory[i]
  {
    seq(|memory|, i requires 0 <= i < |memory| =>
      if base <= i < base + FRAME_SIZE && pos + i - base < |file| then file[pos + i - base] else memory[i])
  }

  function PageOut(swap: Swap, memory: seq<Byte>, frame: nat, offset: int): (Swap, int)
    requires SwapAddress(frame) + FRAME_SIZE <= |memory| && offset >= INVALID_SWAP
  {
    var data := memory[SwapAddress(frame)..SwapAddress(frame) + FRAME_SIZE];
    if offset == INVALID_SWAP then
      match LowestClear(swap.used)
      case None => (swap, INVALID_SWAP)
      case Some(i) => (Swap(swap.used[i := true], WriteFile(swap.file, i * FRAME_SIZE, data)), i * FRAME_SIZE)
    else
      (swap.(file := WriteFile(swap.file, offset, data)), offset)
  }

  // ----- invariant of the coremap -----

  /** Frames and valid entries point at each other; frame hole is exempt and no entry's. */
  ghost predicate MappedBut(s: State, hole: int) {
    && (forall p | p in s.pt && s.pt[p].valid ::
          s.pt[p].frame < |s.frames| && s.pt[p].frame != hole && s.frames[s.pt[p].frame] == Frame(false, Some(p)))
    && (forall f | 0 <= f < |s.frames| && f != hole && !s.frames[f].free ::
          s.frames[f].page.Some? && s.frames[f].page.value in s.pt
          && s.pt[s.frames[f].page.value].valid && s.pt[s.frames[f].page.value].frame == f)
  }

  /** The shape of the state: enough for every access to stay within its arrays. */
  ghost predicate Shape(s: State) {
    && 1 <= |s.frames|
    && |s.memory| == |s.frames| * FRAME_SIZE
    && (forall p | p in s.pt :: s.pt[p].swapOffset >= INVALID_SWAP)
    && (forall f | 0 <= f < |s.frames| && s.frames[f].free :: s.frames[f].page == None)
  }

  ghost predicate Mapped(s: State) {
    Shape(s) && MappedBut(s, -1)
  }

  /** The swap functions stay within the frames; below 2^28 they find the frame they look for. */
  lemma AddressFits(frame: nat, n: nat)
    requires frame < n
    ensures SwapAddress(frame) + FRAME_SIZE <= n * FRAME_SIZE
    ensures n <= MAX_FRAMES ==> SwapAddress(frame) == frame * FRAME_SIZE
  {
    AddressWraps(frame);
  }

  lemma AddressWraps(frame: nat)
    ensures SwapAddress(frame) == frame % MAX_FRAMES * FRAME_SIZE <= frame * FRAME_SIZE
  {
    var k, a := frame / UINT32, frame % UINT32;
    ModUnique(MAX_FRAMES, frame, FRAME_SIZE * k + a / MAX_FRAMES, a % MAX_FRAMES);
    ModUnique(UINT32, a * FRAME_SIZE, a / MAX_FRAMES, a % MAX_FRAMES * FRAME_SIZE);
  }

  // ----- eviction and allocation -----

  /** CSC369_MMHandleEviction. */
  function HandleEviction(s: State, p: nat): State
    requires Mapped(s) && p in s.pt && s.pt[p].valid
  {
    var pte := s.pt[p];
    AddressFits(pte.frame, |s.frames|);
    var stats := if pte.dirty then s.stats.(evictDirty := Inc(s.stats.evictDirty))
                 else s.stats.(evictClean := Inc(s.stats.evictClean));
    var (swap, offset) := PageOut(s.swap, s.memory, pte.frame, pte.swapOffset);
    s.(pt := s.pt[p := Pte(pte.frame, offset, false, false, true)], swap := swap, stats := stats)
  }

  /** The frame FindFreeFrame finds: the first free one. */
  function FreeFrame(frames: seq<Frame>): (r: Option<nat>)
    ensures r.Some? ==> r.value < |frames| && frames[r.value].free && forall i | 0 <= i < r.value :: !frames[i].free
    ensures r.None? ==> forall i | 0 <= i < |frames| :: !frames[i].free
  {
    if frames == [] then None
    else if frames[0].free then Some(0)
    else
      match FreeFrame(frames[1..])
      case None => None
      case Some(i) => Some(i + 1)
  }

  /** The frame a miss is given: a free one, or the victim the policy names. */
  function ChosenFrame(s: State, victim: nat): (f: nat)
    requires victim < |s.frames|
    ensures f < |s.frames|
  {
    match FreeFrame(s.frames)
    case Some(f) => f
    case None => victim
  }

  /** CSC369_CoremapAllocateFrame up to its bookkeeping: the chosen frame is emptied. */
  function Vacate(s: State, victim: nat): State
    requires Mapped(s) && victim < |s.frames|
  {
    if FreeFrame(s.frames).Some? then s else HandleEviction(s, s.frames[victim].page.value)
  }

  /** memset of one frame to zero. */
  function ClearFrame(memory: seq<Byte>, frame: nat): (r: seq<Byte>)
    requires (frame + 1) * FRAME_SIZE <= |memory|
    ensures |r| == |memory|
    ensures forall i {:trigger r[i]} | 0 <= i < |r| ::
              r[i] == if frame * FRAME_SIZE <= i < (frame + 1) * FRAME_SIZE then 0 else memory[i]
  {
    seq(|memory|, i requires 0 <= i < |memory| =>
      if frame * FRAME_SIZE <= i < (frame + 1) * FRAME_SIZE then 0 else memory[i])
  }

  datatype Outcome = Ran(state: State, frame: nat) | AssertionFailed

  /** The miss branch of CSC369_MMGetFrameNumber once frame f is empty. */
  function Fill(s: State, p: nat, f: nat): (r: Outcome)
    requires Shape(s) && p in s.pt && f < |s.frames|
    ensures r.Ran? ==> p in r.state.pt && r.frame == f
  {
    AddressFits(f, |s.frames|);
    var pte := s.pt[p];
    var frames := s.frames[f := Frame(false, Some(p))];
    if !pte.onSwap then
      Ran(s.(pt := s.pt[p := pte.(frame := f, dirty := true, valid := true)],
             frames := frames, memory := ClearFrame(s.memory, f)), f)
    else if pte.swapOffset == INVALID_SWAP then
      AssertionFailed // assert(offset != CSC369_INVALID_SWAP)
    else
      Ran(s.(pt := s.pt[p := pte.(frame := f, onSwap := false, valid := true)],
             frames := frames, memory := ReadFrame(s.memory, SwapAddress(f), s.swap.file, pte.swapOffset)), f)
  }

  /** CSC369_PageTableAllocate, as seen by the memory manager. */
  function WithEntry(s: State, p: nat): State {
    if p in s.pt then s else s.(pt := s.pt[p := NEW_PTE])
  }

  lemma WithEntryMapped(s: State, p: nat)
    requires Mapped(s)
    ensures Mapped(WithEntry(s, p))
  {}

  lemma VacateShape(s: State, victim: nat)
    requires Mapped(s) && victim < |s.frames|
    ensures Shape(Vacate(s, victim)) && Vacate(s, victim).pt.Keys == s.pt.Keys
    ensures Vacate(s, victim).frames == s.frames && Vacate(s, victim).memory == s.memory
  {}

  /** A page that is not resident: count the miss, empty a frame, bring the page in. */
  function Miss(s: State, p: nat, victim: nat): (r: Outcome)
    requires Mapped(s) && p in s.pt && !s.pt[p].valid && victim < |s.frames|
    ensures r.Ran? ==> p in r.state.pt
  {
    VacateShape(s, victim);
    Fill(Vacate(s, victim), p, ChosenFrame(s, victim))
  }

  /** Hit or miss: the frame of page p, and the count of it. */
  function Locate(s: State, p: nat, victim: nat): (r: Outcome)
    requires Mapped(s) && p in s.pt && victim < |s.frames|
    ensures r.Ran? ==> p in r.state.pt
  {
    if s.pt[p].valid then Ran(s.(stats := s.stats.(hits := Inc(s.stats.hits))), s.pt[p].frame)
    else Miss(s.(stats := s.stats.(misses := Inc(s.stats.misses))), p, victim)
  }

  function SetDirty(s: State, p: nat): State
    requires p in s.pt
  {
    s.(pt := s.pt[p := s.pt[p].(dirty := true)])
  }

  /** The end of CSC369_MMGetFrameNumber: a write dirties the page; the access is counted. */
  function Finish(s: State, p: nat, write: bool): State
    requires p in s.pt
  {
    var s := if write then SetDirty(s, p) else s;
    s.(stats := s.stats.(refs := Inc(s.stats.refs)))
  }

  /** CSC369_MMGetFrameNumber. */
  function GetFrameNumber(s: State, a: Access, victim: nat): Outcome
    requires Mapped(s) && victim < |s.frames|
  {
    var p := PageOf(a);
    match Locate(WithEntry(s, p), p, victim)
    case AssertionFailed => AssertionFailed
    case Ran(t, f) => Ran(Finish(t, p, IsWrite(a)), f)
  }

  /** The result of executing one access: the state after it and the byte at its address then. */
  datatype Step = Done(next: State, byte: Byte) | Stopped

  /** The load or store itself, in frame f of physical memory. */
  function Instruction(s: State, a: Access, f: nat): Step {
    var address := f * FRAME_SIZE + OffsetOf(a);
    if address >= |s.memory| then Stopped // outside physical memory
    else if IsWrite(a) then Done(s.(memory := s.memory[address := a.value]), a.value)
    else Done(s, s.memory[address])
  }

  /** ExecuteMemInstruction; the byte is what was stored, or what is compared with the trace. */
  function Execute(s: State, a: Access, victim: nat): Step
    requires Mapped(s) && victim < |s.frames|
  {
    match GetFrameNumber(s, a, victim)
    case AssertionFailed => Stopped
    case Ran(t, f) => Instruction(t, a, f)
  }
}
