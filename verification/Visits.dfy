/**
 * What a run does to the dirty bits and to the statistics, told from the accesses and the victims
 * alone: which pages are in memory, which of them have been changed since they came, and what was
 * counted.
 */
module Visits {
  import opened Options
  import opened Machine
  import opened Paging
  import opened PagingInvariant
  import opened PagingRefinement
  import opened Powers

  /**
   * held is the page in each frame; changed are the pages in memory that were zero-filled or
   * written since they came; known are the pages ever touched. The counts are unbounded.
   */
  datatype Residents = Residents(held: seq<Option<nat>>, changed: set<nat>, known: set<nat>, refs: nat, hits: nat,
                                 misses: nat, clean: nat, dirty: nat)

  function Empty(frameCount: nat): Residents {
    Residents(seq(frameCount, _ => None), {}, {}, 0, 0, 0, 0, 0)
  }

  /** Where page p goes: the first empty frame, or the victim's. */
  function Place(held: seq<Option<nat>>, victim: nat): (f: nat)
    requires victim < |held|
    ensures f < |held|
    ensures if None in held then held[f] == None && forall i | 0 <= i < f :: held[i] != None else f == victim
  {
    if None in held then FirstOf(held, None) else victim
  }

  function FirstOf<T(==)>(s: seq<T>, x: T): (f: nat)
    requires x in s
    ensures f < |s| && s[f] == x && forall i | 0 <= i < f :: s[i] != x
  {
    if s[0] == x then 0 else FirstOf(s[1..], x) + 1
  }

  function Visit(r: Residents, a: Access, victim: nat): (r': Residents)
    requires victim < |r.held|
    ensures |r'.held| == |r.held|
  {
    var p := PageOf(a);
    var written := if a.kind == Store || a.kind == Modify then {p} else {};
    if Some(p) in r.held then
      r.(changed := r.changed + written, refs := r.refs + 1, hits := r.hits + 1)
    else
      var f := Place(r.held, victim);
      var out := r.held[f];
      var left := if out.Some? then r.changed - {out.value} else r.changed;
      Residents(r.held[f := Some(p)],
                left + written + (if p in r.known then {} else {p}),
                r.known + {p}, r.refs + 1, r.hits, r.misses + 1,
                if out.Some? && out.value !in r.changed then r.clean + 1 else r.clean,
                if out.Some? && out.value in r.changed then r.dirty + 1 else r.dirty)
  }

  function VisitAll(r: Residents, trace: seq<Access>, victims: seq<nat>): (r': Residents)
    requires |victims| == |trace| && AllBelow(victims, |r.held|)
    decreases |trace|
  {
    if trace == [] then r else VisitAll(Visit(r, trace[0], victims[0]), trace[1..], victims[1..])
  }

  // ----- dirty bits -----

  /** A page out of memory is not dirty, and, but for page p, is on swap. */
  ghost predicate OutIsClean(pt: map<nat, Pte>, p: int) {
    forall q | q in pt && !pt[q].valid :: !pt[q].dirty && (q == p || pt[q].onSwap)
  }

  /** A page put out is not valid, not dirty and on swap, whatever it was; no other entry changes. */
  lemma EvictedEntry(s: State, p: nat)
    requires Mapped(s) && p in s.pt && s.pt[p].valid
    ensures var t := HandleEviction(s, p);
            && t.pt.Keys == s.pt.Keys && !t.pt[p].valid && !t.pt[p].dirty && t.pt[p].onSwap
            && (forall q | q in s.pt && q != p :: t.pt[q] == s.pt[q])
            && t.frames == s.frames
            && t.stats == if s.pt[p].dirty then s.stats.(evictDirty := Inc(s.stats.evictDirty))
                          else s.stats.(evictClean := Inc(s.stats.evictClean))
  {
    AddressFits(s.pt[p].frame, |s.frames|);
  }

  /** The page a miss evicts, if any. */
  function Outgoing(s: State, victim: nat): Option<nat>
    requires victim < |s.frames|
  {
    if FreeFrame(s.frames).Some? then None else s.frames[victim].page
  }

  /** The entries after a miss. */
  ghost predicate MissedEntries(s: State, t: State, p: nat, victim: nat)
    requires p in s.pt && victim < |s.frames|
  {
    && t.pt.Keys == s.pt.Keys
    && t.pt[p].valid && !t.pt[p].onSwap && (t.pt[p].dirty <==> !s.pt[p].onSwap || s.pt[p].dirty)
    && (forall q | q in s.pt && q != p ::
          if Outgoing(s, victim) == Some(q) then !t.pt[q].valid && !t.pt[q].dirty && t.pt[q].onSwap
          else t.pt[q] == s.pt[q])
  }

  lemma FillEntries(s: State, p: nat, f: nat)
    requires Shape(s) && p in s.pt && f < |s.frames| && Fill(s, p, f).Ran?
    ensures var t := Fill(s, p, f).state;
            && t.pt.Keys == s.pt.Keys && t.stats == s.stats && t.frames == s.frames[f := Frame(false, Some(p))]
            && t.pt[p].valid && !t.pt[p].onSwap && (t.pt[p].dirty <==> !s.pt[p].onSwap || s.pt[p].dirty)
            && (forall q | q in s.pt && q != p :: t.pt[q] == s.pt[q])
  {}

  lemma MissEntries(s: State, p: nat, victim: nat)
    requires Mapped(s) && p in s.pt && !s.pt[p].valid && victim < |s.frames| && Miss(s, p, victim).Ran?
    ensures MissedEntries(s, Miss(s, p, victim).state, p, victim)
    ensures Miss(s, p, victim).state.frames == s.frames[ChosenFrame(s, victim) := Frame(false, Some(p))]
    ensures Miss(s, p, victim).state.stats
         == match Outgoing(s, victim)
            case None => s.stats
            case Some(q) =>
              if q in s.pt && s.pt[q].dirty then s.stats.(evictDirty := Inc(s.stats.evictDirty))
              else s.stats.(evictClean := Inc(s.stats.evictClean))
  {
    VacateMapped(s, victim);
    if FreeFrame(s.frames).None? {
      EvictedEntry(s, s.frames[victim].page.value);
    }
    FillEntries(Vacate(s, victim), p, ChosenFrame(s, victim));
  }

  /** What a hit or a miss does to the entries. */
  ghost predicate LocatedEntries(s: State, t: State, p: nat)
    requires p in s.pt
  {
    && t.pt.Keys == s.pt.Keys && t.pt[p].valid
    && (t.pt[p].dirty <==> if s.pt[p].valid then s.pt[p].dirty else !s.pt[p].onSwap)
    && (forall q | q in t.pt && q != p && t.pt[q].valid :: t.pt[q] == s.pt[q])
    && OutIsClean(t.pt, -1)
  }

  lemma LocateEntries(s: State, p: nat, victim: nat)
    requires Mapped(s) && OutIsClean(s.pt, p) && p in s.pt && victim < |s.frames| && Locate(s, p, victim).Ran?
    ensures LocatedEntries(s, Locate(s, p, victim).state, p)
  {
    if !s.pt[p].valid {
      MissEntries(s.(stats := s.stats.(misses := Inc(s.stats.misses))), p, victim);
    }
  }

  /**
   * The entries before and after an access: its page is dirty exactly if the access writes, or the
   * page has just been zero-filled, or it was in memory and dirty; every other page still in memory
   * is as it was, and pages out of memory are not dirty.
   */
  ghost predicate Marked(before: map<nat, Pte>, after: map<nat, Pte>, a: Access) {
    var p := PageOf(a);
    && p in after && after[p].valid
    && (after[p].dirty <==>
          a.kind == Store || a.kind == Modify || p !in before || (before[p].valid && before[p].dirty))
    && (forall q | q in after && q != p && after[q].valid :: q in before && after[q] == before[q])
    && OutIsClean(after, -1)
  }

  /** What every translation that gets its frame does to the dirty bits. */
  lemma TranslationDirty(s: State, a: Access, victim: nat)
    requires Mapped(s) && OutIsClean(s.pt, -1) && victim < |s.frames| && GetFrameNumber(s, a, victim).Ran?
    ensures Marked(s.pt, GetFrameNumber(s, a, victim).state.pt, a)
  {
    WithEntryMapped(s, PageOf(a));
    LocateEntries(WithEntry(s, PageOf(a)), PageOf(a), victim);
  }

  // ----- one access -----

  ghost predicate HeldIs(frames: seq<Frame>, held: seq<Option<nat>>) {
    |held| == |frames| && forall f | 0 <= f < |frames| :: held[f] == if frames[f].free then None else frames[f].page
  }

  ghost predicate ChangedIs(pt: map<nat, Pte>, changed: set<nat>) {
    forall q: nat :: q in changed <==> q in pt && pt[q].valid && pt[q].dirty
  }

  /** The counters, of 32 bits. */
  function Counters(r: Residents): Stats {
    Stats(r.refs % UINT32, r.hits % UINT32, r.misses % UINT32, r.clean % UINT32, r.dirty % UINT32)
  }

  ghost predicate Tracks(s: State, r: Residents) {
    && HeldIs(s.frames, r.held) && r.known == s.pt.Keys && OutIsClean(s.pt, -1) && ChangedIs(s.pt, r.changed)
    && s.stats == Counters(r)
  }

  lemma IncIs(n: nat)
    ensures Inc(n % UINT32) == (n + 1) % UINT32
  {
    ModAdd(UINT32, n, 1);
  }

  lemma InMemory(s: State, held: seq<Option<nat>>, p: nat)
    requires Mapped(s) && HeldIs(s.frames, held)
    ensures Some(p) in held <==> p in s.pt && s.pt[p].valid
  {
    if Some(p) in held {
      var f :| 0 <= f < |held| && held[f] == Some(p);
      assert s.frames[f].page == Some(p);
    }
    if p in s.pt && s.pt[p].valid {
      assert held[s.pt[p].frame] == Some(p);
    }
  }

  lemma PlaceIs(s: State, held: seq<Option<nat>>, victim: nat)
    requires Mapped(s) && HeldIs(s.frames, held) && victim < |s.frames|
    ensures Place(held, victim) == ChosenFrame(s, victim) && held[Place(held, victim)] == Outgoing(s, victim)
  {
    assert forall f | 0 <= f < |held| :: held[f] == None <==> s.frames[f].free;
  }

  lemma HitTracks(s: State, r: Residents, a: Access, victim: nat)
    requires Mapped(s) && Tracks(s, r) && victim < |s.frames| && PageOf(a) in s.pt && s.pt[PageOf(a)].valid
    ensures GetFrameNumber(s, a, victim).Ran? && Tracks(GetFrameNumber(s, a, victim).state, Visit(r, a, victim))
  {
    InMemory(s, r.held, PageOf(a));
    IncIs(r.refs);
    IncIs(r.hits);
  }

  /** The state in which page p is missed. */
  function Missing(s: State, p: nat): (u: State)
    ensures p in u.pt && u.frames == s.frames
  {
    var u := WithEntry(s, p);
    u.(stats := u.stats.(misses := Inc(u.stats.misses)))
  }

  /** How t follows from u by a miss of page p. */
  ghost predicate Missed(u: State, t: State, p: nat, victim: nat)
    requires p in u.pt && victim < |u.frames|
  {
    && MissedEntries(u, t, p, victim)
    && t.frames == u.frames[ChosenFrame(u, victim) := Frame(false, Some(p))]
    && t.stats == match Outgoing(u, victim)
                  case None => u.stats
                  case Some(q) =>
                    if q in u.pt && u.pt[q].dirty then u.stats.(evictDirty := Inc(u.stats.evictDirty))
                    else u.stats.(evictClean := Inc(u.stats.evictClean))
  }

  /** A translation that misses is a miss and the end of a translation. */
  lemma Misses(s: State, a: Access, victim: nat) returns (t: State)
    requires Mapped(s) && victim < |s.frames| && (PageOf(a) in s.pt ==> !s.pt[PageOf(a)].valid)
    requires GetFrameNumber(s, a, victim).Ran?
    ensures Missed(Missing(s, PageOf(a)), t, PageOf(a), victim)
    ensures GetFrameNumber(s, a, victim).state == Finish(t, PageOf(a), IsWrite(a))
  {
    var u, p := Missing(s, PageOf(a)), PageOf(a);
    WithEntryMapped(s, p);
    MissEntries(u, p, victim);
    t := Miss(u, p, victim).state;
  }

  /** The page is new, and the one that goes, if any, is in memory. */
  ghost predicate Coming(s: State, r: Residents, p: nat, victim: nat) {
    && Tracks(s, r) && victim < |s.frames| && (p in s.pt ==> !s.pt[p].valid) && Some(p) !in r.held
    && Place(r.held, victim) == ChosenFrame(s, victim) && r.held[Place(r.held, victim)] == Outgoing(s, victim)
    && (Outgoing(s, victim).Some? ==>
          Outgoing(s, victim).value in s.pt && s.pt[Outgoing(s, victim).value].valid)
  }

  lemma IsComing(s: State, r: Residents, p: nat, victim: nat)
    requires Mapped(s) && Tracks(s, r) && victim < |s.frames| && (p in s.pt ==> !s.pt[p].valid)
    ensures Coming(s, r, p, victim)
  {
    InMemory(s, r.held, p);
    PlaceIs(s, r.held, victim);
  }

  lemma HeldAfter(s: State, r: Residents, a: Access, victim: nat, t: State)
    requires Coming(s, r, PageOf(a), victim) && Missed(Missing(s, PageOf(a)), t, PageOf(a), victim)
    ensures HeldIs(t.frames, Visit(r, a, victim).held) && Visit(r, a, victim).known == t.pt.Keys
  {}

  lemma ChangedAfter(s: State, r: Residents, a: Access, victim: nat, t: State)
    requires Coming(s, r, PageOf(a), victim) && Missed(Missing(s, PageOf(a)), t, PageOf(a), victim)
    ensures ChangedIs(Finish(t, PageOf(a), IsWrite(a)).pt, Visit(r, a, victim).changed)
  {}

  lemma CountedAfter(s: State, r: Residents, a: Access, victim: nat, t: State)
    requires Coming(s, r, PageOf(a), victim) && Missed(Missing(s, PageOf(a)), t, PageOf(a), victim)
    ensures Finish(t, PageOf(a), IsWrite(a)).stats == Counters(Visit(r, a, victim))
  {
    IncIs(r.refs);
    IncIs(r.misses);
    IncIs(r.clean);
    IncIs(r.dirty);
  }

  lemma MissTracks(s: State, r: Residents, a: Access, victim: nat)
    requires Mapped(s) && Tracks(s, r) && victim < |s.frames| && (PageOf(a) in s.pt ==> !s.pt[PageOf(a)].valid)
    requires GetFrameNumber(s, a, victim).Ran?
    ensures Tracks(GetFrameNumber(s, a, victim).state, Visit(r, a, victim))
  {
    IsComing(s, r, PageOf(a), victim);
    var t := Misses(s, a, victim);
    HeldAfter(s, r, a, victim, t);
    ChangedAfter(s, r, a, victim, t);
    CountedAfter(s, r, a, victim, t);
    TranslationDirty(s, a, victim);
  }

  /** The instruction itself changes neither entries nor frames nor counters. */
  lemma InstructionKeeps(s: State, a: Access, f: nat)
    requires Instruction(s, a, f).Done?
    ensures Instruction(s, a, f).next == s.(memory := Instruction(s, a, f).next.memory)
  {}

  lemma ExecuteTracks(s: State, r: Residents, a: Access, victim: nat)
    requires Mapped(s) && Tracks(s, r) && victim < |s.frames| && Execute(s, a, victim).Done?
    ensures Tracks(Execute(s, a, victim).next, Visit(r, a, victim))
  {
    if PageOf(a) in s.pt && s.pt[PageOf(a)].valid {
      HitTracks(s, r, a, victim);
    } else {
      MissTracks(s, r, a, victim);
    }
    var g := GetFrameNumber(s, a, victim);
    InstructionKeeps(g.state, a, g.frame);
  }

  /** The same of a whole access, and where its byte is. */
  lemma AccessDirty(s: State, a: Access, victim: nat)
    requires Mapped(s) && OutIsClean(s.pt, -1) && victim < |s.frames| && Execute(s, a, victim).Done?
    ensures var t, byte := Execute(s, a, victim).next, Execute(s, a, victim).byte;
            && Marked(s.pt, t.pt, a)
            && t.pt[PageOf(a)].frame * FRAME_SIZE + OffsetOf(a) < |t.memory|
            && byte == t.memory[t.pt[PageOf(a)].frame * FRAME_SIZE + OffsetOf(a)]
            && (a.kind == Store || a.kind == Modify ==> byte == a.value)
  {
    TranslationDirty(s, a, victim);
    TranslationMapped(s, a, victim);
    var g := GetFrameNumber(s, a, victim);
    InstructionKeeps(g.state, a, g.frame);
  }

  // ----- whole runs -----

  lemma {:induction false} RunTracks(s: State, r: Residents, trace: seq<Access>, victims: seq<nat>)
    requires Mapped(s) && Tracks(s, r)
    requires |victims| == |trace| && AllBelow(victims, |s.frames|)
    ensures match Run(s, trace, victims)
            case Broken(_) => true
            case Ended(_, final) => Tracks(final, VisitAll(r, trace, victims))
    decreases |trace|
  {
    if trace != [] {
      ExecuteMapped(s, trace[0], victims[0]);
      var step := Execute(s, trace[0], victims[0]);
      if step.Done? {
        ExecuteTracks(s, r, trace[0], victims[0]);
        RunTracks(step.next, Visit(r, trace[0], victims[0]), trace[1..], victims[1..]);
      }
    }
  }

  /**
   * At the end of every run the counters, modulo 2^32, and the dirty bits are those told from the
   * accesses and the victims, and no page out of memory is dirty.
   */
  lemma StatisticsFromTrace(frameCount: nat, slots: nat, trace: seq<Access>, victims: seq<nat>)
    requires 1 <= frameCount && |victims| == |trace| && AllBelow(victims, frameCount)
    ensures Mapped(Init(frameCount, slots))
    ensures match Run(Init(frameCount, slots), trace, victims)
            case Broken(_) => true
            case Ended(_, final) =>
              var r := VisitAll(Empty(frameCount), trace, victims);
              && final.stats == Counters(r)
              && (forall p: nat :: p in final.pt && final.pt[p].valid && final.pt[p].dirty <==> p in r.changed)
              && (forall p | p in final.pt && !final.pt[p].valid :: !final.pt[p].dirty)
  {
    InitInv(frameCount, slots);
    RunTracks(Init(frameCount, slots), Empty(frameCount), trace, victims);
  }

  // ----- the kinds of access -----

  /**
   * A store or a modify leaves its value in its page and the page dirty; a load or a fetch returns
   * the byte of its page and leaves all bytes as they are, and the dirty bit of a page in memory.
   */
  lemma KindsOfAccess(s: State, a: Access, victim: nat)
    requires Inv(s) && OutIsClean(s.pt, -1) && victim < |s.frames| && InTrace(a)
    requires (Addressable(s) || NeedsNoSwap(s, PageOf(a))) && !Lost(s, PageOf(a))
    ensures Execute(s, a, victim).Done?
    ensures var t, byte, p := Execute(s, a, victim).next, Execute(s, a, victim).byte, PageOf(a);
            && p in t.pt && t.pt[p].valid
            && (a.kind == Store || a.kind == Modify ==>
                  byte == a.value && View(t, p, OffsetOf(a)) == a.value && t.pt[p].dirty)
            && (a.kind == Load || a.kind == Fetch ==>
                  && byte == View(s, p, OffsetOf(a))
                  && (forall q: nat, o: nat | o < FRAME_SIZE && !Lost(t, q) :: View(t, q, o) == View(s, q, o))
                  && (t.pt[p].dirty <==> p !in s.pt || (s.pt[p].valid && s.pt[p].dirty)))
  {
    ExecuteSound(s, a, victim);
    TranslationDirty(s, a, victim);
    var g := GetFrameNumber(s, a, victim);
    InstructionKeeps(g.state, a, g.frame);
  }
}
