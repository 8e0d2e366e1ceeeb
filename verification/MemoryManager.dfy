/**
 * csc369_mm.c, csc369_coremap.c and the instruction of csc369_simulation.c: page table, coremap,
 * physical memory, swap and replacement policy at work together.
 */
module MemoryManager {
  import opened Options
  import opened Machine
  import opened PageTables
  import opened Sequences
  import opened IntrusiveList
  import opened RadixTable
  import opened SwapFile
  import Refinement = PagingRefinement
  import opened Policies
  import opened Seals
  import Spec = Paging
  import PolicySpec
  import Visits

  function EntryOf(e: Pte): Spec.Pte
    reads e`frameNumber, e`swapOffset, e`valid, e`dirty, e`onSwap
  {
    Spec.Pte(e.frameNumber, e.swapOffset, e.valid, e.dirty, e.onSwap)
  }

  /** The entries in the heap of the pages, different ones for different pages. */
  ghost predicate Entries(pt: map<nat, Spec.Pte>, pages: map<nat, Pte>, owner: map<Pte, nat>)
    reads owner.Keys`frameNumber, owner.Keys`swapOffset, owner.Keys`valid, owner.Keys`dirty, owner.Keys`onSwap
  {
    && (forall n :: n in pt <==> n in pages)
    && (forall n {:trigger pages[n]} | n in pages ::
          pages[n] in owner && owner[pages[n]] == n && pt[n] == EntryOf(pages[n]))
  }

  /** The frames in the heap. */
  ghost predicate FramesAre(s: seq<Spec.Frame>, frames: seq<Frame>, pages: map<nat, Pte>)
    reads frames`free, frames`pte
  {
    && |s| == |frames|
    && (forall i {:trigger frames[i]} | 0 <= i < |frames| ::
          s[i].free == frames[i].free && frames[i].pte == PteOf(s[i].page, pages))
  }

  ghost function PteOf(page: Option<nat>, pages: map<nat, Pte>): Pte? {
    if page.Some? && page.value in pages then pages[page.value] else null
  }

  /** A page's entry is found, or a new one made for it. */
  lemma EntriesAdded(t: Spec.State, pages: map<nat, Pte>, owner: map<Pte, nat>, p: nat, e: Pte)
    requires Entries(t.pt, pages, owner)
    requires if p in pages then e == pages[p] else e !in owner && IsNew(e)
    ensures Entries(Spec.WithEntry(t, p).pt, pages[p := e], owner[e := p])
  {}

  lemma FramesAdded(t: Spec.State, frames: seq<Frame>, pages: map<nat, Pte>, p: nat, e: Pte)
    requires FramesAre(t.frames, frames, pages) && Spec.Mapped(t) && (p in t.pt <==> p in pages)
    requires p in pages ==> e == pages[p]
    ensures FramesAre(t.frames, frames, pages[p := e])
    ensures PtesOf(t.frames, pages[p := e]) == PtesOf(t.frames, pages)
  {
    forall i | 0 <= i < |frames|
      ensures PteOf(t.frames[i].page, pages[p := e]) == PteOf(t.frames[i].page, pages)
    {}
  }

  ghost function UsedOf(frames: seq<Spec.Frame>): (used: seq<bool>)
    ensures |used| == |frames| && forall i | 0 <= i < |frames| :: used[i] == !frames[i].free
  {
    seq(|frames|, i requires 0 <= i < |frames| => !frames[i].free)
  }

  ghost function PtesOf(frames: seq<Spec.Frame>, pages: map<nat, Pte>): (ptes: seq<Pte?>)
    ensures |ptes| == |frames| && forall i | 0 <= i < |frames| :: ptes[i] == PteOf(frames[i].page, pages)
  {
    seq(|frames|, i requires 0 <= i < |frames| => PteOf(frames[i].page, pages))
  }

  /** The reference bits of pages out of memory are clear. */
  ghost predicate Idle(pt: map<nat, Spec.Pte>, pages: map<nat, Pte>, owner: map<Pte, nat>)
    reads owner.Keys`reference
  {
    forall n {:trigger pages[n]} | n in pages && n in pt && !pt[n].valid :: pages[n] in owner && !pages[n].reference
  }

  /** The policy's view of the frames with page p in frame f. */
  lemma ViewsAfter(frames: seq<Spec.Frame>, pages: map<nat, Pte>, f: nat, p: nat)
    requires f < |frames| && p in pages
    ensures UsedOf(frames[f := Spec.Frame(false, Some(p))]) == UsedOf(frames)[f := true]
    ensures PtesOf(frames[f := Spec.Frame(false, Some(p))], pages) == PtesOf(frames, pages)[f := pages[p]]
  {}

  class Mm {
    const frames: seq<Frame>
    const swap: Swap
    const tree: Tree
    const physmem: array<Byte>
    const policy: Policy
    const address: nat // of the record itself, from the allocator
    ghost const keeper: object
    ghost const heads: set<Frame>
    var stats: Spec.Stats
    ghost var s: Spec.State
    ghost var pages: map<nat, Pte>
    ghost var owner: map<Pte, nat> // the page of each entry
    ghost var order: PolicySpec.Order // what the policy remembers

    /** The page table maps the pages, under a seal. */
    ghost predicate TreeSealed(seal: nat)
      reads this`pages, tree, tree.heap, tree.owners.Keys, tree.nodes`pageTable
    {
      if seal == 0 then tree.Sound(SEAL) && pages == tree.Pages() else TreeSealed(seal - 1)
    }

    ghost predicate TreeIs()
      reads this`pages, tree, tree.heap, tree.owners.Keys, tree.nodes`pageTable
    {
      TreeSealed(SEAL)
    }

    lemma {:induction false} BreakTree(seal: nat)
      ensures TreeSealed(seal) <==> tree.Sound(SEAL) && pages == tree.Pages()
    {
      if seal > 0 {
        BreakTree(seal - 1);
      }
    }

    /** The swap's contents, under a seal. */
    ghost predicate SwapSealed(seal: nat, c: Spec.Swap)
      reads swap`file, swap.swapmap.words
    {
      if seal == 0 then swap.Valid() && c == swap.Contents() else SwapSealed(seal - 1, c)
    }

    ghost predicate SwapIs(c: Spec.Swap)
      reads swap`file, swap.swapmap.words
    {
      swap.physmem == physmem && SwapSealed(SEAL, c)
    }

    lemma {:induction false} BreakSwap(seal: nat, c: Spec.Swap)
      ensures SwapSealed(seal, c) <==> swap.Valid() && c == swap.Contents()
    {
      if seal > 0 {
        BreakSwap(seal - 1, c);
      }
    }

    /** CSC369_MMCreate, from the coremap, swap and page table just created and a policy that keeps no frame yet. */
    constructor (frames: seq<Frame>, swap: Swap, tree: Tree, physmem: array<Byte>, policy: Policy, address: nat,
        ghost order: PolicySpec.Order)
      requires 1 <= |frames| && Distinct(frames)
      requires forall f | f in frames :: f.free && f.pte == null
      requires swap.Valid() && swap.physmem == physmem
      requires swap.Contents() == Spec.Swap(seq(swap.swapmap.nbits, _ => false), [])
      requires physmem.Length == |frames| * FRAME_SIZE && forall i | 0 <= i < physmem.Length :: physmem[i] == 0
      requires tree.Sound(SEAL) && tree.entries == map[]
      requires Keeps(policy, frames, seq(|frames|, _ => false), seq(|frames|, _ => null), {}, -1, order)
      ensures this.frames == frames && this.swap == swap && this.tree == tree && this.physmem == physmem
              && this.policy == policy && this.address == address && this.order == order
      ensures Is() && TreeIs() && PolicyIs(-1) && s == Refinement.Init(|frames|, swap.swapmap.nbits) && owner == map[]
    {
      this.frames, this.swap, this.tree, this.physmem := frames, swap, tree, physmem;
      this.policy, this.address := policy, address;
      keeper, heads, this.order := State(policy), Heads(policy), order;
      stats := Spec.Stats(0, 0, 0, 0, 0);
      s, pages, owner := Refinement.Init(|frames|, swap.swapmap.nbits), map[], map[];
      new;
      SwapCreated();
      HeapCreated();
      BreakTree(SEAL);
      PolicyCreated();
    }

    lemma SwapCreated()
      requires swap.Valid() && swap.physmem == physmem && s.swap == swap.Contents()
      ensures SwapIs(s.swap)
    {
      BreakSwap(SEAL, s.swap);
    }

    lemma HeapCreated()
      requires SwapIs(s.swap) && physmem.Length == |frames| * FRAME_SIZE && forall i | 0 <= i < physmem.Length ::
            physmem[i] == 0
      requires forall f | f in frames :: f.free && f.pte == null
      requires s == Refinement.Init(|frames|, swap.swapmap.nbits) && pages == map[] && owner == map[]
      ensures HeapSealed(SEAL, s, pages, owner) && |s.frames| == |frames| && |s.memory| == physmem.Length
    {
      Open();
    }

    lemma PolicyCreated()
      requires Keeps(policy, frames, seq(|frames|, _ => false), seq(|frames|, _ => null), {}, -1, order)
      requires s == Refinement.Init(|frames|, swap.swapmap.nbits) && pages == map[] && owner == map[]
      requires keeper == State(policy) && heads == Heads(policy)
      ensures PolicyIs(-1)
    {
      assert owner.Keys == {};
      assert UsedOf(s.frames) == seq(|frames|, _ => false);
      assert PtesOf(s.frames, pages) == seq(|frames|, _ => null);
    }

    /** All but the page table is as a state says. */
    ghost predicate Heap(t: Spec.State, pages: map<nat, Pte>, owner: map<Pte, nat>)
      reads frames`free, frames`pte, physmem, swap`file, swap.swapmap.words
      reads owner.Keys`frameNumber, owner.Keys`swapOffset, owner.Keys`valid, owner.Keys`dirty, owner.Keys`onSwap
    {
      && Entries(t.pt, pages, owner) && FramesAre(t.frames, frames, pages)
      && MemoryIs(t.memory) && SwapIs(t.swap)
    }

    /** The same under a seal. */
    ghost predicate HeapSealed(seal: nat, t: Spec.State, pages: map<nat, Pte>, owner: map<Pte, nat>)
      reads frames`free, frames`pte, physmem, swap`file, swap.swapmap.words
      reads owner.Keys`frameNumber, owner.Keys`swapOffset, owner.Keys`valid, owner.Keys`dirty, owner.Keys`onSwap
    {
      if seal == 0 then Heap(t, pages, owner) else HeapSealed(seal - 1, t, pages, owner)
    }

    ghost predicate Is()
      reads this, frames`free, frames`pte, physmem, swap`file, swap.swapmap.words
      reads owner.Keys`frameNumber, owner.Keys`swapOffset, owner.Keys`valid, owner.Keys`dirty, owner.Keys`onSwap
    {
      && |s.frames| == |frames| && Distinct(frames) && |s.memory| == physmem.Length && s.stats == stats
      && HeapSealed(SEAL, s, pages, owner)
    }

    lemma {:induction false} Break(seal: nat, t: Spec.State, pages: map<nat, Pte>, owner: map<Pte, nat>)
      ensures HeapSealed(seal, t, pages, owner) <==> Heap(t, pages, owner)
    {
      if seal > 0 {
        Break(seal - 1, t, pages, owner);
      }
    }

    lemma Open()
      ensures HeapSealed(SEAL, s, pages, owner) <==> Heap(s, pages, owner)
    {
      Break(SEAL, s, pages, owner);
    }

    ghost predicate MemoryIs(memory: seq<Byte>)
      reads physmem
    {
      memory == physmem[..]
    }

    /** The entry of page p. */
    lemma EntryFacts(p: nat)
      requires Is()
      ensures p in pages <==> p in s.pt
      ensures p in pages ==> pages[p] in owner && s.pt[p] == EntryOf(pages[p])
    {
      Open();
    }

    /** Frame f. */
    lemma FrameFacts(f: nat)
      requires Is()
      ensures f < |frames| ==> s.frames[f].free == frames[f].free && frames[f].pte == PteOf(s.frames[f].page, pages)
    {
      Open();
      if f < |frames| {
        assert frames[f].free == s.frames[f].free;
      }
    }

    /** FindFreeFrame. */
    method FindFreeFrame() returns (f: Option<nat>)
      requires Is()
      ensures f == Spec.FreeFrame(s.frames)
    {
      Open();
      for i := 0 to |frames|
        invariant forall j | 0 <= j < i :: !s.frames[j].free
      {
        if frames[i].free {
          FirstFree(s.frames, i);
          return Some(i);
        }
      }
      return None;
    }

    method SwapOut(frame: nat, offset: int, ghost c: Spec.Swap) returns (r: int, ghost c': Spec.Swap)
      requires SwapIs(c) && Spec.SwapAddress(frame) + FRAME_SIZE <= physmem.Length && offset >= INVALID_SWAP
      modifies swap`file, swap.swapmap.words
      ensures SwapIs(c') && (c', r) == Spec.PageOut(c, physmem[..], frame, offset)
    {
      BreakSwap(SEAL, c);
      r := swap.PageOut(frame, offset);
      c' := swap.Contents();
      BreakSwap(SEAL, c');
    }

    /** CSC369_SwapPageOut on the current state. */
    method PageOut(frame: nat, offset: int) returns (r: int)
      requires Is() && Spec.SwapAddress(frame) + FRAME_SIZE <= |s.memory| && offset >= INVALID_SWAP
      modifies this`s, swap`file, swap.swapmap.words
      ensures Is()
      ensures s == old(s).(swap := Spec.PageOut(old(s).swap, old(s).memory, frame, offset).0)
      ensures r == Spec.PageOut(old(s).swap, old(s).memory, frame, offset).1
    {
      ghost var c;
      Open();
      r, c := SwapOut(frame, offset, s.swap);
      s := s.(swap := c);
      Open();
    }

    /** The counting in CSC369_MMHandleEviction. */
    method CountEviction(dirty: bool)
      requires Is()
      modifies this`s, this`stats
      ensures Is()
      ensures s == old(s).(stats := if dirty then old(s).stats.(evictDirty := Spec.Inc(old(s).stats.evictDirty))
                                    else old(s).stats.(evictClean := Spec.Inc(old(s).stats.evictClean)))
    {
      Open();
      if dirty {
        stats := stats.(evictDirty := Spec.Inc(stats.evictDirty));
      } else {
        stats := stats.(evictClean := Spec.Inc(stats.evictClean));
      }
      s := s.(stats := stats);
      Open();
    }

    /** The setters of csc369_page_table.c, all at once; the table's shape does not depend on these fields. */
    method Store(e: Pte, v: Spec.Pte, ghost c: Spec.Swap, ghost p: nat)
      requires SwapIs(c) && Entries(s.pt, pages, owner) && p in pages && e == pages[p]
      modifies e`frameNumber, e`swapOffset, e`valid, e`dirty, e`onSwap
      ensures SwapIs(c) && Entries(s.pt[p := v], pages, owner) && EntryOf(e) == v
    {
      e.frameNumber, e.swapOffset, e.valid, e.dirty, e.onSwap := v.frame, v.swapOffset, v.valid, v.dirty, v.onSwap;
    }

    /** Setting fields of the entry of page p. */
    method Update(e: Pte, v: Spec.Pte, ghost p: nat)
      requires Is() && p in pages && e == pages[p]
      modifies this`s, e`frameNumber, e`swapOffset, e`valid, e`dirty, e`onSwap
      ensures Is() && s == old(s).(pt := old(s).pt[p := v]) && EntryOf(e) == v
    {
      Open();
      Store(e, v, s.swap, p);
      s := s.(pt := s.pt[p := v]);
      Open();
    }

    /** CSC369_MMHandleEviction. */
    method HandleEviction(victim: Pte, ghost p: nat)
      requires Is() && Spec.Mapped(s) && p in pages && victim == pages[p] && p in s.pt && s.pt[p].valid
      modifies this`s, this`stats, swap`file, swap.swapmap.words
      modifies victim`frameNumber, victim`swapOffset, victim`valid, victim`dirty, victim`onSwap
      ensures Is()
      ensures s == Spec.HandleEviction(old(s), p)
      ensures !victim.valid && !victim.dirty && victim.onSwap
    {
      EntryFacts(p);
      Spec.AddressFits(victim.frameNumber, |s.frames|);
      CountEviction(victim.dirty);
      var offset := PageOut(victim.frameNumber, victim.swapOffset);
      Update(victim, Spec.Pte(victim.frameNumber, offset, false, false, true), p);
    }

    // ----- coremap and policy -----

    /** The policy keeps the frames in use but frame hole; pages out of memory are not referenced. */
    ghost predicate PolicyFor(t: Spec.State, pages: map<nat, Pte>, owner: map<Pte, nat>, hole: int)
      reads this`order, State(policy), Linked(policy)`next, Linked(policy)`prev, frames`next, frames`prev,
          Heads(policy)`next, Heads(policy)`prev, owner.Keys`reference
    {
      && keeper == State(policy) && heads == Heads(policy) && Idle(t.pt, pages, owner)
      && Keeps(policy, frames, UsedOf(t.frames), PtesOf(t.frames, pages), owner.Keys, hole, order)
    }

    ghost predicate PolicyIs(hole: int)
      reads this, State(policy), Linked(policy)`next, Linked(policy)`prev, frames`next, frames`prev,
          Heads(policy)`next, Heads(policy)`prev, owner.Keys`reference
    {
      PolicyFor(s, pages, owner, hole)
    }

    /** What a policy may assume of the frames. */
    lemma FramesPlaced()
      requires Is() && Spec.Mapped(s)
      ensures Placed(frames, UsedOf(s.frames), PtesOf(s.frames, pages), owner.Keys)
      ensures UnusedEmpty(frames, UsedOf(s.frames))
    {
      Open();
      forall i {:trigger frames[i]} | 0 <= i < |frames| && !s.frames[i].free
        ensures frames[i].pte == PteOf(s.frames[i].page, pages) && frames[i].pte != null && frames[i].pte in owner
                && frames[i].pte.frameNumber == i
      {
        var p := s.frames[i].page.value;
        assert pages[p] in owner && s.pt[p] == EntryOf(pages[p]);
      }
    }

    /** A page that is not valid is in no frame. */
    lemma Elsewhere()
      requires Is() && Spec.Mapped(s)
      ensures forall n {:trigger pages[n]} | n in pages && n in s.pt && !s.pt[n].valid ::
            pages[n] in owner && pages[n] !in PtesOf(s.frames, pages)
    {
      Open();
    }

    /** The coremap's record of a frame's page. */
    method Occupy(frame: Frame, e: Pte, ghost f: nat, ghost p: nat)
      requires Is() && f < |frames| && frame == frames[f] && p in pages && e == pages[p]
      modifies this`s, frame`free, frame`pte
      ensures Is() && s == old(s).(frames := old(s).frames[f := Spec.Frame(false, Some(p))])
    {
      Open();
      s := s.(frames := s.frames[f := Spec.Frame(false, Some(p))]);
      frame.free := false;
      frame.pte := e;
      Open();
    }

    /** CSC369_Evict of the frames. */
    method NameVictim() returns (f: nat)
      requires Is() && Spec.Mapped(s) && PolicyIs(-1) && Spec.FreeFrame(s.frames) == None
      modifies this`order, owner.Keys`reference
      modifies State(policy), frames`next, frames`prev, Heads(policy)`next, Heads(policy)`prev
      ensures f < |frames| && PolicySpec.Known(PolicySpec.Named(old(order), |frames|, f, order))
      ensures PolicyIs(f) && frames[f].pte != null && !frames[f].pte.reference
    {
      FramesPlaced();
      Elsewhere();
      ghost var o := order;
      f := Evict(policy, frames, UsedOf(s.frames), PtesOf(s.frames, pages), owner.Keys, o);
      order := PolicySpec.Evicted(o, |frames|);
      PolicySpec.BreakClaim(SEAL, PolicySpec.Named(o, |frames|, f, order));
    }

    /** Which leaves everything else as it is. */
    method NameVictimKept() returns (f: nat)
      requires Is() && Spec.Mapped(s) && PolicyIs(-1) && Spec.FreeFrame(s.frames) == None
      modifies this`order, owner.Keys`reference
      modifies State(policy), frames`next, frames`prev, Heads(policy)`next, Heads(policy)`prev
      ensures f < |frames| && PolicySpec.Known(PolicySpec.Named(old(order), |frames|, f, order))
      ensures Is() && PolicyIs(f) && frames[f].pte != null && !frames[f].pte.reference
    {
      f := NameVictim();
    }

    /** A page whose reference bit is clear is put out; the policy is not concerned. */
    method PutOut(victim: Pte, ghost p: nat, ghost hole: int)
      requires Is() && Spec.Mapped(s) && PolicyIs(hole) && p in pages && victim == pages[p] && p in s.pt
              && s.pt[p].valid && !victim.reference
      modifies this`s, this`stats, swap`file, swap.swapmap.words
      modifies victim`frameNumber, victim`swapOffset, victim`valid, victim`dirty, victim`onSwap
      ensures Is() && s == Spec.HandleEviction(old(s), p) && PolicyIs(hole)
    {
      EntryFacts(p);
      HandleEviction(victim, p);
    }

    /** A victim is named, and its page put out to swap. */
    method EvictVictim() returns (f: nat)
      requires Is() && Spec.Mapped(s) && PolicyIs(-1) && Spec.FreeFrame(s.frames) == None
      modifies this`s, this`order, this`stats, swap`file, swap.swapmap.words
      modifies owner.Keys`frameNumber, owner.Keys`swapOffset, owner.Keys`valid, owner.Keys`dirty, owner.Keys`onSwap,
          owner.Keys`reference
      modifies State(policy), frames`next, frames`prev, Heads(policy)`next, Heads(policy)`prev
      ensures f < |frames| && PolicySpec.Known(PolicySpec.Named(old(order), |frames|, f, order))
      ensures Is() && s == Spec.Vacate(old(s), f) && PolicyIs(f)
    {
      f := NameVictimKept();
      ghost var p := VictimFacts(f);
      var victim := frames[f].pte;
      PutOut(victim, p, f);
    }

    /** The page in the frame the policy has named. */
    lemma VictimFacts(f: nat) returns (p: nat)
      requires Is() && Spec.Mapped(s) && f < |frames| && Spec.FreeFrame(s.frames) == None
      ensures s.frames[f].page == Some(p) && p in s.pt && s.pt[p].valid
      ensures p in pages && frames[f].pte == pages[p] && pages[p] in owner
      ensures Spec.Vacate(s, f) == Spec.HandleEviction(s, p)
    {
      FramesPlaced();
      FrameFacts(f);
      p := s.frames[f].page.value;
      EntryFacts(p);
    }

    /** The policy's view once frame f holds the page. */
    lemma Filled(f: nat, e: Pte, before: seq<Spec.Frame>, p: nat)
      requires |before| == |frames| && f < |frames| && s.frames == before[f := Spec.Frame(false, Some(p))]
      requires Distinct(frames) && p in pages && e == pages[p] && e in owner && !e.reference
      requires before[f].free ==> Spec.FreeFrame(before) == Some(f)
      requires Keeps(policy, frames, UsedOf(before), PtesOf(before, pages), owner.Keys,
                     if before[f].free then -1 else f, order)
      ensures Keeps(policy, frames, UsedOf(s.frames), PtesOf(s.frames, pages), owner.Keys, f, order)
    {
      var used, ptes := UsedOf(before), PtesOf(before, pages);
      ViewsAfter(before, pages, f, p);
      if before[f].free {
        HoleFilled(policy, frames, used, ptes, owner.Keys, f, e, order);
      } else {
        HoleRefilled(policy, frames, used, ptes, owner.Keys, f, e, order);
        assert used == used[f := true];
      }
    }

    /** The end of CSC369_CoremapAllocateFrame. */
    method Place(f: nat, e: Pte, ghost p: nat)
      requires Is() && f < |frames| && p in pages && e == pages[p] && p in s.pt && !s.pt[p].valid
      requires if s.frames[f].free then PolicyIs(-1) && Spec.FreeFrame(s.frames) == Some(f) else PolicyIs(f)
      modifies this`s, frames`free, frames`pte
      ensures Is() && s == old(s).(frames := old(s).frames[f := Spec.Frame(false, Some(p))]) && PolicyIs(f)
    {
      EntryFacts(p);
      Occupy(frames[f], e, f, p);
      Filled(f, e, old(s).frames, p);
    }

    /** A free frame, or one emptied by eviction. */
    method ChooseFrame(ghost p: nat) returns (f: nat, ghost victim: nat)
      requires Is() && Spec.Mapped(s) && PolicyIs(-1) && p in s.pt && !s.pt[p].valid
      modifies this`s, this`order, this`stats, swap`file, swap.swapmap.words
      modifies owner.Keys`frameNumber, owner.Keys`swapOffset, owner.Keys`valid, owner.Keys`dirty, owner.Keys`onSwap,
          owner.Keys`reference
      modifies State(policy), frames`next, frames`prev, Heads(policy)`next, Heads(policy)`prev
      ensures PolicySpec.Known(PolicySpec.Asked(old(s), old(order), p, victim, order))
      ensures victim < |frames| && f == Spec.ChosenFrame(old(s), victim) && s == Spec.Vacate(old(s), victim)
      ensures Is() && if s.frames[f].free then PolicyIs(-1) && Spec.FreeFrame(s.frames) == Some(f) else PolicyIs(f)
    {
      var found := FindFreeFrame();
      if found == None {
        f := EvictVictim();
        victim := f;
        PolicySpec.AskedBy(old(s), old(order), p, f, order);
      } else {
        f, victim := found.value, 0;
        PolicySpec.NotAsked(s, order, p);
      }
    }

    /** CSC369_CoremapAllocateFrame. */
    method AllocateFrame(e: Pte, ghost p: nat) returns (f: nat, ghost victim: nat)
      requires Is() && Spec.Mapped(s) && PolicyIs(-1) && p in pages && e == pages[p] && p in s.pt && !s.pt[p].valid
      modifies this`s, this`order, this`stats, swap`file, swap.swapmap.words, frames`free, frames`pte
      modifies owner.Keys`frameNumber, owner.Keys`swapOffset, owner.Keys`valid, owner.Keys`dirty, owner.Keys`onSwap,
          owner.Keys`reference
      modifies State(policy), frames`next, frames`prev, Heads(policy)`next, Heads(policy)`prev
      ensures PolicySpec.Known(PolicySpec.Asked(old(s), old(order), p, victim, order))
      ensures victim == PolicySpec.Answer(old(s), old(order), p) && order == PolicySpec.Answered(old(s), old(order), p)
      ensures Is() && victim < |frames| && f == Spec.ChosenFrame(old(s), victim) && PolicyIs(f)
      ensures s == Spec.Vacate(old(s), victim).(frames := old(s).frames[f := Spec.Frame(false, Some(p))])
    {
      f, victim := ChooseFrame(p);
      Spec.VacateShape(old(s), victim);
      Place(f, e, p);
      PolicySpec.BreakClaim(SEAL, PolicySpec.Asked(old(s), old(order), p, victim, order));
    }

    // ----- memory -----

    /** CSC369_CoremapClearFrame. */
    method ClearFrame(f: nat)
      requires Is() && Spec.Shape(s) && f < |frames|
      modifies this`s, physmem
      ensures Is() && s == old(s).(memory := Spec.ClearFrame(old(s).memory, f))
    {
      Open();
      Zero(physmem, f);
      s := s.(memory := physmem[..]);
      Open();
    }

    /** CSC369_SwapPageIn on the current state. */
    method PageIn(f: nat, offset: int)
      requires Is() && Spec.Shape(s) && f < |frames| && offset >= 0
      modifies this`s, physmem
      ensures Spec.SwapAddress(f) + FRAME_SIZE <= |s.memory| && |old(s).memory| == |s.memory|
      ensures Is()
      ensures s == old(s).(memory := Spec.ReadFrame(old(s).memory, Spec.SwapAddress(f), old(s).swap.file, offset))
    {
      Spec.AddressFits(f, |frames|);
      Open();
      SwapIn(f, offset);
      s := s.(memory := physmem[..]);
      Open();
    }

    method SwapIn(f: nat, offset: int)
      requires SwapIs(s.swap) && Spec.SwapAddress(f) + FRAME_SIZE <= physmem.Length && offset >= 0
      modifies physmem
      ensures SwapIs(s.swap)
      ensures physmem[..] == Spec.ReadFrame(old(physmem[..]), Spec.SwapAddress(f), s.swap.file, offset)
    {
      BreakSwap(SEAL, s.swap);
      var r := swap.PageIn(f, offset);
      BreakSwap(SEAL, s.swap);
    }

    // ----- translation -----

    /** A page never put out starts as zeros and is dirty; another is read from its slot: false if it has none. */
    method LoadPage(e: Pte, f: nat, ghost p: nat) returns (ok: bool)
      requires Is() && Spec.Shape(s) && p in pages && e == pages[p] && p in s.pt && f < |frames|
      modifies this`s, physmem, e`frameNumber, e`swapOffset, e`valid, e`dirty, e`onSwap
      ensures ok == (old(s).pt[p].onSwap ==> old(s).pt[p].swapOffset != INVALID_SWAP)
      ensures Spec.SwapAddress(f) + FRAME_SIZE <= |old(s).memory|
      ensures ok ==> Is()
      ensures ok && !old(s).pt[p].onSwap ==>
                s == old(s).(memory := Spec.ClearFrame(old(s).memory, f),
                             pt := old(s).pt[p := old(s).pt[p].(dirty := true)])
      ensures ok && old(s).pt[p].onSwap ==>
                s == old(s).(memory := Spec.ReadFrame(old(s).memory, Spec.SwapAddress(f), old(s).swap.file,
                                                      old(s).pt[p].swapOffset),
                             pt := old(s).pt[p := old(s).pt[p].(onSwap := false)])
    {
      Spec.AddressFits(f, |s.frames|);
      EntryFacts(p);
      if !e.onSwap {
        ClearFrame(f);
        Update(e, EntryOf(e).(dirty := true), p);
      } else {
        if e.swapOffset == INVALID_SWAP {
          return false;
        }
        PageIn(f, e.swapOffset);
        Update(e, EntryOf(e).(onSwap := false), p);
      }
      return true;
    }

    /** The rest of the miss branch of CSC369_MMGetFrameNumber: false where its assertion fails. */
    method BringIn(e: Pte, f: nat, ghost p: nat, ghost u: Spec.State) returns (ok: bool)
      requires Is() && p in pages && e == pages[p] && f < |frames|
      requires Spec.Shape(u) && |u.frames| == |frames| && p in u.pt
              && s == u.(frames := u.frames[f := Spec.Frame(false, Some(p))])
      modifies this`s, physmem, e`frameNumber, e`swapOffset, e`valid, e`dirty, e`onSwap
      ensures ok == Spec.Fill(u, p, f).Ran?
      ensures ok ==> Is() && s == Spec.Fill(u, p, f).state
    {
      EntryFacts(p);
      Update(e, EntryOf(e).(frame := f), p);
      ok := LoadPage(e, f, p);
      if ok {
        EntryFacts(p);
        Update(e, EntryOf(e).(valid := true), p);
      }
    }

    /** Which the policy does not notice. */
    method BringInKept(e: Pte, f: nat, ghost p: nat, ghost u: Spec.State) returns (ok: bool)
      requires Is() && PolicyIs(f) && p in pages && e == pages[p] && f < |frames|
      requires Spec.Shape(u) && |u.frames| == |frames| && p in u.pt
              && s == u.(frames := u.frames[f := Spec.Frame(false, Some(p))])
      modifies this`s, physmem, e`frameNumber, e`swapOffset, e`valid, e`dirty, e`onSwap
      ensures ok == Spec.Fill(u, p, f).Ran?
      ensures ok ==> Is() && s == Spec.Fill(u, p, f).state && PolicyIs(f)
    {
      ok := BringIn(e, f, p, u);
    }

    /** CSC369_GLOBAL_STATS.miss_count, hit_count and ref_count. */
    method Count(stats': Spec.Stats)
      requires Is()
      modifies this`s, this`stats
      ensures Is() && s == old(s).(stats := stats')
    {
      Open();
      stats := stats';
      s := s.(stats := stats);
      Open();
    }

    /** The miss branch of CSC369_MMGetFrameNumber. */
    method Miss(e: Pte, ghost p: nat) returns (ok: bool, f: nat, ghost victim: nat)
      requires Is() && Spec.Mapped(s) && PolicyIs(-1) && p in pages && e == pages[p] && p in s.pt && !s.pt[p].valid
      modifies this`s, this`order, this`stats, swap`file, swap.swapmap.words, physmem, frames`free, frames`pte
      modifies owner.Keys`frameNumber, owner.Keys`swapOffset, owner.Keys`valid, owner.Keys`dirty, owner.Keys`onSwap,
          owner.Keys`reference
      modifies State(policy), frames`next, frames`prev, Heads(policy)`next, Heads(policy)`prev
      ensures PolicySpec.Known(PolicySpec.Asked(old(s), old(order), p, victim, order))
      ensures victim < |frames| && ok == Spec.Miss(old(s), p, victim).Ran?
      ensures ok ==> Is() && PolicyIs(f) && Spec.Miss(old(s), p, victim) == Spec.Ran(s, f)
    {
      f, victim := AllocateFrame(e, p);
      Spec.VacateShape(old(s), victim);
      EntryFacts(p);
      ok := BringInKept(e, f, p, Spec.Vacate(old(s), victim));
    }

    /** Hit or miss: the page's frame, and the count. */
    method Locate(e: Pte, ghost p: nat) returns (ok: bool, f: nat, ghost victim: nat, ghost hole: int)
      requires Is() && Spec.Mapped(s) && PolicyIs(-1) && p in pages && e == pages[p] && p in s.pt
      modifies this`s, this`order, this`stats, swap`file, swap.swapmap.words, physmem, frames`free, frames`pte
      modifies owner.Keys`frameNumber, owner.Keys`swapOffset, owner.Keys`valid, owner.Keys`dirty, owner.Keys`onSwap,
          owner.Keys`reference
      modifies State(policy), frames`next, frames`prev, Heads(policy)`next, Heads(policy)`prev
      ensures PolicySpec.Known(PolicySpec.Asked(old(s), old(order), p, victim, order))
      ensures victim < |frames| && ok == Spec.Locate(old(s), p, victim).Ran?
      ensures ok ==>
            Is() && PolicyIs(hole) && (hole == -1 || hole == f) && Spec.Locate(old(s), p, victim) == Spec.Ran(s, f)
    {
      EntryFacts(p);
      if !e.valid {
        Count(stats.(misses := Spec.Inc(stats.misses)));
        ok, f, victim := Miss(e, p);
        ghost var counted := old(s).stats.(misses := Spec.Inc(old(s).stats.misses));
        PolicySpec.AskedCounted(old(s), counted, old(order), p, victim, order);
        hole := f;
      } else {
        Count(stats.(hits := Spec.Inc(stats.hits)));
        PolicySpec.NotAsked(old(s), order, p);
        ok, f, victim, hole := true, e.frameNumber, 0, -1;
      }
    }

    /** CSC369_PTESetDirty(pte, true). */
    method SetDirty(e: Pte, ghost p: nat, ghost hole: int)
      requires Is() && PolicyIs(hole) && p in pages && e == pages[p] && p in s.pt
      modifies this`s, e`frameNumber, e`swapOffset, e`valid, e`dirty, e`onSwap
      ensures Is() && PolicyIs(hole) && s == Spec.SetDirty(old(s), p)
    {
      EntryFacts(p);
      Update(e, EntryOf(e).(dirty := true), p);
    }

    /** The reference is counted. */
    method CountReference(ghost hole: int)
      requires Is() && PolicyIs(hole)
      modifies this`s, this`stats
      ensures Is() && PolicyIs(hole) && s == old(s).(stats := old(s).stats.(refs := Spec.Inc(old(s).stats.refs)))
    {
      Count(stats.(refs := Spec.Inc(stats.refs)));
    }

    /** The end of CSC369_MMGetFrameNumber. */
    method Finish(e: Pte, ghost p: nat, write: bool, ghost hole: int)
      requires Is() && PolicyIs(hole) && p in pages && e == pages[p] && p in s.pt
      modifies this`s, this`stats, e`frameNumber, e`swapOffset, e`valid, e`dirty, e`onSwap
      ensures Is() && PolicyIs(hole) && s == Spec.Finish(old(s), p, write)
    {
      if write {
        SetDirty(e, p, hole);
      }
      CountReference(hole);
    }

    /** CSC369_MMGetFrameNumber once the entry is found. */
    method Translate(e: Pte, ghost p: nat, write: bool) returns (ok: bool, f: nat, ghost victim: nat, ghost hole: int)
      requires Is() && Spec.Mapped(s) && PolicyIs(-1) && p in pages && e == pages[p] && p in s.pt
      modifies this`s, this`order, this`stats, swap`file, swap.swapmap.words, physmem, frames`free, frames`pte
      modifies owner.Keys`frameNumber, owner.Keys`swapOffset, owner.Keys`valid, owner.Keys`dirty, owner.Keys`onSwap,
          owner.Keys`reference
      modifies State(policy), frames`next, frames`prev, Heads(policy)`next, Heads(policy)`prev
      ensures victim < |frames|
      ensures PolicySpec.Known(PolicySpec.Found(old(s), old(order), p, write, victim, order, ok, s, f))
      ensures ok ==> Is() && PolicyIs(hole) && (hole == -1 || hole == f)
    {
      EntryFacts(p);
      ok, f, victim, hole := Locate(e, p);
      if ok {
        Finish(e, p, write, hole);
      }
      PolicySpec.FoundBy(old(s), old(order), p, write, victim, order, ok, s, f);
    }

    // ----- all of it -----

    ghost predicate ReadySealed(seal: nat, hole: int)
      reads this, frames, physmem, swap`file, swap.swapmap.words, owner.Keys
      reads State(policy), Linked(policy)`next, Linked(policy)`prev, Heads(policy)`next, Heads(policy)`prev
      reads tree, tree.heap, tree.owners.Keys, tree.nodes`pageTable
    {
      if seal == 0 then Is() && TreeIs() && PolicyIs(hole) else ReadySealed(seal - 1, hole)
    }

    /** The records, the page table and the policy are as the state says, under a seal. */
    ghost predicate Ready(hole: int)
      reads this, frames, physmem, swap`file, swap.swapmap.words, owner.Keys
      reads State(policy), Linked(policy)`next, Linked(policy)`prev, Heads(policy)`next, Heads(policy)`prev
      reads tree, tree.heap, tree.owners.Keys, tree.nodes`pageTable
    {
      ReadySealed(SEAL, hole)
    }

    lemma {:induction false} BreakReady(seal: nat, hole: int)
      ensures ReadySealed(seal, hole) <==> Is() && TreeIs() && PolicyIs(hole)
    {
      if seal > 0 {
        BreakReady(seal - 1, hole);
      }
    }

    /** CSC369_PageTableAllocate. */
    method FindEntry(va: nat) returns (e: Pte)
      requires TreeIs() && va < ADDRESS_LIMIT
      modifies this`pages, tree`entries, tree`nodes, tree`tables, tree`owners, tree`blocks, tree.heap, tree.owners.Keys
      ensures TreeIs() && fresh(tree.owners.Keys - old(tree.owners.Keys))
      ensures pages == old(pages)[va / PAGE_SIZE := e]
      ensures va / PAGE_SIZE in old(pages) ==> e == old(pages)[va / PAGE_SIZE]
      ensures va / PAGE_SIZE !in old(pages) ==> fresh(e) && IsNew(e)
    {
      BreakTree(SEAL);
      e := tree.Allocate(va);
      pages := pages[va / PAGE_SIZE := e];
      BreakTree(SEAL);
    }

    /** Nothing but the page table changes. */
    method FindEntryKept(va: nat) returns (e: Pte)
      requires TreeIs() && va < ADDRESS_LIMIT && HeapSealed(SEAL, s, pages, owner) && PolicyFor(s, pages, owner, -1)
      modifies this`pages, tree`entries, tree`nodes, tree`tables, tree`owners, tree`blocks, tree.heap, tree.owners.Keys
      ensures TreeIs() && fresh(tree.owners.Keys - old(tree.owners.Keys))
      ensures HeapSealed(SEAL, s, old(pages), owner) && PolicyFor(s, old(pages), owner, -1)
      ensures pages == old(pages)[va / PAGE_SIZE := e]
      ensures if va / PAGE_SIZE in old(pages) then e == old(pages)[va / PAGE_SIZE] else fresh(e) && IsNew(e)
    {
      e := FindEntry(va);
    }

    /** An entry more is no page more in memory. */
    lemma Added(t: Spec.State, pages: map<nat, Pte>, owner: map<Pte, nat>, p: nat, e: Pte)
      requires HeapSealed(SEAL, t, pages, owner) && Spec.Mapped(t) && PolicyFor(t, pages, owner, -1)
      requires if p in pages then e == pages[p] else e !in owner && IsNew(e)
      ensures HeapSealed(SEAL, Spec.WithEntry(t, p), pages[p := e], owner[e := p])
      ensures PolicyFor(Spec.WithEntry(t, p), pages[p := e], owner[e := p], -1)
    {
      Break(SEAL, t, pages, owner);
      Break(SEAL, Spec.WithEntry(t, p), pages[p := e], owner[e := p]);
      EntriesAdded(t, pages, owner, p, e);
      FramesAdded(t, frames, pages, p, e);
      KeepsMore(policy, frames, UsedOf(t.frames), PtesOf(t.frames, pages), owner.Keys, owner[e := p].Keys, -1, order);
    }

    ghost method Adopt(p: nat, e: Pte)
      requires TreeIs() && |s.frames| == |frames| && Distinct(frames) && |s.memory| == physmem.Length
              && s.stats == stats
      requires HeapSealed(SEAL, Spec.WithEntry(s, p), pages, owner[e := p])
              && PolicyFor(Spec.WithEntry(s, p), pages, owner[e := p], -1)
      modifies this`s, this`owner
      ensures s == Spec.WithEntry(old(s), p) && owner == old(owner)[e := p]
      ensures Ready(-1)
    {
      s, owner := Spec.WithEntry(s, p), owner[e := p];
      BreakReady(SEAL, -1);
    }

    /** The page's entry, for the state and the policy too. */
    method Lookup(va: nat) returns (e: Pte)
      requires Ready(-1) && Spec.Mapped(s) && va < ADDRESS_LIMIT
      modifies this`s, this`pages, this`owner, tree`entries, tree`nodes, tree`tables, tree`owners, tree`blocks,
          tree.heap, tree.owners.Keys
      ensures fresh(tree.owners.Keys - old(tree.owners.Keys)) && fresh(owner.Keys - old(owner.Keys))
      ensures s == Spec.WithEntry(old(s), va / PAGE_SIZE) && va / PAGE_SIZE in pages && e == pages[va / PAGE_SIZE]
      ensures Ready(-1)
    {
      ghost var p, before := va / PAGE_SIZE, pages;
      BreakReady(SEAL, -1);
      EntryFacts(p);
      e := FindEntryKept(va);
      Added(s, before, owner, p, e);
      Adopt(p, e);
    }

    /** Translation leaves the page table as it is. */
    method TranslateTree(e: Pte, ghost p: nat, write: bool) returns (ok: bool, f: nat, ghost victim: nat,
        ghost hole: int)
      requires Is() && TreeIs() && Spec.Mapped(s) && PolicyIs(-1) && p in pages && e == pages[p] && p in s.pt
      modifies this`s, this`order, this`stats, swap`file, swap.swapmap.words, physmem, frames`free, frames`pte
      modifies owner.Keys`frameNumber, owner.Keys`swapOffset, owner.Keys`valid, owner.Keys`dirty, owner.Keys`onSwap,
          owner.Keys`reference
      modifies State(policy), frames`next, frames`prev, Heads(policy)`next, Heads(policy)`prev
      ensures TreeIs() && owner == old(owner) && tree.owners == old(tree.owners)
      ensures victim < |frames|
      ensures PolicySpec.Known(PolicySpec.Found(old(s), old(order), p, write, victim, order, ok, s, f))
      ensures ok ==> Is() && PolicyIs(hole) && (hole == -1 || hole == f)
    {
      ok, f, victim, hole := Translate(e, p, write);
    }

    method TranslateKept(e: Pte, ghost p: nat, write: bool) returns (ok: bool, f: nat, ghost victim: nat,
        ghost hole: int)
      requires Ready(-1) && Spec.Mapped(s) && p in pages && e == pages[p] && p in s.pt
      modifies this`s, this`order, this`stats, swap`file, swap.swapmap.words, physmem, frames`free, frames`pte
      modifies owner.Keys`frameNumber, owner.Keys`swapOffset, owner.Keys`valid, owner.Keys`dirty, owner.Keys`onSwap,
          owner.Keys`reference
      modifies State(policy), frames`next, frames`prev, Heads(policy)`next, Heads(policy)`prev
      ensures victim < |frames|
      ensures owner == old(owner) && tree.owners == old(tree.owners)
      ensures PolicySpec.Known(PolicySpec.Found(old(s), old(order), p, write, victim, order, ok, s, f))
      ensures ok ==> Ready(hole) && (hole == -1 || hole == f)
    {
      BreakReady(SEAL, -1);
      ok, f, victim, hole := TranslateTree(e, p, write);
      BreakReady(SEAL, hole);
    }

    /** The simulator between two accesses. */
    ghost predicate Valid()
      reads this, frames, physmem, swap`file, swap.swapmap.words, owner.Keys
      reads State(policy), Linked(policy)`next, Linked(policy)`prev, Heads(policy)`next, Heads(policy)`prev
      reads tree, tree.heap, tree.owners.Keys, tree.nodes`pageTable
    {
      |s.frames| == |frames| && s.stats == stats && Spec.Mapped(s) && Ready(-1)
    }

    lemma TreeIsSound()
      requires Valid()
      ensures tree.Sound(SEAL)
    {
      BreakReady(SEAL, -1);
      BreakTree(SEAL);
    }

    /** CSC369_MMGetFrameNumber, with what it does under a seal. */
    method GetFrameKnown(a: Access) returns (ok: bool, f: nat, ghost victim: nat, ghost hole: int)
      requires Ready(-1) && |s.frames| == |frames| && Spec.Mapped(s) && a.address < ADDRESS_LIMIT
      modifies this`s, this`order, this`stats, swap`file, swap.swapmap.words, physmem, frames`free, frames`pte
      modifies owner.Keys`frameNumber, owner.Keys`swapOffset, owner.Keys`valid, owner.Keys`dirty, owner.Keys`onSwap,
          owner.Keys`reference
      modifies State(policy), frames`next, frames`prev, Heads(policy)`next, Heads(policy)`prev
      modifies this`pages, this`owner, tree`entries, tree`nodes, tree`tables, tree`owners, tree`blocks, tree.heap,
          tree.owners.Keys
      ensures fresh(tree.owners.Keys - old(tree.owners.Keys)) && fresh(owner.Keys - old(owner.Keys))
      ensures victim < |frames|
      ensures PolicySpec.Known(PolicySpec.Translated(old(s), old(order), a, victim, order, ok, s, f))
      ensures ok ==> Ready(hole) && (hole == -1 || hole == f)
      ensures ok ==> Spec.Mapped(s) && |s.frames| == |frames| && f < |frames| && !s.frames[f].free
    {
      Spec.WithEntryMapped(s, PageOf(a));
      var e := Lookup(a.address);
      ok, f, victim, hole := TranslateKept(e, PageOf(a), IsWrite(a));
      PolicySpec.TranslatedBy(old(s), old(order), a, victim, order, ok, s, f);
    }

    /** CSC369_MMGetFrameNumber: the page's frame, or false where an assertion fails. */
    method GetFrameNumber(a: Access) returns (ok: bool, f: nat, ghost victim: nat, ghost hole: int)
      requires Ready(-1) && |s.frames| == |frames| && Spec.Mapped(s) && a.address < ADDRESS_LIMIT
      modifies this`s, this`order, this`stats, swap`file, swap.swapmap.words, physmem, frames`free, frames`pte
      modifies owner.Keys`frameNumber, owner.Keys`swapOffset, owner.Keys`valid, owner.Keys`dirty, owner.Keys`onSwap,
          owner.Keys`reference
      modifies State(policy), frames`next, frames`prev, Heads(policy)`next, Heads(policy)`prev
      modifies this`pages, this`owner, tree`entries, tree`nodes, tree`tables, tree`owners, tree`blocks, tree.heap,
          tree.owners.Keys
      ensures fresh(tree.owners.Keys - old(tree.owners.Keys)) && fresh(owner.Keys - old(owner.Keys))
      ensures victim == PolicySpec.Answer(old(s), old(order), PageOf(a))
      ensures order == PolicySpec.Answered(old(s), old(order), PageOf(a))
      ensures victim < |frames| && ok == Spec.GetFrameNumber(old(s), a, victim).Ran?
      ensures ok ==> Spec.GetFrameNumber(old(s), a, victim) == Spec.Ran(s, f)
      ensures ok && Visits.OutIsClean(old(s).pt, -1) ==> Visits.Marked(old(s).pt, s.pt, a)
      ensures PolicySpec.Known(PolicySpec.Translated(old(s), old(order), a, victim, order, ok, s, f))
      ensures ok ==> Ready(hole) && (hole == -1 || hole == f)
      ensures ok ==> Spec.Mapped(s) && |s.frames| == |frames| && f < |frames| && !s.frames[f].free
    {
      ok, f, victim, hole := GetFrameKnown(a);
      PolicySpec.BreakClaim(SEAL, PolicySpec.Translated(old(s), old(order), a, victim, order, ok, s, f));
      if ok && Visits.OutIsClean(old(s).pt, -1) {
        Visits.TranslationDirty(old(s), a, victim);
      }
    }

    // ----- instructions -----

    /** CSC369_OnReference of frame f, which holds a page. */
    method Refer(f: nat, ghost hole: int)
      requires Is() && Spec.Mapped(s) && PolicyIs(hole) && f < |frames| && !s.frames[f].free
              && (hole == -1 || hole == f)
      modifies this`order, State(policy), frames`next, frames`prev, Heads(policy)`next, Heads(policy)`prev,
          owner.Keys`reference
      ensures PolicyIs(-1) && order == PolicySpec.Referenced(old(order), f)
    {
      FramesPlaced();
      Elsewhere();
      assert frames[f].pte == PtesOf(s.frames, pages)[f];
      OnReference(policy, frames, f, UsedOf(s.frames), PtesOf(s.frames, pages), owner.Keys, hole, order);
      order := PolicySpec.Referenced(order, f);
    }

    /** Which leaves the records as they are. */
    method ReferRecords(f: nat, ghost hole: int)
      requires Is() && Spec.Mapped(s) && PolicyIs(hole) && f < |frames| && !s.frames[f].free
              && (hole == -1 || hole == f)
      modifies this`order, State(policy), frames`next, frames`prev, Heads(policy)`next, Heads(policy)`prev,
          owner.Keys`reference
      ensures Is() && PolicyIs(-1) && order == PolicySpec.Referenced(old(order), f)
    {
      Refer(f, hole);
    }

    /** And the page table. */
    method ReferKept(f: nat, ghost hole: int)
      requires Ready(hole) && |s.frames| == |frames| && Spec.Mapped(s) && f < |frames| && !s.frames[f].free
              && (hole == -1 || hole == f)
      modifies this`order, State(policy), frames`next, frames`prev, Heads(policy)`next, Heads(policy)`prev,
          owner.Keys`reference
      ensures owner == old(owner) && tree.owners == old(tree.owners)
      ensures Ready(-1) && order == PolicySpec.Referenced(old(order), f)
    {
      BreakReady(SEAL, hole);
      ReferRecords(f, hole);
      BreakReady(SEAL, -1);
    }

    /** The store of one byte. */
    method Poke(address: nat, value: Byte)
      requires Is() && address < |s.memory|
      modifies this`s, physmem
      ensures Is() && s == old(s).(memory := old(s).memory[address := value])
    {
      Open();
      physmem[address] := value;
      s := s.(memory := s.memory[address := value]);
      Open();
    }

    /** Which neither page table nor policy notice. */
    method PokeKept(address: nat, value: Byte)
      requires Ready(-1) && address < |s.memory|
      modifies this`s, physmem
      ensures Ready(-1) && s == old(s).(memory := old(s).memory[address := value])
    {
      BreakReady(SEAL, -1);
      Poke(address, value);
      BreakReady(SEAL, -1);
    }

    /** The load of one byte. */
    method Peek(address: nat) returns (value: Byte)
      requires Ready(-1) && address < |s.memory|
      ensures Ready(-1) && address < physmem.Length && value == s.memory[address]
    {
      BreakReady(SEAL, -1);
      Open();
      return physmem[address];
    }

    lemma MemorySize()
      requires Ready(-1)
      ensures |s.memory| == physmem.Length
    {
      BreakReady(SEAL, -1);
    }

    /** The load or store of ExecuteMemInstruction, in frame f: false where it leaves physical memory. */
    method Instruct(a: Access, f: nat) returns (ok: bool, byte: Byte)
      requires Ready(-1)
      modifies this`s, physmem
      ensures ok == Spec.Instruction(old(s), a, f).Done?
      ensures ok ==> Ready(-1) && Spec.Instruction(old(s), a, f) == Spec.Done(s, byte)
    {
      MemorySize();
      var address := f * FRAME_SIZE + OffsetOf(a);
      if address >= physmem.Length {
        return false, 0;
      }
      if IsWrite(a) {
        PokeKept(address, a.value);
        return true, a.value;
      }
      byte := Peek(address);
      return true, byte;
    }

    /** What ExecuteMemInstruction does once it has the frame. */
    method Perform(a: Access, f: nat, ghost hole: int) returns (ok: bool, byte: Byte)
      requires Ready(hole) && |s.frames| == |frames| && Spec.Mapped(s) && f < |frames| && !s.frames[f].free
              && (hole == -1 || hole == f)
      modifies this`s, this`order, physmem, owner.Keys`reference
      modifies State(policy), frames`next, frames`prev, Heads(policy)`next, Heads(policy)`prev
      ensures order == PolicySpec.Referenced(old(order), f)
      ensures owner == old(owner) && tree.owners == old(tree.owners)
      ensures ok == Spec.Instruction(old(s), a, f).Done?
      ensures ok ==> Ready(-1) && Spec.Instruction(old(s), a, f) == Spec.Done(s, byte)
    {
      ReferKept(f, hole);
      ok, byte := Instruct(a, f);
    }

    /** ExecuteMemInstruction; false where an assertion fails or the access leaves physical memory. */
    method ExecuteKnown(a: Access) returns (ok: bool, byte: Byte, ghost victim: nat)
      requires Ready(-1) && |s.frames| == |frames| && Spec.Mapped(s) && a.address < ADDRESS_LIMIT
      modifies this`s, this`order, this`stats, swap`file, swap.swapmap.words, physmem, frames`free, frames`pte
      modifies owner.Keys`frameNumber, owner.Keys`swapOffset, owner.Keys`valid, owner.Keys`dirty, owner.Keys`onSwap,
          owner.Keys`reference
      modifies State(policy), frames`next, frames`prev, Heads(policy)`next, Heads(policy)`prev
      modifies this`pages, this`owner, tree`entries, tree`nodes, tree`tables, tree`owners, tree`blocks, tree.heap,
          tree.owners.Keys
      ensures fresh(tree.owners.Keys - old(tree.owners.Keys)) && fresh(owner.Keys - old(owner.Keys))
      ensures victim < |frames|
      ensures PolicySpec.Known(PolicySpec.Executed(old(s), old(order), a, victim, order, ok, s, byte))
      ensures ok ==> Ready(-1) && Spec.Mapped(s)
    {
      var f, found;
      ghost var hole;
      byte := 0;
      found, f, victim, hole := GetFrameNumber(a);
      ok := found;
      ghost var t, o := s, order;
      if found {
        ok, byte := Perform(a, f, hole);
      }
      PolicySpec.ExecutedBy(old(s), old(order), a, victim, o, found, t, f, order, ok, s, byte);
    }

    /** The same: the state and the policy's order change as specified, and the victim is the one specified. */
    method ExecuteMemInstruction(a: Access) returns (ok: bool, byte: Byte, ghost victim: nat)
      requires Valid() && a.address < ADDRESS_LIMIT
      modifies this`s, this`order, this`stats, swap`file, swap.swapmap.words, physmem, frames`free, frames`pte
      modifies owner.Keys`frameNumber, owner.Keys`swapOffset, owner.Keys`valid, owner.Keys`dirty, owner.Keys`onSwap,
          owner.Keys`reference
      modifies State(policy), frames`next, frames`prev, Heads(policy)`next, Heads(policy)`prev
      modifies this`pages, this`owner, tree`entries, tree`nodes, tree`tables, tree`owners, tree`blocks, tree.heap,
          tree.owners.Keys
      ensures fresh(tree.owners.Keys - old(tree.owners.Keys)) && fresh(owner.Keys - old(owner.Keys))
      ensures PolicySpec.Known(PolicySpec.Executed(old(s), old(order), a, victim, order, ok, s, byte))
      ensures victim == PolicySpec.Answer(old(s), old(order), PageOf(a))
      ensures victim < |frames| && ok == Spec.Execute(old(s), a, victim).Done?
      ensures ok ==> order == PolicySpec.Remembered(old(s), old(order), a)
      ensures ok ==> Valid() && Spec.Execute(old(s), a, victim) == Spec.Done(s, byte)
      ensures ok && Visits.OutIsClean(old(s).pt, -1) ==>
                && Visits.Marked(old(s).pt, s.pt, a)
                && (a.kind == Kind.Store || a.kind == Kind.Modify ==> byte == a.value)
                && s.pt[PageOf(a)].frame * FRAME_SIZE + OffsetOf(a) < |s.memory|
                && byte == s.memory[s.pt[PageOf(a)].frame * FRAME_SIZE + OffsetOf(a)]
    {
      ok, byte, victim := ExecuteKnown(a);
      PolicySpec.BreakClaim(SEAL, PolicySpec.Executed(old(s), old(order), a, victim, order, ok, s, byte));
      if ok {
        StatsAre();
        if Visits.OutIsClean(old(s).pt, -1) {
          Visits.AccessDirty(old(s), a, victim);
        }
      }
    }

    lemma StatsAre()
      requires Ready(-1)
      ensures s.stats == stats && |s.frames| == |frames|
    {
      BreakReady(SEAL, -1);
    }
  }

  /** memset of one frame to zero. */
  method Zero(physmem: array<Byte>, f: nat)
    requires (f + 1) * FRAME_SIZE <= physmem.Length
    modifies physmem
    ensures physmem[..] == Spec.ClearFrame(old(physmem[..]), f)
  {
    for i := 0 to FRAME_SIZE
      invariant forall j {:trigger physmem[j]} | 0 <= j < physmem.Length ::
                  physmem[j] == if f * FRAME_SIZE <= j < f * FRAME_SIZE + i then 0 else old(physmem[j])
    {
      physmem[f * FRAME_SIZE + i] := 0;
    }
  }

  lemma FirstFree(frames: seq<Spec.Frame>, i: nat)
    requires i < |frames| && frames[i].free && forall j | 0 <= j < i :: !frames[j].free
    ensures Spec.FreeFrame(frames) == Some(i)
  {}
}
