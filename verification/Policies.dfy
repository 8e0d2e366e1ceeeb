/**
 * The function pointers CSC369_Evict and CSC369_OnReference: what the coremap and the simulation
 * may rely on whichever of the two list-based policies they lead to.
 */
module Policies {
  import opened Circles
  import opened PageTables
  import opened Sequences
  import opened IntrusiveList
  import C = Clock
  import ClockSpec
  import Q = S2Q
  import Queues = S2QSpec
  import Spec = PolicySpec
  import opened Seals

  datatype Policy = ByClock(clock: C.Clock) | ByS2Q(s2q: Q.S2Q)

  /** The object that holds a policy's variables. */
  ghost function State(policy: Policy): object {
    match policy
    case ByClock(clock) => clock
    case ByS2Q(s2q) => s2q
  }

  /** The frames it was made for. */
  ghost function Linked(policy: Policy): set<Frame> {
    match policy
    case ByClock(clock) => set f | f in clock.frames
    case ByS2Q(s2q) => s2q.frames
  }

  /** The list heads that are no frames. */
  ghost function Heads(policy: Policy): set<Frame> {
    match policy
    case ByClock(clock) => {}
    case ByS2Q(s2q) => {s2q.a1, s2q.am}
  }

  /** The hand and the bits are what the order says; the frame just emptied has a clear bit. */
  ghost predicate HandIs(clock: C.Clock, ptes: seq<Pte?>, nodes: set<Pte>, hole: int, o: Spec.Order)
    requires clock.linked <= |ptes|
    reads clock, nodes`reference
  {
    && o.Hand? && |o.bits| == clock.linked && (clock.linked > 0 ==> o.position == clock.position)
    && (0 <= hole < clock.linked ==> !o.bits[hole])
    && (forall i {:trigger ptes[i]} | 0 <= i < clock.linked ::
          ptes[i] != null && ptes[i] in nodes && o.bits[i] == ptes[i].reference)
  }

  ghost predicate ClockKeeps(clock: C.Clock, frames: seq<Frame>, used: seq<bool>, ptes: seq<Pte?>, nodes: set<Pte>,
      hole: int, o: Spec.Order)
    requires |used| == |ptes| == |frames|
    reads clock, frames`next, frames`prev, clock.frames`next, clock.frames`prev, nodes`reference
  {
    && clock.frames == frames && clock.Valid()
    && (if clock.evicting then hole == clock.position && clock.linked == |frames|
        else hole == -1 || hole == clock.linked)
    && (forall i | 0 <= i < |frames| :: used[i] <==> i < clock.linked || i == hole)
    && HandIs(clock, ptes, nodes, hole, o)
  }

  ghost predicate S2QKeeps(s2q: Q.S2Q, frames: seq<Frame>, used: seq<bool>, ptes: seq<Pte?>, nodes: set<Pte>, hole: int,
      o: Spec.Order)
    requires |used| == |ptes| == |frames|
    reads s2q, frames`next, frames`prev, s2q.a1`next, s2q.a1`prev, s2q.am`next, s2q.am`prev, s2q.frames`next,
        s2q.frames`prev, nodes`reference
  {
    && s2q.Valid() && s2q.InOrder() && s2q.memsize == |frames| && s2q.frames == (set f | f in frames)
    && o.Lines? && Spec.NumbersBoth(o.queues, s2q.q, frames)
    && (forall i {:trigger frames[i]} | 0 <= i < |frames| :: Queues.Queued(s2q.q, frames[i]) <==> used[i] && i != hole)
    && (forall i {:trigger frames[i]} {:trigger ptes[i]} | 0 <= i < |frames| && used[i] ::
         ptes[i] != null && ptes[i] in nodes
         && (frames[i] in s2q.q.am <==> ptes[i].reference))
  }

  ghost predicate KeepsFrames(policy: Policy, frames: seq<Frame>, used: seq<bool>, ptes: seq<Pte?>, nodes: set<Pte>,
      hole: int, o: Spec.Order)
    requires |used| == |ptes| == |frames|
    reads State(policy), Linked(policy)`next, Linked(policy)`prev, frames`next, frames`prev, Heads(policy)`next,
        Heads(policy)`prev, nodes`reference
  {
    match policy
    case ByClock(clock) => ClockKeeps(clock, frames, used, ptes, nodes, hole, o)
    case ByS2Q(s2q) => S2QKeeps(s2q, frames, used, ptes, nodes, hole, o)
  }

  /** The same behind a few steps of recursion: proofs that only pass it on do not look inside. */
  ghost predicate Sealed(seal: nat, policy: Policy, frames: seq<Frame>, used: seq<bool>, ptes: seq<Pte?>,
      nodes: set<Pte>, hole: int, o: Spec.Order)
    requires |used| == |ptes| == |frames|
    reads State(policy), Linked(policy)`next, Linked(policy)`prev, frames`next, frames`prev, Heads(policy)`next,
        Heads(policy)`prev, nodes`reference
  {
    if seal == 0 then KeepsFrames(policy, frames, used, ptes, nodes, hole, o)
    else Sealed(seal - 1, policy, frames, used, ptes, nodes, hole, o)
  }

  lemma {:induction false} Unseal(seal: nat, policy: Policy, frames: seq<Frame>, used: seq<bool>, ptes: seq<Pte?>,
      nodes: set<Pte>, hole: int, o: Spec.Order)
    requires |used| == |ptes| == |frames|
    ensures Sealed(seal, policy, frames, used, ptes, nodes, hole, o)
       <==> KeepsFrames(policy, frames, used, ptes, nodes, hole, o)
  {
    if seal > 0 {
      Unseal(seal - 1, policy, frames, used, ptes, nodes, hole, o);
    }
  }

  /**
   * The policy keeps exactly the frames in use, except frame hole, which is the next to be
   * referenced: the one last filled, or -1 between two accesses.
   */
  ghost predicate Keeps(policy: Policy, frames: seq<Frame>, used: seq<bool>, ptes: seq<Pte?>, nodes: set<Pte>,
      hole: int, o: Spec.Order)
    reads State(policy), Linked(policy)`next, Linked(policy)`prev, frames`next, frames`prev, Heads(policy)`next,
        Heads(policy)`prev, nodes`reference
  {
    && |used| == |ptes| == |frames| && -1 <= hole < |frames|
    && Linked(policy) == (set f | f in frames) && (State(policy) is C.Clock || State(policy) is Q.S2Q)
    && Sealed(SEAL, policy, frames, used, ptes, nodes, hole, o)
  }

  // ----- clock -----

  /** Frames in use hold pages, each page knowing its frame. */
  ghost predicate Placed(frames: seq<Frame>, used: seq<bool>, ptes: seq<Pte?>, nodes: set<Pte>)
    requires |used| == |ptes| == |frames|
    reads frames`pte, nodes`frameNumber
  {
    forall i {:trigger frames[i]} {:trigger ptes[i]} | 0 <= i < |frames| && used[i] ::
      frames[i].pte == ptes[i] && ptes[i] != null && ptes[i] in nodes && ptes[i].frameNumber == i
  }

  ghost predicate UnusedEmpty(frames: seq<Frame>, used: seq<bool>)
    requires |used| == |frames|
    reads frames`pte
  {
    forall i {:trigger frames[i]} | 0 <= i < |frames| && !used[i] :: frames[i].pte == null
  }

  ghost function NonNull(ptes: seq<Pte?>): (r: seq<Pte>)
    requires forall i | 0 <= i < |ptes| :: ptes[i] != null
    ensures |r| == |ptes| && forall i | 0 <= i < |ptes| :: r[i] == ptes[i]
  {
    seq(|ptes|, i requires 0 <= i < |ptes| => ptes[i])
  }

  /** The bits of a full clock are those of the pages. */
  lemma BitsAre(clock: C.Clock, frames: seq<Frame>, used: seq<bool>, ptes: seq<Pte?>, nodes: set<Pte>, o: Spec.Order)
    requires |used| == |ptes| == |frames| > 0 && ClockKeeps(clock, frames, used, ptes, nodes, -1, o)
    requires (forall i | 0 <= i < |used| :: used[i]) && forall i | 0 <= i < |ptes| :: ptes[i] != null
    ensures !clock.evicting && clock.linked == |frames| && Spec.Full(o, |frames|) && o.position == clock.position
    ensures C.Bits(NonNull(ptes)) == o.bits
  {
    assert used[|frames| - 1];
  }

  lemma VictimClear(o: Spec.Order, n: nat)
    requires o.Hand? && Spec.Full(o, n)
    ensures |Spec.Evicted(o, n).bits| == n && !Spec.Evicted(o, n).bits[Spec.Victim(o, n)]
  {
    ClockSpec.SecondChance(o.bits, Succ(o.position, n));
  }

  method ClockEvict(clock: C.Clock, frames: seq<Frame>, ghost used: seq<bool>, ghost ptes: seq<Pte?>,
      ghost nodes: set<Pte>, ghost o: Spec.Order) returns (victim: nat)
    requires |used| == |ptes| == |frames| > 0 && ClockKeeps(clock, frames, used, ptes, nodes, -1, o)
    requires (forall i | 0 <= i < |used| :: used[i]) && forall i | 0 <= i < |ptes| :: ptes[i] != null
    requires C.Loaded(frames, NonNull(ptes)) && forall e | e in NonNull(ptes) :: e in nodes
    modifies clock, frames`next, frames`prev, nodes`reference
    ensures Spec.Full(o, |frames|) && victim == Spec.Victim(o, |frames|)
    ensures ClockKeeps(clock, frames, used, ptes, nodes, victim, Spec.Evicted(o, |frames|))
    ensures ptes[victim] != null && !ptes[victim].reference
    ensures forall e | e in nodes && e !in ptes :: e.reference == old(e.reference)
  {
    BitsAre(clock, frames, used, ptes, nodes, o);
    VictimClear(o, |frames|);
    ghost var loaded := NonNull(ptes);
    victim := clock.Evict(loaded);
    assert forall i {:trigger ptes[i]} | 0 <= i < |ptes| :: C.Bits(loaded)[i] == ptes[i].reference;
  }

  method ClockOnRef(clock: C.Clock, frames: seq<Frame>, f: nat, ghost used: seq<bool>, ghost ptes: seq<Pte?>,
      ghost nodes: set<Pte>, ghost hole: int, ghost o: Spec.Order)
    requires |used| == |ptes| == |frames| && f < |frames| && used[f] && (hole == -1 || hole == f)
    requires ClockKeeps(clock, frames, used, ptes, nodes, hole, o) && Placed(frames, used, ptes, nodes)
    modifies clock, frames`next, frames`prev, frames[f].pte`reference
    ensures ClockKeeps(clock, frames, used, ptes, nodes, -1, Spec.Referenced(o, f))
  {
    assert frames[f].pte == ptes[f];
    assert forall i {:trigger ptes[i]} | 0 <= i < |ptes| && used[i] && i != f :: ptes[i] != ptes[f];
    clock.OnRef(frames[f], f);
  }

  // ----- S2Q -----

  lemma {:induction false} SizeOfSeq<T>(q: seq<T>)
    requires forall i, j | 0 <= i < j < |q| :: q[i] != q[j]
    ensures |set x | x in q| == |q|
  {
    if q != [] {
      SizeOfSeq(q[1..]);
      assert (set x | x in q) == {q[0]} + set x | x in q[1..];
    }
  }

  /** With all frames in use the two queues together hold them all. */
  lemma AllQueued(s2q: Q.S2Q, frames: seq<Frame>)
    requires s2q.Valid() && s2q.frames == (set f | f in frames) && s2q.memsize == |frames| > 0 && Distinct(frames)
    requires forall i | 0 <= i < |frames| :: Queues.Queued(s2q.q, frames[i])
    ensures Queues.Full(s2q.q, s2q.memsize)
  {
    s2q.QueuesApart();
    var a, b := set f | f in s2q.q.a1, set f | f in s2q.q.am;
    SizeOfSeq(s2q.q.a1);
    SizeOfSeq(s2q.q.am);
    SizeOfSeq(frames);
    assert a !! b;
    assert a + b == set f | f in frames;
  }

  /** The frames that hold a page, and their pages. */
  ghost function PageMap(frames: seq<Frame>): (m: map<Frame, Pte>)
    reads frames`pte
    ensures forall f | f in frames && f.pte != null :: f in m
    ensures forall f | f in m :: f in frames && f.pte != null && m[f] == f.pte
  {
    map f | f in frames && f.pte != null :: f.pte
  }

  /** After an eviction all queued frames but the victim are still queued. */
  lemma EvictLeaves<T>(q: Queues.Queues<T>, memsize: nat)
    requires Queues.Full(q, memsize) && Distinct(q.a1) && Distinct(q.am) && forall x | x in q.a1 :: x !in q.am
    ensures forall x ::
          Queues.Queued(Queues.Evict(q, memsize), x) <==> Queues.Queued(q, x) && x != Queues.Victim(q, memsize)
    ensures forall x | x in Queues.Evict(q, memsize).am :: x in q.am
    ensures forall x | x in Queues.Evict(q, memsize).a1 :: x in q.a1
  {
    Queues.EvictTakes(q, memsize);
    if Queues.FromA1(q, memsize) {
      assert q.a1 == [q.a1[0]] + q.a1[1..];
    } else {
      var n := |q.am| - 1;
      Queues.NeverEmpty(q, memsize);
      assert q.am == q.am[..n] + [q.am[n]];
    }
  }

  /** A reference queues its frame at the front of am, or at the end of a1 the first time. */
  lemma TouchMoves<T>(q: Queues.Queues<T>, x: T)
    requires Distinct(q.a1) && Distinct(q.am) && forall y | y in q.a1 :: y !in q.am
    ensures var r := Queues.Touch(q, x);
            && (forall y :: Queues.Queued(r, y) <==> Queues.Queued(q, y) || y == x)
            && (forall y | y != x :: (y in r.am <==> y in q.am) && (y in r.a1 <==> y in q.a1))
            && (x in r.am <==> Queues.Queued(q, x)) && (x in r.a1 <==> !Queues.Queued(q, x))
  {
    if x in q.a1 {
      TakenOut(q.a1, x);
    } else if x in q.am {
      TakenOut(q.am, x);
    }
  }

  lemma TakenOut<T>(s: seq<T>, x: T)
    requires Distinct(s) && x in s
    ensures forall y :: y in Queues.Without(s, x) <==> y in s && y != x
  {
    var k := Queues.WithoutIs(s, x);
    assert s == s[..k] + [x] + s[k + 1..];
  }

  lemma LoadedPages(frames: seq<Frame>, used: seq<bool>, ptes: seq<Pte?>, nodes: set<Pte>)
    requires |used| == |ptes| == |frames| && Placed(frames, used, ptes, nodes) && UnusedEmpty(frames, used)
    ensures Q.Loaded(PageMap(frames))
    ensures forall i {:trigger frames[i]} | 0 <= i < |frames| && used[i] ::
          frames[i] in PageMap(frames) && PageMap(frames)[frames[i]] == ptes[i]
  {
    forall f, g | f in PageMap(frames) && g in PageMap(frames) && f != g
      ensures PageMap(frames)[f] != PageMap(frames)[g]
    {
      var i :| 0 <= i < |frames| && frames[i] == f;
      var j :| 0 <= j < |frames| && frames[j] == g;
      assert ptes[i].frameNumber == i && ptes[j].frameNumber == j;
    }
  }

  lemma PagesOnly(frames: seq<Frame>, used: seq<bool>, ptes: seq<Pte?>, nodes: set<Pte>)
    requires |used| == |ptes| == |frames| && forall i | 0 <= i < |used| :: used[i]
    requires Placed(frames, used, ptes, nodes)
    ensures forall e | e in PageMap(frames).Values :: e in ptes
  {
    forall f | f in PageMap(frames)
      ensures PageMap(frames)[f] in ptes
    {
      var i :| 0 <= i < |frames| && frames[i] == f;
      assert ptes[i] == f.pte;
    }
  }

  /** What S2Q assumes of the pages in full memory. */
  lemma AllTagged(s2q: Q.S2Q, frames: seq<Frame>, used: seq<bool>, ptes: seq<Pte?>, nodes: set<Pte>, o: Spec.Order)
    requires |used| == |ptes| == |frames| > 0 && Distinct(frames) && forall i | 0 <= i < |used| :: used[i]
    requires S2QKeeps(s2q, frames, used, ptes, nodes, -1, o) && Placed(frames, used, ptes, nodes)
    ensures Queues.Full(s2q.q, s2q.memsize) && Q.Loaded(PageMap(frames)) && s2q.Tagged(PageMap(frames))
    ensures Distinct(s2q.q.a1) && Distinct(s2q.q.am) && forall f | f in s2q.q.a1 :: f !in s2q.q.am
    ensures forall e | e in PageMap(frames).Values :: e in ptes && e in nodes
  {
    AllQueued(s2q, frames);
    s2q.QueuesApart();
    LoadedPages(frames, used, ptes, nodes);
    PagesOnly(frames, used, ptes, nodes);
  }

  /** The victim leaves its queue. */
  method S2QTake(s2q: Q.S2Q, frames: seq<Frame>, ghost used: seq<bool>, ghost ptes: seq<Pte?>, ghost nodes: set<Pte>,
      ghost o: Spec.Order)
    returns (victim: nat)
    requires |used| == |ptes| == |frames| > 0 && s2q.memsize == |frames| && forall i | 0 <= i < |used| :: used[i]
    requires s2q.Valid() && s2q.InOrder() && Queues.Full(s2q.q, |frames|) && Placed(frames, used, ptes, nodes)
    requires Q.Loaded(PageMap(frames)) && s2q.Tagged(PageMap(frames)) && s2q.frames == (set f | f in frames)
    requires forall e | e in PageMap(frames).Values :: e in ptes && e in nodes
    requires o.Lines? && Spec.NumbersBoth(o.queues, s2q.q, frames)
    modifies s2q, frames`next, frames`prev, s2q.a1`next, s2q.a1`prev, s2q.am`next, s2q.am`prev, nodes`reference
    ensures s2q.Valid() && s2q.InOrder() && s2q.Tagged(PageMap(frames))
    ensures Spec.Full(o, |frames|) && victim == Spec.Victim(o, |frames|)
    ensures s2q.q == Queues.Evict(old(s2q.q), |frames|) && frames[victim] == Queues.Victim(old(s2q.q), |frames|)
    ensures Spec.NumbersBoth(Spec.Evicted(o, |frames|).queues, s2q.q, frames)
    ensures ptes[victim] != null && !ptes[victim].reference
    ensures forall e | e in nodes && e !in ptes :: e.reference == old(e.reference)
  {
    Spec.NumbersEvict(o.queues, s2q.q, frames);
    assert used[Spec.Victim(o, |frames|)];
    victim := s2q.Evict(PageMap(frames));
  }

  method S2QEvict(s2q: Q.S2Q, frames: seq<Frame>, ghost used: seq<bool>, ghost ptes: seq<Pte?>, ghost nodes: set<Pte>,
      ghost o: Spec.Order)
    returns (victim: nat)
    requires |used| == |ptes| == |frames| > 0 && Distinct(frames) && forall i | 0 <= i < |used| :: used[i]
    requires S2QKeeps(s2q, frames, used, ptes, nodes, -1, o) && Placed(frames, used, ptes, nodes)
    modifies s2q, frames`next, frames`prev, s2q.a1`next, s2q.a1`prev, s2q.am`next, s2q.am`prev, nodes`reference
    ensures Spec.Full(o, |frames|) && victim == Spec.Victim(o, |frames|)
    ensures S2QKeeps(s2q, frames, used, ptes, nodes, victim, Spec.Evicted(o, |frames|))
    ensures ptes[victim] != null && !ptes[victim].reference
    ensures forall e | e in nodes && e !in ptes :: e.reference == old(e.reference)
  {
    AllTagged(s2q, frames, used, ptes, nodes, o);
    ghost var q := s2q.q;
    victim := S2QTake(s2q, frames, used, ptes, nodes, o);
    StillTagged(s2q, frames, used, ptes, nodes, q, victim);
  }

  /** The frames left in the queues, and what their bits tell. */
  lemma StillTagged(s2q: Q.S2Q, frames: seq<Frame>, used: seq<bool>, ptes: seq<Pte?>, nodes: set<Pte>,
      q: Queues.Queues<Frame>, victim: nat)
    requires |used| == |ptes| == |frames| && Distinct(frames) && victim < |frames|
    requires forall i | 0 <= i < |used| :: used[i]
    requires Queues.Full(q, |frames|) && Distinct(q.a1) && Distinct(q.am) && forall f | f in q.a1 :: f !in q.am
    requires forall i {:trigger frames[i]} | 0 <= i < |frames| :: Queues.Queued(q, frames[i])
    requires s2q.q == Queues.Evict(q, |frames|) && frames[victim] == Queues.Victim(q, |frames|)
    requires Placed(frames, used, ptes, nodes) && s2q.Tagged(PageMap(frames))
    requires ptes[victim] != null && !ptes[victim].reference
    ensures forall i {:trigger frames[i]} | 0 <= i < |frames| :: Queues.Queued(s2q.q, frames[i]) <==> i != victim
    ensures forall i {:trigger frames[i]} {:trigger ptes[i]} | 0 <= i < |frames| ::
          ptes[i] != null && ptes[i] in nodes && (frames[i] in s2q.q.am <==> ptes[i].reference)
  {
    EvictLeaves(q, |frames|);
  }

  method S2QOnRef(s2q: Q.S2Q, frames: seq<Frame>, f: nat, ghost used: seq<bool>, ghost ptes: seq<Pte?>,
      ghost nodes: set<Pte>, ghost hole: int, ghost o: Spec.Order)
    requires |used| == |ptes| == |frames| && Distinct(frames) && f < |frames| && used[f] && (hole == -1 || hole == f)
    requires S2QKeeps(s2q, frames, used, ptes, nodes, hole, o) && Placed(frames, used, ptes, nodes)
            && UnusedEmpty(frames, used)
    modifies s2q, frames`next, frames`prev, s2q.a1`next, s2q.a1`prev, s2q.am`next, s2q.am`prev, frames[f].pte`reference
    ensures S2QKeeps(s2q, frames, used, ptes, nodes, -1, Spec.Referenced(o, f))
  {
    s2q.QueuesApart();
    TouchMoves(s2q.q, frames[f]);
    Spec.NumbersTouch(o.queues, s2q.q, frames, f);
    LoadedPages(frames, used, ptes, nodes);
    s2q.OnRef(frames[f], PageMap(frames));
  }

  // ----- either policy -----

  /** The first free frame is filled with a page whose reference bit is clear. */
  lemma HoleFilled(policy: Policy, frames: seq<Frame>, used: seq<bool>, ptes: seq<Pte?>, nodes: set<Pte>, f: nat,
      e: Pte, o: Spec.Order)
    requires Keeps(policy, frames, used, ptes, nodes, -1, o) && Distinct(frames)
    requires f < |frames| && !used[f] && forall i | 0 <= i < f :: used[i]
    requires e in nodes && !e.reference
    ensures Keeps(policy, frames, used[f := true], ptes[f := e], nodes, f, o)
  {
    Unseal(SEAL, policy, frames, used, ptes, nodes, -1, o);
    Unseal(SEAL, policy, frames, used[f := true], ptes[f := e], nodes, f, o);
    match policy {
      case ByClock(clock) =>
        assert f > 0 ==> used[f - 1];
        assert f == clock.linked;
        assert ClockKeeps(clock, frames, used[f := true], ptes[f := e], nodes, f, o);
      case ByS2Q(s2q) =>
        assert !Queues.Queued(s2q.q, frames[f]);
        assert S2QKeeps(s2q, frames, used[f := true], ptes[f := e], nodes, f, o);
    }
    assert KeepsFrames(policy, frames, used[f := true], ptes[f := e], nodes, f, o);
  }

  /** The frame just emptied gets another page. */
  lemma HoleRefilled(policy: Policy, frames: seq<Frame>, used: seq<bool>, ptes: seq<Pte?>, nodes: set<Pte>, f: nat,
      e: Pte, o: Spec.Order)
    requires Keeps(policy, frames, used, ptes, nodes, f, o) && Distinct(frames)
    requires f < |frames| && used[f] && e in nodes && !e.reference
    ensures Keeps(policy, frames, used, ptes[f := e], nodes, f, o)
  {
    Unseal(SEAL, policy, frames, used, ptes, nodes, f, o);
    Unseal(SEAL, policy, frames, used, ptes[f := e], nodes, f, o);
    match policy {
      case ByClock(clock) =>
      case ByS2Q(s2q) =>
        assert !Queues.Queued(s2q.q, frames[f]);
    }
  }

  /** More entries in the page table make no difference. */
  lemma KeepsMore(policy: Policy, frames: seq<Frame>, used: seq<bool>, ptes: seq<Pte?>, nodes: set<Pte>,
      nodes': set<Pte>, hole: int, o: Spec.Order)
    requires Keeps(policy, frames, used, ptes, nodes, hole, o) && nodes <= nodes'
    ensures Keeps(policy, frames, used, ptes, nodes', hole, o)
  {
    Unseal(SEAL, policy, frames, used, ptes, nodes, hole, o);
    Unseal(SEAL, policy, frames, used, ptes, nodes', hole, o);
    match policy {
      case ByClock(clock) =>
      case ByS2Q(s2q) =>
        assert S2QKeeps(s2q, frames, used, ptes, nodes', hole, o);
    }
  }

  /** What the clock assumes of the pages in full memory. */
  lemma AllLoaded(frames: seq<Frame>, used: seq<bool>, ptes: seq<Pte?>, nodes: set<Pte>)
    requires |used| == |ptes| == |frames| && forall i | 0 <= i < |used| :: used[i]
    requires Placed(frames, used, ptes, nodes)
    ensures forall i | 0 <= i < |ptes| :: ptes[i] != null
    ensures C.Loaded(frames, NonNull(ptes)) && forall e | e in NonNull(ptes) :: e in nodes
  {
    assert forall i {:trigger ptes[i]} | 0 <= i < |ptes| :: frames[i].pte == ptes[i] && used[i];
  }

  /** CSC369_Evict: the policy names the frame its order says, and expects it to be referenced next. */
  method Evict(policy: Policy, frames: seq<Frame>, ghost used: seq<bool>, ghost ptes: seq<Pte?>, ghost nodes: set<Pte>,
      ghost o: Spec.Order)
    returns (victim: nat)
    requires Keeps(policy, frames, used, ptes, nodes, -1, o) && |frames| > 0 && Distinct(frames)
    requires Placed(frames, used, ptes, nodes) && forall i | 0 <= i < |used| :: used[i]
    modifies State(policy), frames`next, frames`prev, Heads(policy)`next, Heads(policy)`prev, nodes`reference
    ensures Spec.Full(o, |frames|) && victim == Spec.Victim(o, |frames|)
    ensures Keeps(policy, frames, used, ptes, nodes, victim, Spec.Evicted(o, |frames|))
    ensures ptes[victim] != null && !ptes[victim].reference
    ensures forall e | e in nodes && e !in ptes :: e.reference == old(e.reference)
  {
    Unseal(SEAL, policy, frames, used, ptes, nodes, -1, o);
    AllLoaded(frames, used, ptes, nodes);
    match policy {
      case ByClock(clock) => victim := ClockEvict(clock, frames, used, ptes, nodes, o);
      case ByS2Q(s2q) => victim := S2QEvict(s2q, frames, used, ptes, nodes, o);
    }
    Unseal(SEAL, policy, frames, used, ptes, nodes, victim, Spec.Evicted(o, |frames|));
  }

  /** CSC369_OnReference. */
  method OnReference(policy: Policy, frames: seq<Frame>, f: nat, ghost used: seq<bool>, ghost ptes: seq<Pte?>,
      ghost nodes: set<Pte>, ghost hole: int, ghost o: Spec.Order)
    requires Keeps(policy, frames, used, ptes, nodes, hole, o) && Distinct(frames)
    requires f < |frames| && used[f] && (hole == -1 || hole == f)
    requires Placed(frames, used, ptes, nodes) && UnusedEmpty(frames, used)
    modifies State(policy), frames`next, frames`prev, Heads(policy)`next, Heads(policy)`prev, frames[f].pte`reference
    ensures Keeps(policy, frames, used, ptes, nodes, -1, Spec.Referenced(o, f))
  {
    assert frames[f].pte == ptes[f];
    Unseal(SEAL, policy, frames, used, ptes, nodes, hole, o);
    match policy {
      case ByClock(clock) => ClockOnRef(clock, frames, f, used, ptes, nodes, hole, o);
      case ByS2Q(s2q) => S2QOnRef(s2q, frames, f, used, ptes, nodes, hole, o);
    }
    Unseal(SEAL, policy, frames, used, ptes, nodes, -1, Spec.Referenced(o, f));
  }

  // ----- from the start -----

  datatype Choice = Clock | S2Q

  /** What a policy remembers at first: no frame. */
  function Start(choice: Choice): Spec.Order {
    match choice
    case Clock => Spec.Hand([], 0)
    case S2Q => Spec.Lines(Queues.Queues([], []))
  }

  /** A policy that has seen no reference keeps no frame. */
  lemma KeepsNone(policy: Policy, frames: seq<Frame>)
    requires match policy
             case ByClock(clock) => clock.Valid() && clock.frames == frames && clock.linked == 0 && !clock.evicting
             case ByS2Q(s2q) =>
               && s2q.Valid() && s2q.InOrder() && s2q.q == Queues.Queues([], [])
               && s2q.frames == (set f | f in frames) && s2q.memsize == |frames|
    ensures Keeps(policy, frames, seq(|frames|, _ => false), seq(|frames|, _ => null), {}, -1,
                  Start(if policy.ByClock? then Clock else S2Q))
  {
    var used: seq<bool>, ptes: seq<Pte?> := seq(|frames|, _ => false), seq(|frames|, _ => null);
    var o := Start(if policy.ByClock? then Clock else S2Q);
    match policy {
      case ByClock(clock) =>
        assert ClockKeeps(clock, frames, used, ptes, {}, -1, o);
      case ByS2Q(s2q) =>
        assert S2QKeeps(s2q, frames, used, ptes, {}, -1, o);
    }
    Unseal(SEAL, policy, frames, used, ptes, {}, -1, o);
  }

  /** CSC369_PolicyInit of either policy. */
  method Choose(choice: Choice, frames: seq<Frame>) returns (policy: Policy)
    requires Distinct(frames) && forall f | f in frames :: f.next == null
    ensures Keeps(policy, frames, seq(|frames|, _ => false), seq(|frames|, _ => null), {}, -1, Start(choice))
    ensures fresh(State(policy)) && fresh(Heads(policy))
  {
    match choice
    case Clock =>
      var clock := new C.Clock(frames);
      policy := ByClock(clock);
      KeepsNone(policy, frames);
    case S2Q =>
      var a1 := new Frame();
      var am := new Frame();
      ghost var all := set f | f in frames;
      var s2q := new Q.S2Q(a1, am, |frames|, all);
      policy := ByS2Q(s2q);
      KeepsNone(policy, frames);
  }
}
