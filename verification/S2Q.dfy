/** csc369_policy_s2q.c: two queues of frames told apart by their pages' reference bits. */
module S2Q {
  import opened Circles
  import opened PageTables
  import opened Seals
  import opened Sequences
  import opened IntrusiveList
  import Spec = S2QSpec

  /** The page in each frame of the domain, no two frames sharing one. */
  ghost predicate Loaded(ptes: map<Frame, Pte>)
    reads ptes.Keys`pte
  {
    && (forall f | f in ptes :: f.pte == ptes[f])
    && (forall f, g | f in ptes && g in ptes && f != g :: ptes[f] != ptes[g])
  }

  class S2Q {
    const a1: Frame // list heads
    const am: Frame
    const memsize: nat
    ghost const frames: set<Frame>
    ghost var q: Spec.Queues<Frame>
    ghost var history: Spec.History<Frame> // when the frames were loaded and last referenced
    ghost var ring1: seq<Frame> // the circles through the heads
    ghost var ringM: seq<Frame>

    /** The queues are in the order of time. */
    ghost predicate InOrder()
      reads this`q, this`history
    {
      history.q == q && Spec.Ordered(history)
    }

    /** Two circles through the two heads, with no frame on both; frames on neither are marked so. */
    ghost predicate Valid()
      reads this`q, this`ring1, this`ringM, frames`next, frames`prev, a1`next, a1`prev, am`next, am`prev
    {
      Shape() && Ring(ring1) && Ring(ringM) && Unlinked()
    }

    ghost predicate Shape()
      reads this`q, this`ring1, this`ringM
    {
      ShapeOf(q, ring1, ringM)
    }

    /** The circles are the heads followed by the queues, and apart. */
    ghost predicate ShapeOf(q: Spec.Queues<Frame>, ring1: seq<Frame>, ringM: seq<Frame>) {
      && ring1 == [a1] + q.a1 && ringM == [am] + q.am
      && a1 !in frames && am !in frames
      && (forall f | f in q.a1 :: f in frames)
      && (forall f | f in q.am :: f in frames)
      && Disjoint(ring1, ringM)
    }

    ghost predicate Unlinked()
      reads this`ring1, this`ringM, frames`next
    {
      forall f {:trigger f.next} | f in frames && f !in ring1 && f !in ringM :: f.next == null
    }

    /** The reference bit tells the queue. */
    ghost predicate Tagged(ptes: map<Frame, Pte>)
      reads this`q, ptes.Values`reference
    {
      && (forall f | f in q.a1 :: f in ptes && !ptes[f].reference)
      && (forall f | f in q.am :: f in ptes && ptes[f].reference)
    }

    /** CSC369_PolicyS2QInit. */
    constructor (a1: Frame, am: Frame, memsize: nat, ghost frames: set<Frame>)
      requires a1 != am && a1 !in frames && am !in frames
      requires forall f | f in frames :: f.next == null
      modifies a1, am
      ensures Valid() && this.a1 == a1 && this.am == am && this.memsize == memsize && this.frames == frames
      ensures q == Spec.Queues([], []) && InOrder()
    {
      this.a1, this.am, this.memsize, this.frames := a1, am, memsize, frames;
      q, ring1, ringM := Spec.Queues([], []), [a1], [am];
      history := Spec.History(Spec.Queues([], []), 0, map[], map[]);
      new;
      Init(a1);
      Init(am);
    }

    /** list_del: the frame leaves its queue. */
    method Remove(frame: Frame)
      requires Valid() && frame in frames && Spec.Queued(q, frame)
      modifies this`q, this`ring1, this`ringM, frames`next, frames`prev, a1`next, a1`prev, am`next, am`prev
      ensures Valid() && frame !in ring1 && frame !in ringM && frame.next == null
      ensures q == Spec.Taken(old(q), frame)
    {
      ghost var s, t, k, r1, rM := RemoveShape(frame);
      q, ring1, ringM := Spec.Taken(q, frame), r1, rM;
      assert Shape();
      Take(frame, s, t, k, r1, rM);
    }

    /** The circle s the frame stands on, at k, the other one, t, and both without the frame. */
    lemma RemoveShape(frame: Frame) returns (s: seq<Frame>, t: seq<Frame>, k: nat, r1: seq<Frame>, rM: seq<Frame>)
      requires Shape() && Ring(ring1) && Ring(ringM) && frame in frames && Spec.Queued(q, frame)
      ensures (s == ring1 && t == ringM) || (s == ringM && t == ring1)
      ensures k < |s| && s[k] == frame && Disjoint(s, t)
      ensures (r1 == s[..k] + s[k + 1..] && rM == t) || (rM == s[..k] + s[k + 1..] && r1 == t)
      ensures ShapeOf(Spec.Taken(q, frame), r1, rM) && frame !in r1 && frame !in rM
      ensures forall f | f in frames && f !in r1 && f !in rM :: f == frame || (f !in ring1 && f !in ringM)
    {
      BreakRing(SEAL, ring1);
      BreakRing(SEAL, ringM);
      if frame in q.a1 {
        var i := Spec.WithoutIs(q.a1, frame);
        WithHead(a1, q.a1, i);
        s, t, k := ring1, ringM, i + 1;
        r1, rM := s[..k] + s[k + 1..], t;
      } else {
        var i := Spec.WithoutIs(q.am, frame);
        WithHead(am, q.am, i);
        s, t, k := ringM, ring1, i + 1;
        r1, rM := t, s[..k] + s[k + 1..];
      }
      SplitMembers(s, k);
    }

    lemma SplitMembers(s: seq<Frame>, k: nat)
      requires Distinct(s) && k < |s|
      ensures s[k] !in s[..k] + s[k + 1..]
      ensures forall f :: f in s <==> f == s[k] || f in s[..k] + s[k + 1..]
    {
      assert s == s[..k] + [s[k]] + s[k + 1..];
    }

    /** list_del from whichever queue the frame is on, and list_add_head on Am. */
    method MoveToAm(frame: Frame)
      requires Valid() && frame in frames && Spec.Queued(q, frame)
      modifies this`q, this`ring1, this`ringM, frames`next, frames`prev, a1`next, a1`prev, am`next, am`prev
      ensures Valid() && q == Spec.Touch(old(q), frame)
    {
      Remove(frame);
      FrontShape(frame);
      PushToAm(frame);
    }

    lemma FrontShape(frame: Frame)
      requires Shape() && frame !in ring1 && frame !in ringM
      ensures [am, frame] + ringM[1..] == [am] + ([frame] + q.am)
      ensures Disjoint(ring1, [am, frame] + ringM[1..])
      ensures forall f :: f in [am, frame] + ringM[1..] <==> f == frame || f in ringM
    {
      assert ringM[1..] == q.am;
      assert forall f :: f in ringM <==> f == am || f in q.am;
    }

    /** list_add_head on Am. */
    method PushToAm(frame: Frame)
      requires Valid() && frame in frames && frame !in ring1 && frame !in ringM
      requires [am, frame] + ringM[1..] == [am] + ([frame] + q.am)
      requires Disjoint(ring1, [am, frame] + ringM[1..])
      requires forall f :: f in [am, frame] + ringM[1..] <==> f == frame || f in ringM
      modifies this`q, this`ringM, frames`next, frames`prev, am`next, am`prev
      ensures Valid() && q == Spec.Queues(old(q).a1, [frame] + old(q).am)
    {
      ghost var s := ringM;
      q, ringM := Spec.Queues(q.a1, [frame] + q.am), [am, frame] + s[1..];
      PutHead(am, frame, s, ring1);
    }

    /** list_add_tail on A1. */
    method AppendToA1(frame: Frame)
      requires Valid() && frame in frames && frame !in ring1 && frame !in ringM
      modifies this`q, this`ring1, frames`next, frames`prev, a1`next, a1`prev
      ensures Valid() && q == Spec.Touch(old(q), frame)
    {
      ghost var s := ring1;
      q, ring1 := Spec.Queues(q.a1 + [frame], q.am), s + [frame];
      PutTail(a1, frame, s, ringM);
    }

    /** An entry is linked exactly when its frame is queued. */
    lemma LinkedIsQueued(frame: Frame)
      requires Valid() && frame in frames
      ensures frame.next != null <==> Spec.Queued(q, frame)
      ensures frame.next == null ==> frame !in ring1 && frame !in ringM
    {
      assert forall f :: f in ring1 <==> f == a1 || f in q.a1;
      assert forall f :: f in ringM <==> f == am || f in q.am;
      if frame in ring1 {
        InRing(ring1, frame);
      }
      if frame in ringM {
        InRing(ringM, frame);
      }
    }

    lemma InRing(s: seq<Frame>, frame: Frame)
      requires Ring(s) && frame in s
      ensures frame.next != null
    {
      BreakRing(SEAL, s);
      var i :| 0 <= i < |s| && s[i] == frame;
      assert s[i].next == s[Succ(i, |s|)];
    }

    /** The frame goes where a reference puts it. */
    method Relink(frame: Frame, ghost ptes: map<Frame, Pte>)
      requires Valid() && Loaded(ptes) && Tagged(ptes)
      requires frame in frames && frame in ptes && (!Spec.Queued(q, frame) ==> !ptes[frame].reference)
      modifies this`q, this`ring1, this`ringM, frames`next, frames`prev, a1`next, a1`prev, am`next, am`prev,
          frame.pte`reference
      ensures Valid() && Tagged(ptes)
      ensures q == Spec.Touch(old(q), frame)
    {
      LinkedIsQueued(frame);
      if frame.next == null {
        AppendToA1(frame);
      } else {
        TouchTags(frame);
        if !frame.pte.reference {
          frame.pte.reference := true;
        }
        MoveToAm(frame);
      }
    }

    /** CSC369_PolicyS2QOnRef: a page just loaded has a clear reference bit. */
    method OnRef(frame: Frame, ghost ptes: map<Frame, Pte>)
      requires Valid() && InOrder() && Loaded(ptes) && Tagged(ptes)
      requires frame in frames && frame in ptes && (!Spec.Queued(q, frame) ==> !ptes[frame].reference)
      modifies this, frames`next, frames`prev, a1`next, a1`prev, am`next, am`prev, frame.pte`reference
      ensures Valid() && Tagged(ptes)
      ensures q == Spec.Touch(old(q), frame)
      ensures InOrder() && history == Spec.Reference(old(history), frame)
    {
      Spec.ReferenceOrdered(history, frame);
      history := Spec.Reference(history, frame);
      Relink(frame, ptes);
    }

    /** Who is where after a reference to a queued frame. */
    lemma TouchTags(frame: Frame)
      requires Shape() && Ring(ring1) && Ring(ringM) && frame in frames && Spec.Queued(q, frame)
      ensures var q' := Spec.Touch(q, frame);
              && (forall f | f in q'.a1 :: f in q.a1 && f != frame)
              && (forall f | f in q'.am :: f == frame || f in q.am)
    {
      var s, t, k, r1, rM := RemoveShape(frame);
      if frame in q.a1 {
        assert forall f | f in Spec.Taken(q, frame).a1 :: f in [a1] + Spec.Taken(q, frame).a1;
      }
    }

    /** list_for_each over A1. */
    method CountA1() returns (n: nat)
      requires Valid()
      ensures n == |q.a1|
    {
      n := 0;
      var pos := a1.next;
      A1Next(0);
      while pos != a1
        invariant 0 <= n <= |q.a1| && pos == ring1[Succ(n, |ring1|)]
        decreases |q.a1| - n
      {
        AtHead(n);
        A1Next(n + 1);
        pos := pos.next;
        n := n + 1;
      }
      AtHead(n);
    }

    lemma A1Next(i: nat)
      requires Valid() && i < |ring1|
      ensures ring1[i].next == ring1[Succ(i, |ring1|)]
    {
      BreakRing(SEAL, ring1);
    }

    /** The walk is back at the head exactly when it has passed the whole queue. */
    lemma AtHead(i: nat)
      requires Valid() && i < |ring1|
      ensures ring1[Succ(i, |ring1|)] == a1 <==> i == |q.a1|
    {
      BreakRing(SEAL, ring1);
      assert ring1[0] == a1;
    }

    /** The entries next to the heads are the victims' when their queues are not empty. */
    lemma Ends()
      requires Valid()
      ensures |q.a1| > 0 ==> a1.next == q.a1[0]
      ensures |q.am| > 0 ==> am.prev == q.am[|q.am| - 1]
    {
      BreakRing(SEAL, ring1);
      BreakRing(SEAL, ringM);
      assert ring1[0].next == ring1[Succ(0, |ring1|)];
      assert ringM[0].prev == ringM[Pred(0, |ringM|)];
    }

    /** The victim is found by counting A1, and unlinked. */
    method EvictEntry(ghost ptes: map<Frame, Pte>) returns (r: nat)
      requires Valid() && Loaded(ptes) && Tagged(ptes) && Spec.Full(q, memsize)
      modifies this`q, this`ring1, this`ringM, frames`next, frames`prev, a1`next, a1`prev, am`next, am`prev,
          ptes.Values`reference
      ensures Valid() && Tagged(ptes)
      ensures var v := Spec.Victim(old(q), memsize);
              && v in frames && v in ptes && q == Spec.Evict(old(q), memsize)
              && v.next == null && v.prev == null && !ptes[v].reference && r == ptes[v].frameNumber
    {
      var i := CountA1();
      Spec.NeverEmpty(q, memsize);
      Ends();
      ghost var v := Spec.Victim(q, memsize);
      var entry: Frame?;
      if i > memsize / 10 {
        entry := a1.next;
      } else {
        entry := am.prev;
      }
      Release(entry, ptes);
      return entry.pte.frameNumber;
    }

    /**
     * CSC369_PolicyS2QEvict: with every frame queued the victim is a frame, never a list head: the
     * one loaded first of those referenced once, or the least recently referenced of the others.
     */
    method Evict(ghost ptes: map<Frame, Pte>) returns (r: nat)
      requires Valid() && InOrder() && Loaded(ptes) && Tagged(ptes) && Spec.Full(q, memsize)
      modifies this, frames`next, frames`prev, a1`next, a1`prev, am`next, am`prev, ptes.Values`reference
      ensures Valid() && InOrder() && Tagged(ptes)
      ensures var v, h := Spec.Victim(old(q), memsize), old(history);
              && v in frames && v in ptes && q == Spec.Evict(old(q), memsize) && history == Spec.Remove(h, memsize)
              && v.next == null && v.prev == null && !ptes[v].reference && r == ptes[v].frameNumber
              && if |h.q.a1| > memsize / 10
                 then v in h.q.a1 && forall x | x in h.q.a1 && x != v :: h.loaded[v] < h.loaded[x]
                 else v in h.q.am && forall x | x in h.q.am && x != v :: h.last[v] < h.last[x]
    {
      Spec.VictimIsOldest(history, memsize);
      Spec.RemoveOrdered(history, memsize);
      history := Spec.Remove(history, memsize);
      r := EvictEntry(ptes);
    }

    /** The victim leaves its queue and its page loses the reference bit. */
    method Release(entry: Frame, ghost ptes: map<Frame, Pte>)
      requires Valid() && Loaded(ptes) && Tagged(ptes) && Spec.Full(q, memsize)
      requires entry == Spec.Victim(q, memsize)
      modifies this`q, this`ring1, this`ringM, frames`next, frames`prev, a1`next, a1`prev, am`next, am`prev,
          ptes.Values`reference
      ensures Valid() && Tagged(ptes)
      ensures entry in frames && entry in ptes && q == Spec.Evict(old(q), memsize)
      ensures entry.next == null && entry.prev == null && !ptes[entry].reference
    {
      VictimTaken(entry);
      Remove(entry);
      entry.next := null;
      entry.prev := null;
      entry.pte.reference := false;
    }

    /** Taking out the victim is what the specification calls eviction. */
    lemma VictimTaken(entry: Frame)
      requires Shape() && Ring(ring1) && Ring(ringM) && Spec.Full(q, memsize) && entry == Spec.Victim(q, memsize)
      ensures entry in frames && Spec.Queued(q, entry)
      ensures Spec.Taken(q, entry) == Spec.Evict(q, memsize)
      ensures forall f | f in Spec.Evict(q, memsize).a1 || f in Spec.Evict(q, memsize).am ::
            Spec.Queued(q, f) && f != entry
    {
      QueuesApart();
      Spec.EvictTakes(q, memsize);
      assert Spec.Queued(q, entry);
    }

    lemma QueuesApart()
      requires Shape() && Ring(ring1) && Ring(ringM)
      ensures Distinct(q.a1) && Distinct(q.am) && forall f | f in q.a1 :: f !in q.am
    {
      BreakRing(SEAL, ring1);
      BreakRing(SEAL, ringM);
      assert ring1[1..] == q.a1 && ringM[1..] == q.am;
      assert forall f | f in q.a1 :: f in ring1;
      assert forall f | f in q.am :: f in ringM;
    }

    lemma WithHead(head: Frame, s: seq<Frame>, i: nat)
      requires i < |s|
      ensures ([head] + s)[i + 1] == s[i]
      ensures ([head] + s)[..i + 1] + ([head] + s)[i + 2..] == [head] + (s[..i] + s[i + 1..])
    {}
  }

  /** list_del from one circle does not touch another. */
  method Take(frame: Frame, ghost s: seq<Frame>, ghost t: seq<Frame>, ghost k: nat, ghost r1: seq<Frame>,
      ghost rM: seq<Frame>)
    requires Ring(s) && Ring(t) && Disjoint(s, t) && k < |s| && s[k] == frame
    requires (r1 == s[..k] + s[k + 1..] && rM == t) || (rM == s[..k] + s[k + 1..] && r1 == t)
    modifies s`next, s`prev
    ensures Ring(r1) && Ring(rM) && frame.next == null && frame.prev == null
  {
    assert forall i | 0 <= i < |t| :: t[i] in t;
    Del(frame, s, k);
  }

  method PutHead(head: Frame, frame: Frame, ghost s: seq<Frame>, ghost t: seq<Frame>)
    requires Ring(s) && Ring(t) && Disjoint(s, t) && |s| > 0 && s[0] == head && frame !in s && frame !in t
    modifies frame`next, frame`prev, s`next, s`prev
    ensures Ring([head, frame] + s[1..]) && Ring(t)
  {
    assert forall i | 0 <= i < |t| :: t[i] in t;
    AddHead(head, frame, s);
  }

  method PutTail(head: Frame, frame: Frame, ghost s: seq<Frame>, ghost t: seq<Frame>)
    requires Ring(s) && Ring(t) && Disjoint(s, t) && |s| > 0 && s[0] == head && frame !in s && frame !in t
    modifies frame`next, frame`prev, s`next, s`prev
    ensures Ring(s + [frame]) && Ring(t)
  {
    assert forall i | 0 <= i < |t| :: t[i] in t;
    AddTail(head, frame, s);
  }

  ghost predicate Disjoint(s: seq<Frame>, t: seq<Frame>) {
    && (forall f | f in s :: f !in t)
    && (forall f | f in t :: f !in s)
  }
}
