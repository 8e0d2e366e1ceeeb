/** csc369_policy_clock.c: the clock whose ring of frames has no head of its own. */
module Clock {
  import opened Circles
  import opened PageTables
  import opened Seals
  import opened Sequences
  import opened IntrusiveList
  import opened ClockSpec

  /** Every frame holds a page whose entry knows the frame; so no two frames share an entry. */
  ghost predicate Loaded(frames: seq<Frame>, ptes: seq<Pte>)
    reads frames`pte, ptes`frameNumber
  {
    |ptes| == |frames| && forall i | 0 <= i < |frames| :: frames[i].pte == ptes[i] && ptes[i].frameNumber == i
  }

  /** The reference bits of the frames' pages. */
  ghost function Bits(ptes: seq<Pte>): (bits: seq<bool>)
    reads ptes
    ensures |bits| == |ptes|
    ensures forall i | 0 <= i < |ptes| :: bits[i] == ptes[i].reference
  {
    seq(|ptes|, i requires 0 <= i < |ptes| reads ptes => ptes[i].reference)
  }

  /** The frames without the one at i, from the next frame on. */
  ghost function Others(frames: seq<Frame>, i: nat): seq<Frame> {
    if i < |frames| then frames[i + 1..] + frames[..i] else []
  }

  class Clock {
    var list: Frame?
    var hand: Frame?
    ghost const frames: seq<Frame>
    ghost var ring: seq<Frame> // the linked frames, in the order of the list
    ghost var linked: nat      // the frames below linked are in the ring, or being reused
    ghost var position: nat    // of the hand
    ghost var evicting: bool   // between an eviction and the reference to the frame reused

    /**
     * The ring is the frames in index order, with the victim missing while it is being reused;
     * list is the frame after the hand; the hand stays on the last frame until all are linked.
     */
    ghost predicate Valid()
      reads this, frames`next, frames`prev
    {
      Order() && (forall f | f in ring :: f in frames) && Ring(ring) && Unlinked()
    }

    /** Which frames are linked and where list and hand point. */
    ghost predicate Order()
      reads this
    {
      OrderOf(linked, position, evicting, hand, list, ring)
    }

    ghost predicate OrderOf(linked: nat, position: nat, evicting: bool, hand: Frame?, list: Frame?, ring: seq<Frame>) {
      && Distinct(frames) && linked <= |frames|
      && (linked == 0 ==> !evicting)
      && (linked > 0 ==> position < linked && hand == frames[position])
      && (0 < linked < |frames| ==> position == linked - 1 && !evicting)
      && ring == (if evicting then Others(frames, position) else frames[..linked])
      && list == (if ring == [] then null else frames[Succ(position, linked)])
    }

    /** The entries outside the ring are marked so. */
    ghost predicate Unlinked()
      reads this, frames`next
    {
      forall j {:trigger frames[j].next} | 0 <= j < |frames| && (j >= linked || (evicting && j == position)) ::
            frames[j].next == null
    }

    constructor (ghost frames: seq<Frame>)
      requires Distinct(frames) && forall j | 0 <= j < |frames| :: frames[j].next == null
      ensures Valid() && this.frames == frames && linked == 0 && !evicting
    {
      this.frames := frames;
      list, hand := null, null;
      ring, linked, position, evicting := [], 0, 0, false;
      BreakRing(SEAL, []);
    }

    /** CSC369_PolicyClockOnRef. */
    method OnRef(frame: Frame, ghost i: nat)
      requires Valid() && i < |frames| && frame == frames[i] && frame.pte != null
      requires if evicting then i == position else i <= linked
      modifies this, frame.pte`reference, frames`next, frames`prev
      ensures Valid() && !evicting && frame.pte.reference
      ensures linked == if i == old(linked) then i + 1 else old(linked)
      ensures position == if old(evicting) || i == old(linked) then i else old(position)
    {
      frame.pte.reference := true;
      if list == null {
        FirstOrder(i);
        frame.next, frame.prev := null, null; // list_entry_init
        list := frame;
        ring, linked, position, evicting := [frame], if i == linked then i + 1 else linked, i, false;
        hand := frame;
        Init(frame);
      } else if frame.next == null {
        Link(frame, i);
      } else {
        StillLinked(i);
      }
    }

    /** With no frame linked, the one referenced is alone in the ring. */
    lemma FirstOrder(i: nat)
      requires Valid() && list == null && i < |frames|
      requires if evicting then i == position else i <= linked
      ensures var n := if i == linked then i + 1 else linked;
              i == 0 && n == 1 && OrderOf(n, i, false, frames[i], frames[i], [frames[i]])
    {
      assert frames[..1] == [frames[0]];
    }

    /** Linking a frame: a new one at the end, a reused one in its old place. */
    method Link(frame: Frame, ghost i: nat)
      requires Valid() && list != null && i < |frames| && frame == frames[i] && frame.next == null
      requires if evicting then i == position else i <= linked
      modifies this, frames`next, frames`prev
      ensures Valid() && !evicting && position == i
      ensures (old(evicting) || i == old(linked)) && linked == if i == old(linked) then i + 1 else old(linked)
    {
      LinkOrder(i);
      LinkUnlinked(i);
      ghost var s, n := ring, if i == linked then i + 1 else linked;
      ring, linked, position, evicting := frames[..n], n, i, false;
      Splice(frame, s, frames[..n]);
    }

    /** The frame belongs before the first of the ring, and is where the hand goes. */
    lemma LinkOrder(i: nat)
      requires Valid() && list != null && i < |frames| && frames[i].next == null
      requires if evicting then i == position else i <= linked
      ensures |ring| > 0 && ring[0] == list
      ensures var n := if i == linked then i + 1 else linked;
              && OrderOf(n, i, false, frames[i], list, frames[..n])
              && Rotation(ring + [frames[i]], frames[..n])
    {
      if evicting {
        Reinserted(frames, i);
      } else {
        if i < linked {
          LinkedBelow(i);
        }
        Appended(frames, i);
      }
    }

    static lemma Reinserted(frames: seq<Frame>, i: nat)
      requires i < |frames|
      ensures Rotation(Others(frames, i) + [frames[i]], frames[..|frames|])
    {
      var t, k := Others(frames, i) + [frames[i]], |frames| - i - 1;
      assert t[k..] + t[..k] == frames[..|frames|];
    }

    static lemma Appended(frames: seq<Frame>, i: nat)
      requires i < |frames|
      ensures Rotation(frames[..i] + [frames[i]], frames[..i + 1])
    {
      var t := frames[..i] + [frames[i]];
      assert t[0..] + t[..0] == frames[..i + 1];
    }

    lemma LinkedBelow(i: nat)
      requires Valid() && !evicting && i < linked
      ensures frames[i].next != null
    {
      BreakRing(SEAL, ring);
      assert ring[i].next == ring[Succ(i, |ring|)];
    }

    /** Neither the frame to link nor one linked later is in the ring. */
    lemma LinkUnlinked(i: nat)
      requires Valid() && list != null && i < |frames| && frames[i].next == null
      requires if evicting then i == position else i <= linked
      ensures frames[i] !in ring && (evicting || i == linked)
      ensures var n := if i == linked then i + 1 else linked;
              forall j {:trigger frames[j].next} | n <= j < |frames| :: frames[j] !in ring && frames[j] != frames[i]
    {
      if !evicting && i < linked {
        LinkedBelow(i);
      }
    }

    /** The same circle, cut elsewhere. */
    static ghost predicate Rotation(r: seq<Frame>, s: seq<Frame>) {
      exists k {:trigger r[k..]} :: 0 <= k <= |r| && s == r[k..] + r[..k]
    }

    /** A frame that is already in the ring is one of those linked. */
    lemma StillLinked(i: nat)
      requires Valid() && i < |frames| && frames[i].next != null
      ensures i < linked && (evicting ==> i != position)
    {}

    /** The statements that link a frame: it goes before list and the hand on it. */
    method Splice(frame: Frame, ghost s: seq<Frame>, ghost r: seq<Frame>)
      requires Ring(s) && |s| > 0 && s[0] == list && frame !in s && Rotation(s + [frame], r)
      modifies this`hand, frame`next, frame`prev, s`next, s`prev
      ensures Ring(r) && hand == frame
    {
      hand := frame;
      frame.next, frame.prev := null, null; // list_entry_init
      AddTail(list, frame, s);
      ghost var t := s + [frame];
      ghost var k :| 0 <= k <= |t| && r == t[k..] + t[..k];
      RingRotate(t, k);
    }

    /** With every frame linked the ring is the frames in order. */
    lemma RingNexts()
      requires Valid() && !evicting && linked == |frames|
      ensures Ring(frames) && ring == frames
    {
      assert frames[..linked] == frames;
    }

    /**
     * The loop of CSC369_PolicyClockEvict: from frame i on, reference bits are cleared up to the
     * first frame whose bit is clear.
     */
    method Sweep(ghost ptes: seq<Pte>, ghost i: nat)
      requires Ring(frames) && Loaded(frames, ptes) && i < |frames| && hand == frames[i]
      modifies this`hand, ptes`reference
      ensures Bits(ptes) == After(old(Bits(ptes)), i)
      ensures hand == frames[Victim(old(Bits(ptes)), i)]
    {
      ghost var bits, d := Bits(ptes), 0;
      BreakSwept(SEAL, ptes, bits, i, d);
      while hand.pte.reference
        invariant d <= |frames| && hand != null && hand.pte != null && SweptSealed(SEAL, ptes, bits, i, d)
        decreases |frames| - d
      {
        Pass(ptes, bits, i, d);
        d := d + 1;
      }
      Stopped(ptes, bits, i, d);
    }

    /** The sweep starts at the frame after the hand, which was at the frame last allocated. */
    method Search(ghost ptes: seq<Pte>, ghost p: nat)
      requires Ring(frames) && Loaded(frames, ptes) && p < |frames| && hand == frames[p]
      modifies this`hand, ptes`reference
      ensures Bits(ptes) == After(old(Bits(ptes)), Succ(p, |frames|))
      ensures hand == frames[Victim(old(Bits(ptes)), Succ(p, |frames|))]
    {
      NextOf(p);
      hand := hand.next;
      Sweep(ptes, Succ(p, |frames|));
    }

    lemma NextOf(p: nat)
      requires Ring(frames) && p < |frames|
      ensures frames[p].next == frames[Succ(p, |frames|)]
    {
      BreakRing(SEAL, frames);
    }

    /** The hand is d places past frame i; the bits of the frames passed were set and are clear now. */
    ghost predicate SweptTo(ptes: seq<Pte>, bits: seq<bool>, i: nat, d: nat)
      reads this`hand, frames`pte, ptes
    {
      && Loaded(frames, ptes) && |bits| == |ptes| && i < |frames| && d <= |frames|
      && hand == frames[At(i, d, |frames|)] && SetBelow(bits, i, d) && Bits(ptes) == Cleared(bits, i, d)
    }

    ghost predicate SweptSealed(seal: nat, ptes: seq<Pte>, bits: seq<bool>, i: nat, d: nat)
      reads this`hand, frames`pte, ptes
    {
      if seal == 0 then SweptTo(ptes, bits, i, d) else SweptSealed(seal - 1, ptes, bits, i, d)
    }

    lemma {:induction false} BreakSwept(seal: nat, ptes: seq<Pte>, bits: seq<bool>, i: nat, d: nat)
      ensures SweptSealed(seal, ptes, bits, i, d) <==> SweptTo(ptes, bits, i, d)
    {
      if seal > 0 {
        BreakSwept(seal - 1, ptes, bits, i, d);
      }
    }

    /** One turn of the loop: clear the frame's bit and move on. */
    method Pass(ghost ptes: seq<Pte>, ghost bits: seq<bool>, ghost i: nat, ghost d: nat)
      requires Ring(frames) && SweptSealed(SEAL, ptes, bits, i, d)
      requires hand != null && hand.pte != null && hand.pte.reference
      modifies this`hand, ptes`reference
      ensures d < |frames| && hand != null && hand.pte != null && SweptSealed(SEAL, ptes, bits, i, d + 1)
    {
      ghost var j := Passing(ptes, bits, i, d);
      MoveOn(ptes, j);
      Passed(ptes, bits, i, d + 1);
    }

    /** Clear the bit of frame j and go to the next. */
    method MoveOn(ghost ptes: seq<Pte>, ghost j: nat)
      requires Ring(frames) && Loaded(frames, ptes) && j < |frames| && hand == frames[j]
      modifies this`hand, ptes`reference
      ensures Loaded(frames, ptes) && Bits(ptes) == old(Bits(ptes))[j := false]
      ensures hand == frames[Succ(j, |frames|)]
    {
      NextOf(j);
      ClearBit(ptes, j);
      hand := hand.next;
    }

    lemma Passed(ptes: seq<Pte>, bits: seq<bool>, i: nat, d: nat)
      requires Loaded(frames, ptes) && i < |bits| == |frames| && d <= |frames| && hand == frames[At(i, d, |frames|)]
      requires SetBelow(bits, i, d) && Bits(ptes) == Cleared(bits, i, d)
      ensures hand != null && hand.pte != null && SweptSealed(SEAL, ptes, bits, i, d)
    {
      BreakSwept(SEAL, ptes, bits, i, d);
    }

    /** The frame j under the hand, and what clearing its bit and moving on makes of the bits. */
    lemma Passing(ptes: seq<Pte>, bits: seq<bool>, i: nat, d: nat) returns (j: nat)
      requires SweptSealed(SEAL, ptes, bits, i, d) && hand != null && hand.pte != null && hand.pte.reference
      ensures i < |bits| == |ptes| == |frames| && d < |frames| && j < |frames| && hand == frames[j]
      ensures Loaded(frames, ptes) && Succ(j, |frames|) == At(i, d + 1, |frames|) && SetBelow(bits, i, d + 1)
      ensures Bits(ptes)[j := false] == Cleared(bits, i, d + 1)
    {
      BreakSwept(SEAL, ptes, bits, i, d);
      j := At(i, d, |frames|);
      BitStillSet(bits, i, d);
    }

    /** Where the loop stops. */
    lemma Stopped(ptes: seq<Pte>, bits: seq<bool>, i: nat, d: nat)
      requires SweptSealed(SEAL, ptes, bits, i, d) && hand != null && hand.pte != null && !hand.pte.reference
      ensures i < |bits| == |frames|
      ensures Bits(ptes) == After(bits, i) && hand == frames[Victim(bits, i)]
    {
      BreakSwept(SEAL, ptes, bits, i, d);
      StopsAt(bits, i, d);
    }

    /** CSC369_PTESetReferenced(curr_frame->pte, false). */
    method ClearBit(ghost ptes: seq<Pte>, ghost j: nat)
      requires Loaded(frames, ptes) && j < |frames| && hand == frames[j]
      modifies ptes`reference
      ensures Loaded(frames, ptes) && Bits(ptes) == old(Bits(ptes))[j := false]
    {
      hand.pte.reference := false;
      OneCleared(frames, ptes, j);
    }

    /** The d bits from i on are all set. */
    ghost predicate SetBelow(bits: seq<bool>, i: nat, d: nat)
      requires i < |bits| && d <= |bits|
    {
      forall e | 0 <= e < d :: bits[At(i, e, |bits|)]
    }

    /** The entries of different frames are different objects. */
    lemma OneCleared(frames: seq<Frame>, ptes: seq<Pte>, j: nat)
      requires Loaded(frames, ptes) && j < |ptes|
      ensures forall i | 0 <= i < |ptes| && i != j :: ptes[i] != ptes[j]
    {}

    /** A bit found set was set from the start, and this is not yet the second round. */
    lemma BitStillSet(bits: seq<bool>, i: nat, d: nat)
      requires i < |bits| && d <= |bits| && Cleared(bits, i, d)[At(i, d, |bits|)]
      requires SetBelow(bits, i, d)
      ensures d < |bits| && SetBelow(bits, i, d + 1)
      ensures At(i, d + 1, |bits|) == Succ(At(i, d, |bits|), |bits|)
      ensures Cleared(bits, i, d + 1) == Cleared(bits, i, d)[At(i, d, |bits|) := false]
    {
      ClearedAt(bits, i, d, At(i, d, |bits|));
      RoundClears(bits, i);
    }

    lemma RoundClears(bits: seq<bool>, i: nat)
      requires i < |bits|
      ensures !Cleared(bits, i, |bits|)[At(i, |bits|, |bits|)]
    {
      assert At(i, 0, |bits|) == i;
      ClearedAt(bits, i, |bits|, i);
    }

    lemma StopsAt(bits: seq<bool>, i: nat, d: nat)
      requires i < |bits| && d <= |bits|
      requires SetBelow(bits, i, d)
      requires !Cleared(bits, i, d)[At(i, d, |bits|)]
      ensures d == Distance(bits, i, 0)
    {
      var r := Distance(bits, i, 0);
      ClearedAt(bits, i, d, At(i, d, |bits|));
      if r > d {
        Apart(bits, i, d);
      }
    }

    lemma Apart(bits: seq<bool>, i: nat, d: nat)
      requires i < |bits| && d < |bits|
      ensures forall e | 0 <= e < d :: At(i, e, |bits|) != At(i, d, |bits|)
    {}

    /** CSC369_PolicyClockEvict. */
    method Evict(ghost ptes: seq<Pte>) returns (r: nat)
      requires Valid() && !evicting && linked == |frames| > 0 && Loaded(frames, ptes)
      modifies this, frames`next, frames`prev, ptes`reference
      ensures Valid() && evicting && linked == |frames|
      ensures var i := Succ(old(position), |frames|);
              && r == position == Victim(old(Bits(ptes)), i)
              && Bits(ptes) == After(old(Bits(ptes)), i)
    {
      RingNexts();
      ghost var v := Victim(Bits(ptes), Succ(position, |frames|));
      Search(ptes, position);
      Detach(v);
      return hand.pte.frameNumber;
    }

    /** The frame under the hand leaves the ring; list moves to the frame after it. */
    method Detach(ghost v: nat)
      requires Distinct(frames) && linked == |frames| && ring == frames && !evicting
      requires v < |frames| && hand == frames[v] && Ring(ring)
      modifies this`list, this`ring, this`position, this`evicting, frames`next, frames`prev
      ensures Valid() && evicting && position == v
    {
      DetachOrder(v);
      ring, position, evicting := Others(frames, v), v, true;
      list := hand.next;
      Cut(v);
      if hand == list {
        list := null;
      }
    }

    /** What is left is the ring of the others, from the frame after the victim on. */
    lemma DetachOrder(v: nat)
      requires Distinct(frames) && v < |frames| && Ring(frames)
      ensures frames[v].next == frames[Succ(v, |frames|)]
      ensures frames[v].next == frames[v] <==> |frames| == 1
      ensures OrderOf(|frames|, v, true, frames[v], if |frames| == 1 then null else frames[v].next, Others(frames, v))
      ensures frames[v] !in Others(frames, v)
    {
      BreakRing(SEAL, frames);
    }

    /** list_del of the frame under the hand, and its links set to NULL again. */
    method Cut(ghost v: nat)
      requires v < |frames| && hand == frames[v] && Ring(frames) && hand !in Others(frames, v)
      modifies frames`next, frames`prev
      ensures Ring(Others(frames, v)) && frames[v].next == null
    {
      Del(hand, frames, v);
      RingSwap(frames[..v], frames[v + 1..]);
      NullLinks(hand, Others(frames, v));
    }
  }
}
