/**
 * The circular doubly-linked list of list.h. An entry is embedded in its frame, so a pointer to
 * the one is a pointer to the other and container_of is the identity; a list head is an entry
 * that is no frame of the coremap.
 */
module IntrusiveList {
  import opened Circles
  import opened PageTables
  import opened Seals
  import opened Sequences

  /** CSC369_Frame. */
  class Frame {
    var free: bool
    var pte: Pte?
    var next: Frame?
    var prev: Frame?

    constructor ()
      ensures free && pte == null && next == null && prev == null
    {
      free, pte, next, prev := true, null, null, null;
    }
  }

  /** The entries form a circle in this order; any rotation describes the same circle. */
  ghost predicate Ring(s: seq<Frame>)
    reads s`next, s`prev
  {
    RingSealed(SEAL, s)
  }

  ghost predicate RingSealed(seal: nat, s: seq<Frame>)
    reads s`next, s`prev
  {
    if seal == 0 then Circular(s) else RingSealed(seal - 1, s)
  }

  lemma {:induction false} BreakRing(seal: nat, s: seq<Frame>)
    ensures RingSealed(seal, s) <==> Circular(s)
  {
    if seal > 0 {
      BreakRing(seal - 1, s);
    }
  }

  /** Every entry is linked with the one after it and the one before. */
  ghost predicate Circular(s: seq<Frame>)
    reads s`next, s`prev
  {
    && Distinct(s)
    && (forall i {:trigger s[i].next} | 0 <= i < |s| :: s[i].next == s[Succ(i, |s|)])
    && (forall i {:trigger s[i].prev} | 0 <= i < |s| :: s[i].prev == s[Pred(i, |s|)])
  }

  /** A rotation by k moves each entry k places. */
  lemma RotateAt<T>(s: seq<T>, k: nat, i: nat)
    requires k <= |s| && i < |s|
    ensures (s[k..] + s[..k])[i] == s[At(i, k, |s|)]
    ensures At(Succ(i, |s|), k, |s|) == Succ(At(i, k, |s|), |s|)
    ensures At(Pred(i, |s|), k, |s|) == Pred(At(i, k, |s|), |s|)
  {}

  lemma DistinctRotate<T>(s: seq<T>, k: nat)
    requires Distinct(s) && k <= |s|
    ensures Distinct(s[k..] + s[..k])
  {}

  lemma RingRotate(s: seq<Frame>, k: nat)
    requires Ring(s) && k <= |s|
    ensures Ring(s[k..] + s[..k])
  {
    var n, r := |s|, s[k..] + s[..k];
    BreakRing(SEAL, s);
    BreakRing(SEAL, r);
    DistinctRotate(s, k);
    forall i | 0 <= i < n
      ensures r[i].next == r[Succ(i, n)] && r[i].prev == r[Pred(i, n)]
    {
      RotateAt(s, k, i);
      RotateAt(s, k, Succ(i, n));
      RotateAt(s, k, Pred(i, n));
    }
  }

  /** The same circle, cut elsewhere. */
  lemma RingSwap(a: seq<Frame>, b: seq<Frame>)
    requires Ring(a + b)
    ensures Ring(b + a)
  {
    RingRotate(a + b, |a|);
    assert (a + b)[|a|..] + (a + b)[..|a|] == b + a;
  }

  /** __list_insert, between the last and the first entry of the circle. */
  method Insert(entry: Frame, prev: Frame, next: Frame, ghost s: seq<Frame>)
    requires Ring(s) && |s| > 0 && entry !in s
    requires prev == s[|s| - 1] && next == s[0]
    modifies entry`next, entry`prev, prev`next, next`prev
    ensures Ring(s + [entry])
  {
    BreakRing(SEAL, s);
    next.prev := entry;
    entry.next := next;
    entry.prev := prev;
    prev.next := entry;
    BreakRing(SEAL, s + [entry]);
  }

  /** list_add_tail: before the head. */
  method AddTail(head: Frame, entry: Frame, ghost s: seq<Frame>)
    requires Ring(s) && |s| > 0 && s[0] == head && entry !in s
    modifies entry`next, entry`prev, s`next, s`prev
    ensures Ring(s + [entry])
  {
    BreakRing(SEAL, s);
    Insert(entry, head.prev, head, s);
  }

  lemma HeadRotated<T>(s: seq<T>, x: T)
    requires |s| > 0
    ensures var t := s[1..] + s[..1] + [x];
            t[|s| - 1..] + t[..|s| - 1] == [s[0], x] + s[1..]
  {
    var t := s[1..] + s[..1] + [x];
    assert t[..|s| - 1] == s[1..];
    assert t[|s| - 1..] == [s[0], x];
  }

  /** list_add_head: behind the head. */
  method AddHead(head: Frame, entry: Frame, ghost s: seq<Frame>)
    requires Ring(s) && |s| > 0 && s[0] == head && entry !in s
    modifies entry`next, entry`prev, s`next, s`prev
    ensures Ring([head, entry] + s[1..])
  {
    RingRotate(s, 1);
    ghost var r := s[1..] + s[..1];
    BreakRing(SEAL, s);
    BreakRing(SEAL, r);
    Insert(entry, head, head.next, r);
    RingRotate(r + [entry], |s| - 1);
    HeadRotated(s, entry);
  }

  /** list_del of the last entry of the circle. */
  method Unlink(entry: Frame, ghost s: seq<Frame>)
    requires Ring(s + [entry])
    modifies entry`next, entry`prev, s`next, s`prev
    ensures entry.next == null && entry.prev == null
    ensures Ring(s)
  {
    ghost var r := s + [entry];
    LastOf(s, entry);
    entry.next.prev := entry.prev;
    entry.prev.next := entry.next;
    entry.next := null;
    entry.prev := null;
    BreakRing(SEAL, s);
  }

  /** The last entry of a circle and its neighbours. */
  lemma LastOf(s: seq<Frame>, entry: Frame)
    requires Ring(s + [entry])
    ensures entry !in s && Distinct(s)
    ensures forall i | 0 <= i < |s| - 1 :: s[i].next == s[i + 1]
    ensures forall i | 0 < i < |s| :: s[i].prev == s[i - 1]
    ensures if s == [] then entry.next == entry.prev == entry else entry.next == s[0] && entry.prev == s[|s| - 1]
  {
    var r, n := s + [entry], |s|;
    BreakRing(SEAL, r);
    assert r[n] == entry && r[..n] == s;
    assert r[n].next == r[Succ(n, n + 1)] && r[n].prev == r[Pred(n, n + 1)];
    forall i | 0 <= i < n - 1
      ensures s[i].next == s[i + 1]
    {
      assert r[i].next == r[Succ(i, n + 1)];
    }
    forall i | 0 < i < n
      ensures s[i].prev == s[i - 1]
    {
      assert r[i].prev == r[Pred(i, n + 1)];
    }
    forall i | 0 <= i < n
      ensures s[i] != entry
    {
      assert r[i] == s[i];
    }
    DistinctPrefix(r, n);
  }

  lemma DistinctPrefix<T>(s: seq<T>, n: nat)
    requires Distinct(s) && n <= |s|
    ensures Distinct(s[..n])
  {}

  /** list_del: the other entries close up behind it. */
  method Del(entry: Frame, ghost s: seq<Frame>, ghost k: nat)
    requires Ring(s) && k < |s| && s[k] == entry
    modifies s`next, s`prev
    ensures entry.next == null && entry.prev == null
    ensures Ring(s[..k] + s[k + 1..])
  {
    RingRotate(s, k + 1);
    ghost var r := s[k + 1..] + s[..k];
    assert r + [entry] == s[k + 1..] + s[..k + 1];
    Unlink(entry, r);
    RingRotate(r, |s| - k - 1);
    assert r[|s| - k - 1..] + r[..|s| - k - 1] == s[..k] + s[k + 1..];
  }

  /** Both links of an entry outside the circle set to NULL. */
  method NullLinks(entry: Frame, ghost s: seq<Frame>)
    requires Ring(s) && entry !in s
    modifies entry`next, entry`prev
    ensures Ring(s) && entry.next == null && entry.prev == null
  {
    BreakRing(SEAL, s);
    entry.next := null;
    entry.prev := null;
    BreakRing(SEAL, s);
  }

  /** list_init: an entry alone in its circle. */
  method Init(head: Frame)
    modifies head`next, head`prev
    ensures Ring([head])
  {
    head.next := head;
    head.prev := head;
    BreakRing(SEAL, [head]);
  }
}
