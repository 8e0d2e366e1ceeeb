/** Simplified 2Q on two sequences, and what its order means in time. */
module S2QSpec {
  import opened Sequences

  /** a1 in the order of loading, oldest first; am most recently used first. */
  datatype Queues<T> = Queues(a1: seq<T>, am: seq<T>)

  function Without<T(==)>(s: seq<T>, x: T): (r: seq<T>)
    ensures forall y | y in r :: y in s
  {
    if s == [] then []
    else if s[0] == x then s[1..]
    else [s[0]] + Without(s[1..], x)
  }

  predicate Queued<T(==)>(q: Queues<T>, x: T) {
    x in q.a1 || x in q.am
  }

  /** The queues without a queued page. */
  function Taken<T(==)>(q: Queues<T>, x: T): Queues<T> {
    if x in q.a1 then Queues(Without(q.a1, x), q.am) else Queues(q.a1, Without(q.am, x))
  }

  /** A reference: a page not queued joins a1; a queued one moves to the front of am. */
  function Touch<T(==)>(q: Queues<T>, x: T): Queues<T> {
    if Queued(q, x) then Queues(Taken(q, x).a1, [x] + Taken(q, x).am)
    else Queues(q.a1 + [x], q.am)
  }

  /** The oldest of a1 is evicted when a1 holds more than a tenth of memory, the last of am otherwise. */
  predicate FromA1<T>(q: Queues<T>, memsize: nat) {
    |q.a1| > memsize / 10
  }

  /** All frames are queued, as they are when the coremap asks for a victim. */
  predicate Full<T>(q: Queues<T>, memsize: nat) {
    |q.a1| + |q.am| == memsize > 0
  }

  /** The queue the policy evicts from is never empty, so it never evicts a list head. */
  lemma NeverEmpty<T>(q: Queues<T>, memsize: nat)
    requires Full(q, memsize)
    ensures if FromA1(q, memsize) then |q.a1| > 0 else |q.am| >= memsize - memsize / 10 > 0
  {}

  function Victim<T>(q: Queues<T>, memsize: nat): T
    requires Full(q, memsize)
  {
    NeverEmpty(q, memsize);
    if FromA1(q, memsize) then q.a1[0] else q.am[|q.am| - 1]
  }

  function Evict<T>(q: Queues<T>, memsize: nat): Queues<T>
    requires Full(q, memsize)
  {
    NeverEmpty(q, memsize);
    if FromA1(q, memsize) then Queues(q.a1[1..], q.am) else Queues(q.a1, q.am[..|q.am| - 1])
  }

  /** Eviction is taking the victim out of its queue; the others stay. */
  lemma EvictTakes<T>(q: Queues<T>, memsize: nat)
    requires Full(q, memsize) && Distinct(q.a1) && Distinct(q.am) && forall x | x in q.a1 :: x !in q.am
    ensures var v, r := Victim(q, memsize), Evict(q, memsize);
            && Queued(q, v) && Taken(q, v) == r
            && forall x | Queued(r, x) :: Queued(q, x) && x != v
  {
    NeverEmpty(q, memsize);
    if FromA1(q, memsize) {
      var k := WithoutIs(q.a1, q.a1[0]);
    } else {
      var v := q.am[|q.am| - 1];
      assert v in q.am;
      var k := WithoutIs(q.am, v);
      assert k == |q.am| - 1;
    }
  }

  // ----- the order in time -----

  /** A history: when each queued page was loaded and when it was last referenced. */
  datatype History<T(==)> = History(q: Queues<T>, now: nat, loaded: map<T, nat>, last: map<T, nat>)

  /** The page in x is referenced now; if it was not queued it is being loaded. */
  function Reference<T>(h: History<T>, x: T): History<T> {
    History(Touch(h.q, x), h.now + 1,
            if Queued(h.q, x) then h.loaded else h.loaded[x := h.now],
            h.last[x := h.now])
  }

  function Remove<T>(h: History<T>, memsize: nat): History<T>
    requires Full(h.q, memsize)
  {
    h.(q := Evict(h.q, memsize))
  }

  /**
   * a1 holds the pages referenced once since they were loaded, in the order of loading; am holds
   * those referenced again, in the reverse order of their last reference.
   */
  ghost predicate Ordered<T>(h: History<T>) {
    && (forall x | x in h.q.a1 :: x in h.loaded && x in h.last && h.last[x] == h.loaded[x] < h.now)
    && (forall x | x in h.q.am :: x in h.loaded && x in h.last && h.loaded[x] < h.last[x] < h.now)
    && Increasing(h.q.a1, h.loaded)
    && Decreasing(h.q.am, h.last)
  }

  ghost predicate Increasing<T>(s: seq<T>, time: map<T, nat>)
    requires forall x | x in s :: x in time
  {
    forall i, j | 0 <= i < j < |s| :: time[s[i]] < time[s[j]]
  }

  ghost predicate Decreasing<T>(s: seq<T>, time: map<T, nat>)
    requires forall x | x in s :: x in time
  {
    forall i, j | 0 <= i < j < |s| :: time[s[i]] > time[s[j]]
  }

  /** Taking a page out of its queue leaves the others in order. */
  lemma WithoutInOrder<T>(s: seq<T>, x: T, time: map<T, nat>)
    requires x in s && Distinct(s) && forall y | y in s :: y in time
    ensures x !in Without(s, x)
    ensures Increasing(s, time) ==> Increasing(Without(s, x), time)
    ensures Decreasing(s, time) ==> Decreasing(Without(s, x), time)
  {
    var k := WithoutIs(s, x);
    var r := Without(s, x);
    forall i, j | 0 <= i < j < |r|
      ensures Increasing(s, time) ==> time[r[i]] < time[r[j]]
      ensures Decreasing(s, time) ==> time[r[i]] > time[r[j]]
    {
      assert r[i] == s[if i < k then i else i + 1] && r[j] == s[if j < k then j else j + 1];
    }
  }

  /** So no page is queued twice. */
  lemma OrderedDistinct<T>(h: History<T>)
    requires Ordered(h)
    ensures Distinct(h.q.a1) && Distinct(h.q.am) && forall x | x in h.q.a1 :: x !in h.q.am
  {}

  lemma {:induction false} WithoutIs<T>(s: seq<T>, x: T) returns (k: nat)
    requires x in s
    ensures k < |s| && s[k] == x && Without(s, x) == s[..k] + s[k + 1..]
    ensures |Without(s, x)| == |s| - 1
    ensures forall i | 0 <= i < |s| - 1 :: Without(s, x)[i] == s[if i < k then i else i + 1]
  {
    if s[0] == x {
      k := 0;
    } else {
      var i := WithoutIs(s[1..], x);
      k := i + 1;
      assert Without(s, x) == [s[0]] + (s[1..][..i] + s[1..][i + 1..]);
    }
  }

  /** A page referenced now goes before all referenced earlier. */
  lemma FrontInOrder<T>(rest: seq<T>, x: T, time: map<T, nat>, now: nat)
    requires x !in rest && (forall y | y in rest :: y in time && time[y] < now) && Decreasing(rest, time)
    ensures forall y | y in [x] + rest :: y in time[x := now] && (y == x || y in rest)
    ensures Decreasing([x] + rest, time[x := now])
  {
    var s := [x] + rest;
    forall i, j | 0 <= i < j < |s|
      ensures time[x := now][s[i]] > time[x := now][s[j]]
    {
      assert s[j] == rest[j - 1];
      if i > 0 {
        assert s[i] == rest[i - 1];
      }
    }
  }

  lemma SecondReference<T>(h: History<T>, x: T)
    requires Ordered(h) && x in h.q.a1
    ensures Ordered(Reference(h, x))
  {
    OrderedDistinct(h);
    WithoutInOrder(h.q.a1, x, h.loaded);
    FrontInOrder(h.q.am, x, h.last, h.now);
  }

  lemma LaterReference<T>(h: History<T>, x: T)
    requires Ordered(h) && x in h.q.am
    ensures Ordered(Reference(h, x))
  {
    OrderedDistinct(h);
    WithoutInOrder(h.q.am, x, h.last);
    FrontInOrder(Without(h.q.am, x), x, h.last, h.now);
    assert Reference(h, x).q == Queues(h.q.a1, [x] + Without(h.q.am, x));
  }

  lemma FirstReference<T>(h: History<T>, x: T)
    requires Ordered(h) && !Queued(h.q, x)
    ensures Ordered(Reference(h, x))
  {}

  lemma ReferenceOrdered<T>(h: History<T>, x: T)
    requires Ordered(h)
    ensures Ordered(Reference(h, x))
  {
    if x in h.q.a1 {
      SecondReference(h, x);
    } else if x in h.q.am {
      LaterReference(h, x);
    } else {
      FirstReference(h, x);
    }
  }

  lemma RemoveOrdered<T>(h: History<T>, memsize: nat)
    requires Ordered(h) && Full(h.q, memsize)
    ensures Ordered(Remove(h, memsize))
  {
    NeverEmpty(h.q, memsize);
  }

  /** The victim: the page loaded first among those used once, or the least recently used of the others. */
  lemma VictimIsOldest<T>(h: History<T>, memsize: nat)
    requires Ordered(h) && Full(h.q, memsize)
    ensures var v := Victim(h.q, memsize);
            if FromA1(h.q, memsize)
            then v in h.q.a1 && h.last[v] == h.loaded[v] && forall x | x in h.q.a1 && x != v ::
                  h.loaded[v] < h.loaded[x]
            else v in h.q.am && h.last[v] > h.loaded[v] && forall x | x in h.q.am && x != v :: h.last[v] < h.last[x]
  {
    NeverEmpty(h.q, memsize);
  }

  // ----- whole runs -----

  /** A reference, preceded by an eviction when the coremap had no frame left for a new page. */
  datatype Event<T> = Hit(x: T) | Load(x: T) | Replace(x: T)

  /** The events that fit a state: hits on queued pages, loads into frames left, replacements when full. */
  ghost predicate Fits<T>(h: History<T>, e: Event<T>, memsize: nat) {
    match e
    case Hit(x) => Queued(h.q, x)
    case Load(x) => !Queued(h.q, x) && |h.q.a1| + |h.q.am| < memsize
    case Replace(x) => !Queued(h.q, x) && Full(h.q, memsize)
  }

  function Apply<T>(h: History<T>, e: Event<T>, memsize: nat): History<T>
    requires Fits(h, e, memsize)
  {
    match e
    case Hit(x) => Reference(h, x)
    case Load(x) => Reference(h, x)
    case Replace(x) => Reference(Remove(h, memsize), x)
  }

  ghost predicate Fitting<T>(h: History<T>, events: seq<Event<T>>, memsize: nat)
    decreases |events|
  {
    events == [] || (Fits(h, events[0], memsize) && Fitting(Apply(h, events[0], memsize), events[1..], memsize))
  }

  ghost function Run<T>(h: History<T>, events: seq<Event<T>>, memsize: nat): History<T>
    requires Fitting(h, events, memsize)
    decreases |events|
  {
    if events == [] then h else Run(Apply(h, events[0], memsize), events[1..], memsize)
  }

  /** Over every run of a simulation the queues keep their order in time and never outgrow memory. */
  lemma {:induction false} RunOrdered<T>(h: History<T>, events: seq<Event<T>>, memsize: nat)
    requires Ordered(h) && |h.q.a1| + |h.q.am| <= memsize && Fitting(h, events, memsize)
    ensures Ordered(Run(h, events, memsize))
    ensures var q := Run(h, events, memsize).q; |q.a1| + |q.am| <= memsize
    decreases |events|
  {
    if events != [] {
      var e := events[0];
      match e {
        case Hit(x) => ReferenceOrdered(h, x); TouchSize(h.q, x);
        case Load(x) => ReferenceOrdered(h, x); TouchSize(h.q, x);
        case Replace(x) => 
          RemoveOrdered(h, memsize);
          ReferenceOrdered(Remove(h, memsize), x);
          TouchSize(Remove(h, memsize).q, x);
      }
      RunOrdered(Apply(h, e, memsize), events[1..], memsize);
    }
  }

  lemma TouchSize<T>(q: Queues<T>, x: T)
    ensures |Touch(q, x).a1| + |Touch(q, x).am| == |q.a1| + |q.am| + (if Queued(q, x) then 0 else 1)
  {
    if x in q.a1 {
      var k := WithoutIs(q.a1, x);
    } else if x in q.am {
      var k := WithoutIs(q.am, x);
    }
  }
}
