/**
 * The victims of a whole run, told from its accesses: the clock is a queue with second chances, and
 * S2Q goes by the times at which pages were loaded and last referenced.
 */
module Replacement {
  import opened Circles
  import opened Options
  import opened Machine
  import opened Paging
  import opened PagingRefinement
  import opened PolicySpec
  import opened Visits
  import opened Seals
  import ClockSpec
  import Queues = S2QSpec
  import Sequences

  /**
   * What there is to know of the frames in use. In the queue they stand in the order in which their
   * pages came, again being those with another chance; loaded and last are the times of the first
   * and the latest reference to the page a frame holds.
   */
  datatype Memory = Fifo(queue: seq<nat>, again: set<nat>) | Times(now: nat, loaded: map<nat, nat>, last: map<nat, nat>)

  /** The head of the queue goes to its end for as long as it has another chance, which it loses. */
  function Passed(queue: seq<nat>, again: set<nat>): (m: Memory)
    requires queue != []
    ensures m.Fifo? && |m.queue| == |queue| && m.queue[0] !in m.again
    decreases |again|
  {
    if queue[0] in again then Passed(queue[1..] + [queue[0]], again - {queue[0]}) else Fifo(queue, again)
  }

  /** The frames whose pages have been referenced once. */
  function Once(loaded: map<nat, nat>, last: map<nat, nat>): set<nat> {
    set f | f in loaded && f in last && loaded[f] == last[f]
  }

  /**
   * Frame v is the one to be reused of n: the first in the queue without another chance; or, if more
   * than a tenth of the frames hold pages referenced once, the first loaded of those, and otherwise
   * the least recently referenced of the others.
   */
  ghost predicate IsVictim(m: Memory, n: nat, v: nat) {
    match m
    case Fifo(queue, again) => queue != [] && v == Passed(queue, again).queue[0]
    case Times(_, loaded, last) =>
      if |Once(loaded, last)| > n / 10 then
        v in Once(loaded, last) && forall f | f in Once(loaded, last) && f != v :: loaded[v] < loaded[f]
      else
        v in last && v !in Once(loaded, last)
        && forall f | f in last && f != v && f !in Once(loaded, last) :: last[v] < last[f]
  }

  /** After a reference to the page in frame f. */
  function Hit(m: Memory, f: nat): Memory {
    match m
    case Fifo(queue, again) => Fifo(queue, again + {f})
    case Times(now, loaded, last) => Times(now + 1, loaded, last[f := now])
  }

  /** After the first reference to a page in a frame not in use before. */
  function Load(m: Memory, f: nat): Memory {
    match m
    case Fifo(queue, again) => Fifo(queue + [f], again + {f})
    case Times(now, loaded, last) => Times(now + 1, loaded[f := now], last[f := now])
  }

  /** After a victim has been put out. */
  function Left(m: Memory): Memory {
    match m
    case Fifo(queue, again) =>
      if queue == [] then m else Fifo(Passed(queue, again).queue[1..], Passed(queue, again).again)
    case Times(_, _, _) => m
  }

  /** The frame an access to page p goes to. */
  function FrameFor(held: seq<Option<nat>>, p: nat, victim: nat): nat
    requires victim < |held|
  {
    if Some(p) in held then FirstOf(held, Some(p)) else Place(held, victim)
  }

  predicate NeedsVictim(held: seq<Option<nat>>, p: nat) {
    Some(p) !in held && None !in held
  }

  function Next(m: Memory, held: seq<Option<nat>>, p: nat, victim: nat): Memory
    requires victim < |held|
  {
    var f := FrameFor(held, p, victim);
    if Some(p) in held then Hit(m, f)
    else if None in held then Load(m, f)
    else Load(Left(m), f)
  }

  /** Each victim needed for the first n accesses is the one to be reused. */
  ghost predicate Chosen(r: Residents, m: Memory, trace: seq<Access>, victims: seq<nat>, n: nat)
    requires |victims| == |trace| && AllBelow(victims, |r.held|) && n <= |trace|
    decreases n
  {
    n == 0 ||
    (var p := PageOf(trace[0]);
     && (NeedsVictim(r.held, p) ==> IsVictim(m, |r.held|, victims[0]))
     && Chosen(Visit(r, trace[0], victims[0]), Next(m, r.held, p, victims[0]), trace[1..], victims[1..], n - 1))
  }

  /** A victim is told from the others. */
  lemma OneVictim(m: Memory, n: nat, v: nat, w: nat)
    requires IsVictim(m, n, v) && IsVictim(m, n, w)
    ensures v == w
  {}

  // ----- the clock is a queue with second chances -----

  /** The circle of n from i on. */
  function From(i: nat, n: nat): (q: seq<nat>)
    requires i < n
    ensures |q| == n
  {
    seq(n, d requires 0 <= d < n => At(i, d, n))
  }

  function SetBits(bits: seq<bool>): set<nat> {
    set j: nat | j < |bits| && bits[j]
  }

  lemma FromNext(i: nat, n: nat)
    requires i < n
    ensures From(i, n)[0] == i && From(i, n)[1..] + [i] == From(Succ(i, n), n)
  {
    var q := From(i, n)[1..] + [i];
    forall d | 0 <= d < n
      ensures q[d] == From(Succ(i, n), n)[d]
    {}
  }

  /** Frame j has been passed over by the sweep, or not. */
  lemma PassOne(bits: seq<bool>, i: nat, d: nat)
    requires i < |bits| && d < ClockSpec.Distance(bits, i, 0)
    ensures var n, j, c := |bits|, At(i, d, |bits|), ClockSpec.Cleared(bits, i, d);
            && c[j] && At(i, d + 1, n) == Succ(j, n)
            && SetBits(c) - {j} == SetBits(ClockSpec.Cleared(bits, i, d + 1))
  {
    ClockSpec.ClearedAt(bits, i, d, At(i, d, |bits|));
  }

  /** After d frames have been passed over; the sweep stops at the frame at the head of the queue. */
  lemma {:induction false} SweepIsQueue(bits: seq<bool>, i: nat, d: nat)
    requires i < |bits| && d <= ClockSpec.Distance(bits, i, 0)
    ensures var n, v := |bits|, ClockSpec.Victim(bits, i);
            Passed(From(At(i, d, n) , n), SetBits(ClockSpec.Cleared(bits, i, d)))
            == Fifo(From(v, n), SetBits(ClockSpec.After(bits, i)))
    decreases ClockSpec.Distance(bits, i, 0) - d
  {
    FromNext(At(i, d, |bits|), |bits|);
    if d < ClockSpec.Distance(bits, i, 0) {
      PassOne(bits, i, d);
      SweepIsQueue(bits, i, d + 1);
    } else {
      ClockSpec.SecondChance(bits, i);
    }
  }

  /** The hand is on the frame last loaded, the end of the queue. */
  ghost predicate IsFifo(o: Order, m: Memory, k: nat, n: nat) {
    && o.Hand? && m.Fifo? && |o.bits| == k && m.again == SetBits(o.bits)
    && (if k == 0 then m.queue == [] else o.position < k && m.queue == From(Succ(o.position, k), k))
    && (0 < k < n ==> o.position == k - 1)
  }

  lemma FifoHit(o: Order, m: Memory, k: nat, n: nat, f: nat)
    requires IsFifo(o, m, k, n) && f < k
    ensures IsFifo(Referenced(o, f), Hit(m, f), k, n)
  {}

  lemma FifoLoad(o: Order, m: Memory, k: nat, n: nat)
    requires IsFifo(o, m, k, n) && k < n
    ensures IsFifo(Referenced(o, k), Load(m, k), k + 1, n)
  {
    assert Load(m, k).queue == From(0, k + 1);
  }

  lemma FifoReplace(o: Order, m: Memory, n: nat)
    requires IsFifo(o, m, n, n) && n > 0
    ensures Full(o, n) && IsVictim(m, n, Victim(o, n))
    ensures IsFifo(Referenced(Evicted(o, n), Victim(o, n)), Load(Left(m), Victim(o, n)), n, n)
  {
    var v := Victim(o, n);
    SweepIsQueue(o.bits, Succ(o.position, n), 0);
    FromNext(v, n);
  }

  // ----- the two queues are in the order of time -----

  ghost function HistoryOf(q: Queues.Queues<nat>, m: Memory): Queues.History<nat>
    requires m.Times?
  {
    Queues.History(q, m.now, m.loaded, m.last)
  }

  /** All of the k frames in use are queued, in the order of their times. */
  ghost predicate IsTimes(o: Order, m: Memory, k: nat) {
    && o.Lines? && m.Times? && Queues.Ordered(HistoryOf(o.queues, m)) && |o.queues.a1| + |o.queues.am| == k
    && (forall f: nat :: f in m.loaded <==> f < k) && (forall f: nat :: f in m.last <==> f < k)
    && (forall f: nat :: Queues.Queued(o.queues, f) <==> f < k)
  }

  lemma TouchQueues(q: Queues.Queues<nat>, f: nat)
    ensures forall g :: Queues.Queued(Queues.Touch(q, f), g) ==> Queues.Queued(q, g) || g == f
    ensures forall g :: Queues.Queued(q, g) || g == f ==> Queues.Queued(Queues.Touch(q, f), g)
  {
    if f in q.a1 {
      var i := Queues.WithoutIs(q.a1, f);
      assert q.a1 == q.a1[..i] + [f] + q.a1[i + 1..];
    } else if f in q.am {
      var i := Queues.WithoutIs(q.am, f);
      assert q.am == q.am[..i] + [f] + q.am[i + 1..];
    }
  }

  lemma TimesHit(o: Order, m: Memory, k: nat, f: nat)
    requires IsTimes(o, m, k) && f < k
    ensures IsTimes(Referenced(o, f), Hit(m, f), k)
  {
    TouchQueues(o.queues, f);
    Queues.TouchSize(o.queues, f);
    Queues.ReferenceOrdered(HistoryOf(o.queues, m), f);
  }

  lemma TimesLoad(o: Order, m: Memory, k: nat)
    requires IsTimes(o, m, k)
    ensures IsTimes(Referenced(o, k), Load(m, k), k + 1)
  {
    TouchQueues(o.queues, k);
    Queues.TouchSize(o.queues, k);
    Queues.ReferenceOrdered(HistoryOf(o.queues, m), k);
  }

  lemma {:induction false} SizeOf(s: seq<nat>, t: set<nat>)
    requires Sequences.Distinct(s) && forall x :: x in t <==> x in s
    ensures |t| == |s|
  {
    if s != [] {
      assert s[0] in t;
      SizeOf(s[1..], t - {s[0]});
    }
  }

  /** The pages referenced once are those in a1. */
  lemma OnceIsA1(o: Order, m: Memory, k: nat)
    requires IsTimes(o, m, k)
    ensures forall f: nat :: f in Once(m.loaded, m.last) <==> f in o.queues.a1
    ensures |Once(m.loaded, m.last)| == |o.queues.a1|
    ensures forall f: nat :: f in o.queues.am <==> f in m.last && f !in o.queues.a1
  {
    Queues.OrderedDistinct(HistoryOf(o.queues, m));
    forall f: nat
      ensures f in Once(m.loaded, m.last) <==> f in o.queues.a1
      ensures f in o.queues.am <==> f in m.last && f !in o.queues.a1
    {
      assert Queues.Queued(o.queues, f) <==> f < k;
    }
    SizeOf(o.queues.a1, Once(m.loaded, m.last));
  }

  lemma TimesVictim(o: Order, m: Memory, n: nat)
    requires IsTimes(o, m, n) && n > 0
    ensures Full(o, n) && IsVictim(m, n, Victim(o, n))
  {
    OnceIsA1(o, m, n);
    forall i | 0 <= i < |o.queues.a1|
      ensures o.queues.a1[i] < n
    {
      assert Queues.Queued(o.queues, o.queues.a1[i]);
    }
    forall i | 0 <= i < |o.queues.am|
      ensures o.queues.am[i] < n
    {
      assert Queues.Queued(o.queues, o.queues.am[i]);
    }
    Queues.VictimIsOldest(HistoryOf(o.queues, m), n);
  }

  /** Without the victim. */
  lemma WithoutVictim(q: Queues.Queues<nat>, m: Memory, n: nat, g: nat)
    requires m.Times? && Queues.Ordered(HistoryOf(q, m)) && Queues.Full(q, n)
    ensures Queues.Queued(Queues.Evict(q, n), g) <==> Queues.Queued(q, g) && g != Queues.Victim(q, n)
  {
    Queues.OrderedDistinct(HistoryOf(q, m));
    Queues.EvictTakes(q, n);
    Queues.NeverEmpty(q, n);
    if Queues.FromA1(q, n) {
      assert q.a1 == [q.a1[0]] + q.a1[1..];
    } else {
      assert q.am == q.am[..|q.am| - 1] + [q.am[|q.am| - 1]];
    }
  }

  lemma TimesReplace(o: Order, m: Memory, n: nat)
    requires IsTimes(o, m, n) && n > 0
    ensures Full(o, n) && IsVictim(m, n, Victim(o, n))
    ensures IsTimes(Referenced(Evicted(o, n), Victim(o, n)), Load(Left(m), Victim(o, n)), n)
  {
    TimesVictim(o, m, n);
    var v, q := Victim(o, n), Queues.Evict(o.queues, n);
    forall g: nat
      ensures Queues.Queued(q, g) <==> g < n && g != v
    {
      WithoutVictim(o.queues, m, n, g);
    }
    Queues.RemoveOrdered(HistoryOf(o.queues, m), n);
    TouchQueues(q, v);
    Queues.TouchSize(q, v);
    Queues.NeverEmpty(o.queues, n);
    Queues.ReferenceOrdered(HistoryOf(q, m), v);
  }

  // ----- either policy -----

  /** k of n frames are in use. */
  ghost predicate Matches(o: Order, m: Memory, k: nat, n: nat) {
    match o
    case Hand(_, _) => IsFifo(o, m, k, n)
    case Lines(_) => IsTimes(o, m, k)
  }

  lemma HitMatches(o: Order, m: Memory, k: nat, n: nat, f: nat)
    requires Matches(o, m, k, n) && f < k
    ensures Matches(Referenced(o, f), Hit(m, f), k, n)
  {
    match o
    case Hand(_, _) => FifoHit(o, m, k, n, f);
    case Lines(_) => TimesHit(o, m, k, f);
  }

  lemma LoadMatches(o: Order, m: Memory, k: nat, n: nat)
    requires Matches(o, m, k, n) && k < n
    ensures Matches(Referenced(o, k), Load(m, k), k + 1, n)
  {
    match o
    case Hand(_, _) => FifoLoad(o, m, k, n);
    case Lines(_) => TimesLoad(o, m, k);
  }

  lemma ReplaceMatches(o: Order, m: Memory, n: nat)
    requires Matches(o, m, n, n) && n > 0
    ensures Full(o, n) && IsVictim(m, n, Victim(o, n))
    ensures Matches(Referenced(Evicted(o, n), Victim(o, n)), Load(Left(m), Victim(o, n)), n, n)
  {
    match o
    case Hand(_, _) => FifoReplace(o, m, n);
    case Lines(_) => TimesReplace(o, m, n);
  }

  // ----- one access -----

  /** The frames in use are the first ones. */
  ghost predicate InUse(held: seq<Option<nat>>, k: nat) {
    k <= |held| && forall f | 0 <= f < |held| :: held[f] == None <==> f >= k
  }

  lemma AllInUse(held: seq<Option<nat>>, k: nat)
    requires InUse(held, k)
    ensures None in held <==> k < |held|
  {
    if k < |held| {
      assert held[k] == None;
    }
  }

  /** The frame an access gets. */
  lemma FrameIs(s: State, r: Residents, a: Access, victim: nat)
    requires Mapped(s) && Tracks(s, r) && victim < |s.frames| && GetFrameNumber(s, a, victim).Ran?
    ensures GetFrameNumber(s, a, victim).frame == FrameFor(r.held, PageOf(a), victim)
  {
    var p := PageOf(a);
    InMemory(s, r.held, p);
    PlaceIs(s, r.held, victim);
  }

  lemma AsksIs(s: State, r: Residents, p: nat)
    requires Mapped(s) && Tracks(s, r)
    ensures Asks(s, p) <==> NeedsVictim(r.held, p)
  {
    InMemory(s, r.held, p);
    PlaceIs(s, r.held, 0);
  }

  /** The policy's answer to an access is the frame to be reused, if one is needed. */
  lemma AnswerIs(s: State, r: Residents, o: Order, m: Memory, k: nat, p: nat)
    requires Mapped(s) && Tracks(s, r) && InUse(r.held, k) && Matches(o, m, k, |r.held|)
    ensures NeedsVictim(r.held, p) ==> k == |r.held| && Full(o, k) && IsVictim(m, |r.held|, Answer(s, o, p))
  {
    AsksIs(s, r, p);
    AllInUse(r.held, k);
    if NeedsVictim(r.held, p) {
      ReplaceMatches(o, m, k);
    }
  }

  /** Where the next page goes. */
  lemma HeldNext(r: Residents, a: Access, victim: nat, k: nat)
    requires InUse(r.held, k) && victim < |r.held|
    ensures var p, f, held := PageOf(a), FrameFor(r.held, PageOf(a), victim), Visit(r, a, victim).held;
            if Some(p) in r.held then f < k && InUse(held, k)
            else if None in r.held then f == k < |r.held| && InUse(held, k + 1)
            else f == victim && k == |r.held| && InUse(held, k)
  {
    AllInUse(r.held, k);
    if k < |r.held| {
      assert r.held[k] == None;
      assert r.held[FrameFor(r.held, PageOf(a), victim)] in [None, Some(PageOf(a))];
    }
  }

  /** One access more. */
  lemma NextMatches(s: State, r: Residents, o: Order, m: Memory, k: nat, a: Access) returns (k': nat)
    requires Mapped(s) && Tracks(s, r) && InUse(r.held, k) && Matches(o, m, k, |r.held|)
    requires GetFrameNumber(s, a, Answer(s, o, PageOf(a))).Ran?
    ensures var v := Answer(s, o, PageOf(a));
            InUse(Visit(r, a, v).held, k') && Matches(Remembered(s, o, a), Next(m, r.held, PageOf(a), v), k', |r.held|)
  {
    var p := PageOf(a);
    var v := Answer(s, o, p);
    AnswerIs(s, r, o, m, k, p);
    FrameIs(s, r, a, v);
    AsksIs(s, r, p);
    HeldNext(r, a, v, k);
    if Some(p) in r.held {
      k' := k;
      HitMatches(o, m, k, |r.held|, FrameFor(r.held, p, v));
    } else if None in r.held {
      k' := k + 1;
      LoadMatches(o, m, k, |r.held|);
    } else {
      k' := k;
      ReplaceMatches(o, m, k);
    }
  }

  // ----- whole runs -----

  /** How many accesses have asked for their frames. */
  function Begun(r: Trace): nat {
    match r
    case Ended(bytes, _) => |bytes|
    case Broken(bytes) => |bytes| + 1
  }

  /** The victims named over a trace, and how many of its accesses are begun. */
  datatype Course = Course(victims: seq<nat>, begun: nat)

  function CourseOf(s: State, o: Order, trace: seq<Access>): (c: Course)
    requires Mapped(s)
    ensures |c.victims| == |trace| && AllBelow(c.victims, |s.frames|) && c.begun <= |trace|
    decreases |trace|
  {
    if trace == [] then Course([], 0)
    else
      var v := Answer(s, o, PageOf(trace[0]));
      ExecuteMapped(s, trace[0], v);
      match Execute(s, trace[0], v)
      case Stopped => Course([v] + seq(|trace| - 1, _ => 0), 1)
      case Done(t, _) =>
        var c := CourseOf(t, Remembered(s, o, trace[0]), trace[1..]);
        Course([v] + c.victims, c.begun + 1)
  }

  lemma {:induction false} CourseIs(s: State, o: Order, trace: seq<Access>)
    requires Mapped(s)
    ensures CourseOf(s, o, trace) == Course(Played(s, o, trace).victims, Begun(RunUnder(s, o, trace)))
    decreases |trace|
  {
    if trace != [] {
      var v := Answer(s, o, PageOf(trace[0]));
      ExecuteMapped(s, trace[0], v);
      var r := Execute(s, trace[0], v);
      if r.Done? {
        CourseIs(r.next, Remembered(s, o, trace[0]), trace[1..]);
      }
    }
  }

  /** The trace takes this course, under a seal. */
  ghost predicate Plays(seal: nat, s: State, o: Order, trace: seq<Access>, c: Course)
    requires Mapped(s)
  {
    if seal == 0 then c == CourseOf(s, o, trace) else Plays(seal - 1, s, o, trace, c)
  }

  lemma {:induction false} BreakPlays(seal: nat, s: State, o: Order, trace: seq<Access>, c: Course)
    requires Mapped(s)
    ensures Plays(seal, s, o, trace, c) <==> c == CourseOf(s, o, trace)
  {
    if seal > 0 {
      BreakPlays(seal - 1, s, o, trace, c);
    }
  }

  /** Its first access. */
  lemma {:induction false} PlaysFirst(s: State, o: Order, trace: seq<Access>, c: Course)
    returns (more: bool, t: State, o': Order)
    requires Mapped(s) && Plays(SEAL, s, o, trace, c)
    ensures |c.victims| == |trace| && AllBelow(c.victims, |s.frames|) && c.begun <= |trace|
    ensures trace != [] ==>
              && c.begun > 0 && c.victims[0] == Answer(s, o, PageOf(trace[0]))
              && more == Execute(s, trace[0], c.victims[0]).Done? && (!more ==> c.begun == 1)
    ensures more ==>
              && trace != [] && t == Execute(s, trace[0], c.victims[0]).next && o' == Remembered(s, o, trace[0])
              && Mapped(t) && Plays(SEAL, t, o', trace[1..], Course(c.victims[1..], c.begun - 1))
  {
    BreakPlays(SEAL, s, o, trace, c);
    more, t, o' := false, s, o;
    if trace != [] {
      var r := Execute(s, trace[0], c.victims[0]);
      ExecuteMapped(s, trace[0], c.victims[0]);
      if r.Done? {
        more, t, o' := true, r.next, Remembered(s, o, trace[0]);
        BreakPlays(SEAL, t, o', trace[1..], Course(c.victims[1..], c.begun - 1));
      }
    }
  }

  /**
   * The state is what is told from the accesses so far, and the rest of the trace will be played with
   * these victims, n accesses of it being begun; under a seal.
   */
  ghost predicate Stands(seal: nat, s: State, r: Residents, o: Order, m: Memory, k: nat, trace: seq<Access>,
      victims: seq<nat>, n: nat)
  {
    if seal == 0 then
      && Mapped(s) && Tracks(s, r) && InUse(r.held, k) && Matches(o, m, k, |r.held|)
      && Plays(SEAL, s, o, trace, Course(victims, n))
    else Stands(seal - 1, s, r, o, m, k, trace, victims, n)
  }

  lemma {:induction false} BreakStands(seal: nat, s: State, r: Residents, o: Order, m: Memory, k: nat,
      trace: seq<Access>, victims: seq<nat>, n: nat)
    ensures Stands(seal, s, r, o, m, k, trace, victims, n) == Stands(0, s, r, o, m, k, trace, victims, n)
  {
    if seal > 0 {
      BreakStands(seal - 1, s, r, o, m, k, trace, victims, n);
    }
  }

  /** The first victim and the later ones. */
  lemma ChosenMore(r: Residents, m: Memory, trace: seq<Access>, victims: seq<nat>, n: nat)
    requires |victims| == |trace| && AllBelow(victims, |r.held|) && 0 < n <= |trace|
    requires NeedsVictim(r.held, PageOf(trace[0])) ==> IsVictim(m, |r.held|, victims[0])
    requires n == 1 ||
             Chosen(Visit(r, trace[0], victims[0]), Next(m, r.held, PageOf(trace[0]), victims[0]), trace[1..],
                    victims[1..], n - 1)
    ensures Chosen(r, m, trace, victims, n)
  {}

  /** The first access of a run, and the state the rest starts from, if it goes on. */
  lemma {:induction false} OneStands(s: State, r: Residents, o: Order, m: Memory, k: nat, trace: seq<Access>,
      victims: seq<nat>, n: nat)
    returns (t: State, o': Order, k': nat)
    requires Mapped(s) && Tracks(s, r) && InUse(r.held, k) && Matches(o, m, k, |r.held|) && trace != []
    requires Plays(SEAL, s, o, trace, Course(victims, n))
    ensures |victims| == |trace| && AllBelow(victims, |r.held|)
    ensures n > 0 && (NeedsVictim(r.held, PageOf(trace[0])) ==> IsVictim(m, |r.held|, victims[0]))
    ensures n > 1 ==>
              && Mapped(t) && Tracks(t, Visit(r, trace[0], victims[0]))
              && InUse(Visit(r, trace[0], victims[0]).held, k')
              && Matches(o', Next(m, r.held, PageOf(trace[0]), victims[0]), k', |r.held|)
              && Plays(SEAL, t, o', trace[1..], Course(victims[1..], n - 1))
  {
    var a, v := trace[0], Answer(s, o, PageOf(trace[0]));
    var more;
    more, t, o' := PlaysFirst(s, o, trace, Course(victims, n));
    AnswerIs(s, r, o, m, k, PageOf(a));
    k' := k;
    if more {
      k' := NextMatches(s, r, o, m, k, a);
      ExecuteTracks(s, r, a, v);
    }
  }

  /** The same under the seal. */
  lemma {:induction false} OneChosen(s: State, r: Residents, o: Order, m: Memory, k: nat, trace: seq<Access>,
      victims: seq<nat>, n: nat)
    returns (t: State, o': Order, k': nat)
    requires Stands(SEAL, s, r, o, m, k, trace, victims, n) && trace != []
    ensures |victims| == |trace| && AllBelow(victims, |r.held|)
    ensures n > 0 && (NeedsVictim(r.held, PageOf(trace[0])) ==> IsVictim(m, |r.held|, victims[0]))
    ensures n > 1 ==>
              Stands(SEAL, t, Visit(r, trace[0], victims[0]), o', Next(m, r.held, PageOf(trace[0]), victims[0]), k',
                     trace[1..], victims[1..], n - 1)
  {
    BreakStands(SEAL, s, r, o, m, k, trace, victims, n);
    t, o', k' := OneStands(s, r, o, m, k, trace, victims, n);
    if n > 1 {
      BreakStands(SEAL, t, Visit(r, trace[0], victims[0]), o', Next(m, r.held, PageOf(trace[0]), victims[0]), k',
                  trace[1..], victims[1..], n - 1);
    }
  }

  lemma NoneChosen(s: State, r: Residents, o: Order, m: Memory, k: nat, victims: seq<nat>, n: nat)
    requires Stands(SEAL, s, r, o, m, k, [], victims, n)
    ensures |victims| == 0 && n == 0
  {
    BreakStands(SEAL, s, r, o, m, k, [], victims, n);
    var more, t, o' := PlaysFirst(s, o, [], Course(victims, n));
  }

  lemma {:induction false} RunChosen(s: State, r: Residents, o: Order, m: Memory, k: nat, trace: seq<Access>,
      victims: seq<nat>, n: nat)
    requires Stands(SEAL, s, r, o, m, k, trace, victims, n)
    ensures |victims| == |trace| && AllBelow(victims, |r.held|) && n <= |trace| && Chosen(r, m, trace, victims, n)
    decreases |trace|
  {
    if trace == [] {
      NoneChosen(s, r, o, m, k, victims, n);
    } else {
      var t, o', k' := OneChosen(s, r, o, m, k, trace, victims, n);
      if n > 1 {
        RunChosen(t, Visit(r, trace[0], victims[0]), o', Next(m, r.held, PageOf(trace[0]), victims[0]), k', trace[1..],
                  victims[1..], n - 1);
      }
      ChosenMore(r, m, trace, victims, n);
    }
  }

  /** What is known of the frames at first. */
  function Nothing(o: Order): Memory {
    match o
    case Hand(_, _) => Fifo([], {})
    case Lines(_) => Times(0, map[], map[])
  }

  /** A policy that has seen no reference. */
  predicate Unused(o: Order) {
    match o
    case Hand(bits, _) => bits == []
    case Lines(q) => q == Queues.Queues([], [])
  }

  lemma NothingYet(frameCount: nat, slots: nat, o: Order)
    requires 1 <= frameCount && Unused(o)
    ensures Tracks(Init(frameCount, slots), Empty(frameCount)) && InUse(Empty(frameCount).held, 0)
    ensures Matches(o, Nothing(o), 0, frameCount)
  {}

  lemma {:induction false} StandsAtFirst(frameCount: nat, slots: nat, o: Order, trace: seq<Access>, c: Course)
    requires 1 <= frameCount && Unused(o) && Mapped(Init(frameCount, slots))
    requires c == CourseOf(Init(frameCount, slots), o, trace)
    ensures Stands(SEAL, Init(frameCount, slots), Empty(frameCount), o, Nothing(o), 0, trace, c.victims, c.begun)
  {
    NothingYet(frameCount, slots, o);
    BreakPlays(SEAL, Init(frameCount, slots), o, trace, c);
    BreakStands(SEAL, Init(frameCount, slots), Empty(frameCount), o, Nothing(o), 0, trace, c.victims, c.begun);
  }

  /**
   * Over every run from power-on, to its end or to where it stops, each victim the policy names is
   * the one told from the accesses.
   */
  lemma {:induction false} VictimsFromTrace(frameCount: nat, slots: nat, o: Order, trace: seq<Access>)
    requires 1 <= frameCount && Unused(o)
    ensures Mapped(Init(frameCount, slots))
    ensures var s := Init(frameCount, slots);
            && Begun(RunUnder(s, o, trace)) <= |trace|
            && Chosen(Empty(frameCount), Nothing(o), trace, Played(s, o, trace).victims, Begun(RunUnder(s, o, trace)))
  {
    InitInv(frameCount, slots);
    var s := Init(frameCount, slots);
    CourseIs(s, o, trace);
    var c := Course(Played(s, o, trace).victims, Begun(RunUnder(s, o, trace)));
    StandsAtFirst(frameCount, slots, o, trace, c);
    RunChosen(s, Empty(frameCount), o, Nothing(o), 0, trace, c.victims, c.begun);
  }
}
