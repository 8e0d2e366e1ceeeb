/**
 * The two replacement policies on frame numbers: what each remembers between two accesses, and the
 * victims it names over a whole run.
 */
module PolicySpec {
  import opened Circles
  import opened Machine
  import opened Paging
  import opened PagingRefinement
  import opened Seals
  import opened Sequences
  import ClockSpec
  import Queues = S2QSpec

  /** The reference bits of the frames in use and where the hand is; or the two queues. */
  datatype Order = Hand(bits: seq<bool>, position: nat) | Lines(queues: Queues.Queues<nat>)

  /** It is about n frames, all in use. */
  predicate Full(o: Order, n: nat) {
    match o
    case Hand(bits, position) => |bits| == n && position < n
    case Lines(q) => Queues.Full(q, n) && AllBelow(q.a1, n) && AllBelow(q.am, n)
  }

  function Victim(o: Order, n: nat): (v: nat)
    requires Full(o, n)
    ensures v < n
  {
    match o
    case Hand(bits, position) => ClockSpec.Victim(bits, Succ(position, n))
    case Lines(q) =>
      Queues.NeverEmpty(q, n);
      Queues.Victim(q, n)
  }

  /** After the victim has been named. */
  function Evicted(o: Order, n: nat): Order
    requires Full(o, n)
  {
    match o
    case Hand(bits, position) => Hand(ClockSpec.After(bits, Succ(position, n)), Victim(o, n))
    case Lines(q) => Lines(Queues.Evict(q, n))
  }

  /** After a reference to frame f; a frame used for the first time is the next one. */
  function Referenced(o: Order, f: nat): Order {
    match o
    case Hand(bits, position) => if f < |bits| then Hand(bits[f := true], position) else Hand(bits + [true], f)
    case Lines(q) => Lines(Queues.Touch(q, f))
  }

  // ----- the queues of numbers and the queues of what they number -----

  ghost predicate Numbers<T>(s: seq<nat>, t: seq<T>, frames: seq<T>) {
    |s| == |t| && forall i | 0 <= i < |s| :: s[i] < |frames| && t[i] == frames[s[i]]
  }

  ghost predicate NumbersBoth<T>(q: Queues.Queues<nat>, r: Queues.Queues<T>, frames: seq<T>) {
    Numbers(q.a1, r.a1, frames) && Numbers(q.am, r.am, frames)
  }

  lemma NumbersIn<T>(s: seq<nat>, t: seq<T>, frames: seq<T>, f: nat)
    requires Numbers(s, t, frames) && Distinct(frames) && f < |frames|
    ensures f in s <==> frames[f] in t
  {
    if frames[f] in t {
      var i :| 0 <= i < |t| && t[i] == frames[f];
      assert s[i] == f;
    }
    if f in s {
      var i :| 0 <= i < |s| && s[i] == f;
      assert t[i] == frames[f];
    }
  }

  lemma NumbersFirst<T>(f: nat, s: seq<nat>, t: seq<T>, frames: seq<T>)
    requires Numbers(s, t, frames) && f < |frames|
    ensures Numbers([f] + s, [frames[f]] + t, frames)
  {}

  lemma {:induction false} NumbersWithout<T>(s: seq<nat>, t: seq<T>, frames: seq<T>, f: nat)
    requires Numbers(s, t, frames) && Distinct(frames) && f < |frames|
    ensures Numbers(Queues.Without(s, f), Queues.Without(t, frames[f]), frames)
  {
    if s != [] {
      assert t[0] == frames[s[0]];
      assert Numbers(s[1..], t[1..], frames);
      if s[0] != f {
        NumbersWithout(s[1..], t[1..], frames, f);
        NumbersFirst(s[0], Queues.Without(s[1..], f), Queues.Without(t[1..], frames[f]), frames);
      }
    }
  }

  /** A reference to a frame is one to its number. */
  lemma NumbersTouch<T>(q: Queues.Queues<nat>, r: Queues.Queues<T>, frames: seq<T>, f: nat)
    requires NumbersBoth(q, r, frames) && Distinct(frames) && f < |frames|
    ensures NumbersBoth(Queues.Touch(q, f), Queues.Touch(r, frames[f]), frames)
  {
    NumbersIn(q.a1, r.a1, frames, f);
    NumbersIn(q.am, r.am, frames, f);
    NumbersWithout(q.a1, r.a1, frames, f);
    NumbersWithout(q.am, r.am, frames, f);
  }

  /** The same frame is evicted. */
  lemma NumbersEvict<T>(q: Queues.Queues<nat>, r: Queues.Queues<T>, frames: seq<T>)
    requires NumbersBoth(q, r, frames) && Queues.Full(r, |frames|)
    ensures Full(Lines(q), |frames|) && frames[Queues.Victim(q, |frames|)] == Queues.Victim(r, |frames|)
    ensures NumbersBoth(Queues.Evict(q, |frames|), Queues.Evict(r, |frames|), frames)
  {
    Queues.NeverEmpty(r, |frames|);
  }

  // ----- whole runs -----

  /** An access to page p makes the coremap ask for a victim. */
  predicate Asks(s: State, p: nat) {
    (p in s.pt ==> !s.pt[p].valid) && FreeFrame(s.frames).None?
  }

  /** The frame the policy names for an access to page p, 0 if it is not asked. */
  function Answer(s: State, o: Order, p: nat): (v: nat)
    requires |s.frames| > 0
    ensures v < |s.frames|
  {
    if Asks(s, p) && Full(o, |s.frames|) then Victim(o, |s.frames|) else 0
  }

  function Answered(s: State, o: Order, p: nat): Order {
    if Asks(s, p) && Full(o, |s.frames|) then Evicted(o, |s.frames|) else o
  }

  /** What the policy remembers after an access that gets its frame. */
  function Remembered(s: State, o: Order, a: Access): Order
    requires Mapped(s)
  {
    match GetFrameNumber(s, a, Answer(s, o, PageOf(a)))
    case AssertionFailed => o
    case Ran(_, f) => Referenced(Answered(s, o, PageOf(a)), f)
  }

  // ----- what a step has done, for proofs that hand it on -----

  /**
   * A step from state s and order o to t and o': the policy has named f; it has been asked or not;
   * page p has got frame f or an assertion has failed (not ok); the same for the page of an access;
   * the access has been executed. v is the victim named, if one was asked for.
   */
  datatype Claim =
    | Named(o: Order, n: nat, f: nat, o': Order)
    | Asked(s: State, o: Order, p: nat, v: nat, o': Order)
    | Found(s: State, o: Order, p: nat, write: bool, v: nat, o': Order, ok: bool, t: State, f: nat)
    | Translated(s: State, o: Order, a: Access, v: nat, o': Order, ok: bool, t: State, f: nat)
    | Executed(s: State, o: Order, a: Access, v: nat, o': Order, ok: bool, t: State, byte: Byte)

  ghost predicate Holds(c: Claim) {
    match c
    case Named(o, n, f, o') => Full(o, n) && f == Victim(o, n) && o' == Evicted(o, n)
    case Asked(s, o, p, v, o') => |s.frames| > 0 && v == Answer(s, o, p) && o' == Answered(s, o, p)
    case Found(s, o, p, write, v, o', ok, t, f) =>
      && Mapped(s) && p in s.pt && v == Answer(s, o, p) && o' == Answered(s, o, p)
      && (match Locate(s, p, v)
          case AssertionFailed => !ok
          case Ran(u, g) => ok && f == g && t == Finish(u, p, write))
    case Translated(s, o, a, v, o', ok, t, f) =>
      && Mapped(s) && v == Answer(s, o, PageOf(a)) && o' == Answered(s, o, PageOf(a))
      && (match GetFrameNumber(s, a, v)
          case AssertionFailed => !ok
          case Ran(u, g) => ok && f == g && t == u)
    case Executed(s, o, a, v, o', ok, t, byte) =>
      && Mapped(s) && v == Answer(s, o, PageOf(a))
      && (match Execute(s, a, v)
          case Stopped => !ok
          case Done(u, b) => ok && byte == b && t == u && o' == Remembered(s, o, a))
  }

  ghost predicate HoldsSealed(seal: nat, c: Claim) {
    if seal == 0 then Holds(c) else HoldsSealed(seal - 1, c)
  }

  /** The claim holds, under a seal. */
  ghost predicate Known(c: Claim) {
    HoldsSealed(SEAL, c)
  }

  lemma {:induction false} BreakClaim(seal: nat, c: Claim)
    ensures HoldsSealed(seal, c) <==> Holds(c)
  {
    if seal > 0 {
      BreakClaim(seal - 1, c);
    }
  }

  /** The policy was asked, and named f. */
  lemma AskedBy(s: State, o: Order, p: nat, f: nat, o': Order)
    requires Known(Named(o, |s.frames|, f, o')) && Asks(s, p)
    ensures Known(Asked(s, o, p, f, o')) && f < |s.frames|
  {
    BreakClaim(SEAL, Named(o, |s.frames|, f, o'));
    BreakClaim(SEAL, Asked(s, o, p, f, o'));
  }

  /** It was not asked. */
  lemma NotAsked(s: State, o: Order, p: nat)
    requires |s.frames| > 0 && !Asks(s, p)
    ensures Known(Asked(s, o, p, 0, o))
  {
    BreakClaim(SEAL, Asked(s, o, p, 0, o));
  }

  /** Counting makes no difference to the policy. */
  lemma AskedCounted(s: State, stats: Stats, o: Order, p: nat, v: nat, o': Order)
    requires Known(Asked(s.(stats := stats), o, p, v, o'))
    ensures Known(Asked(s, o, p, v, o'))
  {
    BreakClaim(SEAL, Asked(s.(stats := stats), o, p, v, o'));
    BreakClaim(SEAL, Asked(s, o, p, v, o'));
  }

  lemma FoundBy(s: State, o: Order, p: nat, write: bool, v: nat, o': Order, ok: bool, t: State, f: nat)
    requires Known(Asked(s, o, p, v, o')) && Mapped(s) && p in s.pt && v < |s.frames|
    requires match Locate(s, p, v)
             case AssertionFailed => !ok
             case Ran(u, g) => ok && f == g && t == Finish(u, p, write)
    ensures Known(Found(s, o, p, write, v, o', ok, t, f))
  {
    BreakClaim(SEAL, Asked(s, o, p, v, o'));
    BreakClaim(SEAL, Found(s, o, p, write, v, o', ok, t, f));
  }

  /** The page of an access gets its frame after its entry. */
  lemma TranslatedBy(s: State, o: Order, a: Access, v: nat, o': Order, ok: bool, t: State, f: nat)
    requires Mapped(s) && Known(Found(WithEntry(s, PageOf(a)), o, PageOf(a), IsWrite(a), v, o', ok, t, f))
    ensures Known(Translated(s, o, a, v, o', ok, t, f))
    ensures ok ==> Mapped(t) && |t.frames| == |s.frames| && f < |t.frames| && !t.frames[f].free
  {
    var p := PageOf(a);
    BreakClaim(SEAL, Found(WithEntry(s, p), o, p, IsWrite(a), v, o', ok, t, f));
    BreakClaim(SEAL, Translated(s, o, a, v, o', ok, t, f));
    WithEntryMapped(s, p);
    TranslationMapped(s, a, v);
  }

  lemma ExecutedBy(s: State, o: Order, a: Access, v: nat, o': Order, ok: bool, t: State, f: nat, o2: Order, ok2: bool,
      u: State, byte: Byte)
    requires Known(Translated(s, o, a, v, o', ok, t, f))
    requires !ok ==> !ok2
    requires ok ==> ok2 == Instruction(t, a, f).Done? && o2 == Referenced(o', f)
    requires ok2 ==> Instruction(t, a, f) == Done(u, byte)
    ensures Known(Executed(s, o, a, v, o2, ok2, u, byte))
    ensures ok2 ==> Mapped(u) && |u.frames| == |s.frames|
  {
    BreakClaim(SEAL, Translated(s, o, a, v, o', ok, t, f));
    BreakClaim(SEAL, Executed(s, o, a, v, o2, ok2, u, byte));
    ExecuteMapped(s, a, v);
  }

  /** The victims named over a trace, one for each access, and what is remembered in the end. */
  datatype Play = Play(victims: seq<nat>, order: Order)

  function Played(s: State, o: Order, trace: seq<Access>): (r: Play)
    requires Mapped(s)
    ensures |r.victims| == |trace| && AllBelow(r.victims, |s.frames|)
    decreases |trace|
  {
    if trace == [] then Play([], o)
    else
      var v := Answer(s, o, PageOf(trace[0]));
      ExecuteMapped(s, trace[0], v);
      match Execute(s, trace[0], v)
      case Stopped => Play([v] + seq(|trace| - 1, _ => 0), o)
      case Done(next, _) =>
        var r := Played(next, Remembered(s, o, trace[0]), trace[1..]);
        Play([v] + r.victims, r.order)
  }

  /** The run under a policy. */
  function RunUnder(s: State, o: Order, trace: seq<Access>): Trace
    requires Mapped(s)
  {
    Run(s, trace, Played(s, o, trace).victims)
  }

  /** One access more: the policy is asked in the state the run has come to. */
  lemma {:induction false} VictimsExtended(s: State, o: Order, trace: seq<Access>, a: Access)
    requires Mapped(s)
    ensures match RunUnder(s, o, trace)
            case Broken(_) => true
            case Ended(_, final) =>
              && Mapped(final) && |final.frames| == |s.frames|
              && Played(s, o, trace + [a]).victims
                 == Played(s, o, trace).victims + [Answer(final, Played(s, o, trace).order, PageOf(a))]
    decreases |trace|
  {
    TailExtended(trace, a);
    if trace != [] {
      var v := Answer(s, o, PageOf(trace[0]));
      ExecuteMapped(s, trace[0], v);
      var r := Execute(s, trace[0], v);
      if r.Done? {
        VictimsExtended(r.next, Remembered(s, o, trace[0]), trace[1..], a);
      }
    }
  }

  lemma {:induction false} OrderExtended(s: State, o: Order, trace: seq<Access>, a: Access)
    requires Mapped(s)
    ensures match RunUnder(s, o, trace)
            case Broken(_) => true
            case Ended(_, final) =>
              var order := Played(s, o, trace).order;
              && Mapped(final) && |final.frames| > 0
              && (Execute(final, a, Answer(final, order, PageOf(a))).Done? ==>
                    Played(s, o, trace + [a]).order == Remembered(final, order, a))
    decreases |trace|
  {
    TailExtended(trace, a);
    if trace != [] {
      var v := Answer(s, o, PageOf(trace[0]));
      ExecuteMapped(s, trace[0], v);
      var r := Execute(s, trace[0], v);
      if r.Done? {
        OrderExtended(r.next, Remembered(s, o, trace[0]), trace[1..], a);
      }
    }
  }

  /** A run that stops does so whatever would have come after. */
  lemma {:induction false} StoppedForGood(s: State, o: Order, trace: seq<Access>, n: nat)
    requires Mapped(s) && n <= |trace| && RunUnder(s, o, trace[..n]).Broken?
    ensures RunUnder(s, o, trace) == RunUnder(s, o, trace[..n])
    decreases n
  {
    if n > 0 {
      var v := Answer(s, o, PageOf(trace[0]));
      ExecuteMapped(s, trace[0], v);
      var r := Execute(s, trace[0], v);
      if r.Done? {
        assert trace[..n][1..] == trace[1..][..n - 1];
        StoppedForGood(r.next, Remembered(s, o, trace[0]), trace[1..], n - 1);
      }
    }
  }

  lemma RunUnderExtended(s: State, o: Order, trace: seq<Access>, a: Access, bytes: seq<Byte>, now: State, order: Order,
      step: Step)
    requires Mapped(s) && RunUnder(s, o, trace) == Ended(bytes, now) && Played(s, o, trace).order == order
    requires Mapped(now) && |now.frames| > 0 && step == Execute(now, a, Answer(now, order, PageOf(a)))
    ensures |now.frames| == |s.frames| && RunUnder(s, o, trace + [a]) == Extend(bytes, step)
    ensures step.Done? ==> Played(s, o, trace + [a]).order == Remembered(now, order, a)
  {
    VictimsExtended(s, o, trace, a);
    OrderExtended(s, o, trace, a);
    RunExtended(s, trace, Played(s, o, trace).victims, a, Answer(now, order, PageOf(a)));
  }

  /** The run under a policy, one access longer. */
  lemma GoesOn(s: State, o: Order, trace: seq<Access>, a: Access, bytes: seq<Byte>, now: State, order: Order, v: nat,
      next: State, order': Order, byte: Byte)
    requires Mapped(s) && RunUnder(s, o, trace) == Ended(bytes, now) && Played(s, o, trace).order == order
    requires Known(Executed(now, order, a, v, order', true, next, byte))
    ensures RunUnder(s, o, trace + [a]) == Ended(bytes + [byte], next) && Played(s, o, trace + [a]).order == order'
    ensures |next.frames| == |s.frames|
  {
    BreakClaim(SEAL, Executed(now, order, a, v, order', true, next, byte));
    RunUnderExtended(s, o, trace, a, bytes, now, order, Done(next, byte));
    ExecuteMapped(now, a, v);
  }

  lemma StopsThere(s: State, o: Order, trace: seq<Access>, a: Access, bytes: seq<Byte>, now: State, order: Order,
      v: nat, next: State, order': Order, byte: Byte)
    requires Mapped(s) && RunUnder(s, o, trace) == Ended(bytes, now) && Played(s, o, trace).order == order
    requires Known(Executed(now, order, a, v, order', false, next, byte))
    ensures RunUnder(s, o, trace + [a]) == Broken(bytes)
  {
    BreakClaim(SEAL, Executed(now, order, a, v, order', false, next, byte));
    RunUnderExtended(s, o, trace, a, bytes, now, order, Stopped);
  }

  lemma OneMore<T>(s: seq<T>, n: nat)
    requires n < |s|
    ensures s[..n] + [s[n]] == s[..n + 1]
  {}

  /** The run under a policy, stopped by its next access. */
  lemma Stops(s: State, o: Order, trace: seq<Access>, n: nat, bytes: seq<Byte>, now: State, order: Order, v: nat,
      next: State, order': Order, byte: Byte)
    requires Mapped(s) && n < |trace|
    requires RunUnder(s, o, trace[..n]) == Ended(bytes, now) && Played(s, o, trace[..n]).order == order
    requires Known(Executed(now, order, trace[n], v, order', false, next, byte))
    ensures RunUnder(s, o, trace) == Broken(bytes)
  {
    StopsThere(s, o, trace[..n], trace[n], bytes, now, order, v, next, order', byte);
    OneMore(trace, n);
    StoppedForGood(s, o, trace, n + 1);
  }
}
