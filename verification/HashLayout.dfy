/**
 * What the arrays of a khash table mean. A table of n buckets holds a key at a bucket that the
 * key's probe sequence reaches without meeting an empty bucket; while a table is being rehashed
 * in place, one pair of key and value arrays holds the old layout, the new layout and, outside
 * the arrays, the element being moved.
 */
module HashLayout {
  import opened Options
  import opened Powers
  import opened Probing
  import opened Seals

  /** The two flag bits of a bucket. */
  datatype Flag = Flag(empty: bool, deleted: bool)

  const EMPTY := Flag(true, false)
  const LIVE := Flag(false, false)

  /** Neither flag bit is set: the bucket holds an element. */
  predicate Live(f: Flag) {
    !f.empty && !f.deleted
  }

  /** After s steps the probe sequence of hash h is at bucket i and has met no empty bucket. */
  ghost predicate ReachedAfter(flags: seq<Flag>, h: nat, s: nat, i: nat)
    requires |flags| > 0
  {
    && Probe(|flags|, h, s) == i
    && NoneEmpty(flags, h, s)
  }

  /** The first s probes of hash h meet no empty bucket. */
  ghost predicate NoneEmpty(flags: seq<Flag>, h: nat, s: nat)
    requires |flags| > 0
  {
    forall t: nat | t < s :: !flags[Probe(|flags|, h, t)].empty
  }

  ghost predicate Reachable(flags: seq<Flag>, h: nat, i: nat)
    requires |flags| > 0
  {
    exists s: nat :: s < |flags| && ReachedAfter(flags, h, s, i)
  }

  /** The arrays hold exactly the bindings of m, each where kh_get will look for it. */
  ghost predicate Holds<K(!new), V(!new)>(flags: seq<Flag>, keys: seq<K>, vals: seq<V>, hash: K -> nat, m: map<K, V>) {
    && |flags| <= |keys| && |flags| <= |vals|
    && (forall i | 0 <= i < |flags| && Live(flags[i]) ::
          keys[i] in m && vals[i] == m[keys[i]] && Reachable(flags, hash(keys[i]), i))
    && (forall i, j | 0 <= i < j < |flags| && Live(flags[i]) && Live(flags[j]) :: keys[i] != keys[j])
    && (forall k {:trigger Held(flags, keys, k)} :: k in m ==> Held(flags, keys, k))
  }

  /** Some live bucket holds the key. */
  ghost predicate Held<K>(flags: seq<Flag>, keys: seq<K>, k: K) {
    exists i :: 0 <= i < |flags| && i < |keys| && Live(flags[i]) && keys[i] == k
  }

  /** Position p holds an element of the old layout (olds) or of the new one (news). */
  predicate Occupied(olds: seq<Flag>, news: seq<Flag>, p: int) {
    || (0 <= p < |olds| && Live(olds[p]))
    || (0 <= p < |news| && !news[p].empty)
  }

  /** The state between two steps of the rehash loop, under a seal; hand is the element being moved. */
  ghost predicate Moving<K(!new), V(!new)>(olds: seq<Flag>, news: seq<Flag>, keys: seq<K>, vals: seq<V>,
      hash: K -> nat, m: map<K, V>, hand: Option<K>)
  {
    && |olds| <= |keys| && |news| <= |keys| && |olds| <= |vals| && |news| <= |vals| && |news| > 0
    && (hand.Some? ==> hand.value in m)
    && MovingSealed(SEAL, olds, news, keys, vals, hash, m, hand)
  }

  ghost predicate MovingSealed<K(!new), V(!new)>(seal: nat, olds: seq<Flag>, news: seq<Flag>, keys: seq<K>,
      vals: seq<V>, hash: K -> nat, m: map<K, V>, hand: Option<K>)
    requires |olds| <= |keys| && |news| <= |keys| && |news| <= |vals| && |olds| <= |vals| && |news| > 0
  {
    if seal == 0 then Carries(olds, news, keys, vals, hash, m, hand)
    else MovingSealed(seal - 1, olds, news, keys, vals, hash, m, hand)
  }

  lemma {:induction false} BreakMoving<K(!new), V(!new)>(seal: nat, olds: seq<Flag>, news: seq<Flag>, keys: seq<K>,
      vals: seq<V>, hash: K -> nat, m: map<K, V>, hand: Option<K>)
    requires |olds| <= |keys| && |news| <= |keys| && |news| <= |vals| && |olds| <= |vals| && |news| > 0
    ensures MovingSealed(seal, olds, news, keys, vals, hash, m, hand)
       <==> Carries(olds, news, keys, vals, hash, m, hand)
  {
    if seal > 0 {
      BreakMoving(seal - 1, olds, news, keys, vals, hash, m, hand);
    }
  }

  /** Every binding but that of the element in hand is in the old layout or in the new one. */
  ghost predicate Carries<K(!new), V(!new)>(olds: seq<Flag>, news: seq<Flag>, keys: seq<K>, vals: seq<V>,
      hash: K -> nat, m: map<K, V>, hand: Option<K>)
    requires |olds| <= |keys| && |news| <= |keys| && |news| <= |vals| && |olds| <= |vals| && |news| > 0
  {
    && (forall p | 0 <= p < |keys| && Occupied(olds, news, p) ::
          keys[p] in m && vals[p] == m[keys[p]] && hand != Some(keys[p]))
    && (forall p, q | 0 <= p < q < |keys| && Occupied(olds, news, p) && Occupied(olds, news, q) ::
          keys[p] != keys[q])
    && (forall k {:trigger HeldInMove(olds, news, keys, k)} ::
          k in m && hand != Some(k) ==> HeldInMove(olds, news, keys, k))
    && (forall p | 0 <= p < |news| :: !news[p].deleted)
    && (forall p | 0 <= p < |news| && !news[p].empty ::
          (p < |olds| ==> !Live(olds[p])) && Reachable(news, hash(keys[p]), p))
  }

  /** Some position, of the old layout or the new, holds the key. */
  ghost predicate HeldInMove<K>(olds: seq<Flag>, news: seq<Flag>, keys: seq<K>, k: K) {
    exists p :: 0 <= p < |keys| && Occupied(olds, news, p) && keys[p] == k
  }

  /** A flag array fresh from memset 0xaa. */
  ghost predicate AllEmpty(flags: seq<Flag>) {
    forall i | 0 <= i < |flags| :: flags[i] == EMPTY
  }

  lemma StartMoving<K(!new), V(!new)>(olds: seq<Flag>, news: seq<Flag>, keys: seq<K>, vals: seq<V>, hash: K -> nat,
      m: map<K, V>)
    requires Holds(olds, keys, vals, hash, m)
    requires |news| > 0 && AllEmpty(news) && |news| <= |keys| && |news| <= |vals|
    ensures Moving(olds, news, keys, vals, hash, m, None)
  {
    BreakMoving(SEAL, olds, news, keys, vals, hash, m, None);
    forall k | k in m
      ensures HeldInMove(olds, news, keys, k)
    {
      assert Held(olds, keys, k);
      var i :| 0 <= i < |olds| && i < |keys| && Live(olds[i]) && keys[i] == k;
      assert Occupied(olds, news, i);
    }
  }

  /** Taking the element at bucket j of the old layout in hand. */
  lemma PickUp<K(!new), V(!new)>(olds: seq<Flag>, news: seq<Flag>, keys: seq<K>, vals: seq<V>, hash: K -> nat,
      m: map<K, V>, j: nat)
    requires Moving(olds, news, keys, vals, hash, m, None)
    requires j < |olds| && Live(olds[j])
    ensures Moving(olds[j := Flag(olds[j].empty, true)], news, keys, vals, hash, m, Some(keys[j]))
    ensures m[keys[j]] == vals[j]
  {
    var olds' := olds[j := Flag(olds[j].empty, true)];
    BreakMoving(SEAL, olds, news, keys, vals, hash, m, None);
    BreakMoving(SEAL, olds', news, keys, vals, hash, m, Some(keys[j]));
    assert Occupied(olds, news, j);
    forall k | k in m && Some(keys[j]) != Some(k)
      ensures HeldInMove(olds', news, keys, k)
    {
      assert HeldInMove(olds, news, keys, k);
      var p :| 0 <= p < |keys| && Occupied(olds, news, p) && keys[p] == k;
      assert Occupied(olds', news, p);
    }
    assert forall p | 0 <= p < |keys| && Occupied(olds', news, p) :: Occupied(olds, news, p) && p != j;
  }

  /** Filling an empty bucket keeps every path that was open. */
  lemma ReachableAfterFill(flags: seq<Flag>, h: nat, i: nat, b: nat, f: Flag)
    requires |flags| > 0 && b < |flags| && !f.empty
    requires Reachable(flags, h, i)
    ensures Reachable(flags[b := f], h, i)
  {
    var s: nat :| s < |flags| && ReachedAfter(flags, h, s, i);
    assert ReachedAfter(flags[b := f], h, s, i);
  }

  /** Dropping the element in hand into bucket i, whose old element, if any, comes in hand. */
  lemma Place<K(!new), V(!new)>(olds: seq<Flag>, news: seq<Flag>, keys: seq<K>, vals: seq<V>, hash: K -> nat,
      m: map<K, V>, key: K, val: V, i: nat)
    requires Moving(olds, news, keys, vals, hash, m, Some(key)) && m[key] == val
    requires i < |news| && news[i].empty && Reachable(news, hash(key), i)
    ensures news[i] == EMPTY
    ensures var news' := news[i := LIVE];
            var keys', vals' := keys[i := key], vals[i := val];
            if i < |olds| && Live(olds[i])
            then Moving(olds[i := Flag(olds[i].empty, true)], news', keys', vals', hash, m, Some(keys[i]))
                 && m[keys[i]] == vals[i]
            else Moving(olds, news', keys', vals', hash, m, None)
  {
    var kick := i < |olds| && Live(olds[i]);
    var olds' := if kick then olds[i := Flag(olds[i].empty, true)] else olds;
    var news' := news[i := LIVE];
    var keys', vals' := keys[i := key], vals[i := val];
    var hand' := if kick then Some(keys[i]) else None;
    BreakMoving(SEAL, olds, news, keys, vals, hash, m, Some(key));
    BreakMoving(SEAL, olds', news', keys', vals', hash, m, hand');
    assert kick ==> Occupied(olds, news, i);
    assert !kick ==> !Occupied(olds, news, i);
    assert forall p | 0 <= p < |keys| && p != i :: Occupied(olds', news', p) <==> Occupied(olds, news, p);
    PlaceCovers(olds, news, olds', news', keys, vals, hash, m, key, i, hand');
    forall p | 0 <= p < |news'| && !news'[p].empty
      ensures (p < |olds'| ==> !Live(olds'[p])) && Reachable(news', hash(keys'[p]), p)
    {
      ReachableAfterFill(news, hash(keys'[p]), p, i, LIVE);
    }
  }

  lemma PlaceCovers<K(!new), V(!new)>(olds: seq<Flag>, news: seq<Flag>, olds': seq<Flag>, news': seq<Flag>,
      keys: seq<K>, vals: seq<V>, hash: K -> nat, m: map<K, V>, key: K, i: nat, hand': Option<K>)
    requires Moving(olds, news, keys, vals, hash, m, Some(key))
    requires i < |keys| && Occupied(olds', news', i)
    requires forall p | 0 <= p < |keys| && p != i :: Occupied(olds', news', p) <==> Occupied(olds, news, p)
    requires if Occupied(olds, news, i) then hand' == Some(keys[i]) else hand' == None
    ensures forall k | k in m && hand' != Some(k) :: HeldInMove(olds', news', keys[i := key], k)
  {
    BreakMoving(SEAL, olds, news, keys, vals, hash, m, Some(key));
    forall k | k in m && hand' != Some(k)
      ensures HeldInMove(olds', news', keys[i := key], k)
    {
      if k == key {
        assert keys[i := key][i] == k;
      } else {
        assert HeldInMove(olds, news, keys, k);
        var p :| 0 <= p < |keys| && Occupied(olds, news, p) && keys[p] == k;
        assert p != i;
        assert keys[i := key][p] == k;
      }
    }
  }

  /** When nothing is left of the old layout the new one stands alone. */
  lemma FinishMoving<K(!new), V(!new)>(olds: seq<Flag>, news: seq<Flag>, keys: seq<K>, vals: seq<V>, hash: K -> nat,
      m: map<K, V>)
    requires Moving(olds, news, keys, vals, hash, m, None)
    requires forall p | 0 <= p < |olds| :: !Live(olds[p])
    ensures Holds(news, keys, vals, hash, m)
  {
    BreakMoving(SEAL, olds, news, keys, vals, hash, m, None);
    assert forall p | 0 <= p < |news| && Live(news[p]) :: Occupied(olds, news, p);
    forall k | k in m
      ensures Held(news, keys, k)
    {
      assert HeldInMove(olds, news, keys, k);
      var p :| 0 <= p < |keys| && Occupied(olds, news, p) && keys[p] == k;
      assert Live(news[p]);
    }
  }

  // ----- counting -----

  ghost function NonEmptyBuckets(flags: seq<Flag>): set<int> {
    set i | 0 <= i < |flags| && !flags[i].empty
  }

  ghost function LiveBuckets(flags: seq<Flag>): set<int> {
    set i | 0 <= i < |flags| && Live(flags[i])
  }

  lemma Member<T>(s: set<T>) returns (x: T)
    requires |s| > 0
    ensures x in s
  {
    x :| x in s;
  }

  /** Distinct keys out of a set are no more than the set; if they exhaust it, as many. */
  lemma {:induction false} CountKeys<K>(places: set<int>, keys: seq<K>, all: set<K>)
    requires forall p | p in places :: 0 <= p < |keys| && keys[p] in all
    requires forall p, q | p in places && q in places && p != q :: keys[p] != keys[q]
    ensures |places| <= |all|
    ensures (forall k | k in all :: exists p :: p in places && keys[p] == k) ==> |places| == |all|
    decreases |places|
  {
    if |places| == 0 {
      assert places == {};
      if |all| > 0 {
        var k := Member(all);
      }
    } else {
      var p := Member(places);
      var rest := all - {keys[p]};
      CountKeys(places - {p}, keys, rest);
      if forall k | k in all :: exists q :: q in places && keys[q] == k {
        forall k | k in rest
          ensures exists q :: q in places - {p} && keys[q] == k
        {
          var q :| q in places && keys[q] == k;
          assert q in places - {p};
        }
      }
    }
  }

  lemma LiveCount<K(!new), V(!new)>(flags: seq<Flag>, keys: seq<K>, vals: seq<V>, hash: K -> nat, m: map<K, V>)
    requires Holds(flags, keys, vals, hash, m)
    ensures |LiveBuckets(flags)| == |m|
  {
    forall k | k in m.Keys
      ensures exists p :: p in LiveBuckets(flags) && keys[p] == k
    {
      assert Held(flags, keys, k);
      var i :| 0 <= i < |flags| && i < |keys| && Live(flags[i]) && keys[i] == k;
      assert i in LiveBuckets(flags);
    }
    CountKeys(LiveBuckets(flags), keys, m.Keys);
  }

  lemma Within(n: nat, s: set<int>)
    requires forall x | x in s :: 0 <= x < n
    ensures |s| <= n
  {
    var below: set<int> := Below(n);
    assert forall x | x in s :: x in Below(n);
    SubsetSize(s, below);
  }

  lemma NonEmptyBound(flags: seq<Flag>)
    ensures |LiveBuckets(flags)| <= |NonEmptyBuckets(flags)| <= |flags|
  {
    Within(|flags|, NonEmptyBuckets(flags));
    SubsetSize(LiveBuckets(flags), NonEmptyBuckets(flags));
  }

  lemma {:induction false} SameSize<T>(a: set<T>, b: set<T>)
    requires a <= b && |a| == |b|
    ensures a == b
  {
    if x :| x in b && x !in a {
      SubsetSize(a, b - {x});
    }
  }

  /** With as many buckets in use as elements none holds a tombstone. */
  lemma OccupiedIsLive<K(!new), V(!new)>(flags: seq<Flag>, keys: seq<K>, vals: seq<V>, hash: K -> nat, m: map<K, V>)
    requires Holds(flags, keys, vals, hash, m) && |NonEmptyBuckets(flags)| == |m|
    ensures forall b | 0 <= b < |flags| && !Live(flags[b]) :: flags[b].empty
  {
    LiveCount(flags, keys, vals, hash, m);
    SameSize(LiveBuckets(flags), NonEmptyBuckets(flags));
    forall b | 0 <= b < |flags| && !Live(flags[b])
      ensures flags[b].empty
    {
      assert (b as int) !in LiveBuckets(flags);
    }
  }

  /** All buckets are live exactly when the map is as large as the table. */
  lemma AllLive<K(!new), V(!new)>(flags: seq<Flag>, keys: seq<K>, vals: seq<V>, hash: K -> nat, m: map<K, V>)
    requires Holds(flags, keys, vals, hash, m)
    ensures |m| <= |flags|
    ensures (forall b | 0 <= b < |flags| :: Live(flags[b])) <==> |m| == |flags|
  {
    LiveCount(flags, keys, vals, hash, m);
    NonEmptyBound(flags);
    if b :| 0 <= b < |flags| && !Live(flags[b]) {
      Within(|flags|, LiveBuckets(flags) + {b});
    } else {
      BelowInto(|flags|, LiveBuckets(flags));
    }
  }

  lemma SomeEmpty(flags: seq<Flag>)
    requires |NonEmptyBuckets(flags)| < |flags|
    ensures exists b :: 0 <= b < |flags| && flags[b].empty
  {
    if forall b | 0 <= b < |flags| :: !flags[b].empty {
      assert forall x: nat | x in Below(|flags|) :: (x as int) in NonEmptyBuckets(flags);
      BelowInto(|flags|, NonEmptyBuckets(flags));
    }
  }

  lemma {:induction false} BelowInto(n: nat, s: set<int>)
    requires forall x | 0 <= x < n :: x in s
    ensures n <= |s|
  {
    if n > 0 {
      BelowInto(n - 1, s - {n - 1});
    }
  }

  /** While an element is in hand, a new layout larger than the map has room for it. */
  lemma RoomToPlace<K(!new), V(!new)>(olds: seq<Flag>, news: seq<Flag>, keys: seq<K>, vals: seq<V>, hash: K -> nat,
      m: map<K, V>, key: K)
    requires Moving(olds, news, keys, vals, hash, m, Some(key))
    requires |m| <= |news|
    ensures exists b :: 0 <= b < |news| && news[b].empty
  {
    var places := NonEmptyBuckets(news);
    BreakMoving(SEAL, olds, news, keys, vals, hash, m, Some(key));
    forall p | p in places
      ensures 0 <= p < |keys| && keys[p] in m.Keys - {key}
    {
      assert Occupied(olds, news, p);
    }
    forall p, q | p in places && q in places && p != q
      ensures keys[p] != keys[q]
    {
      assert Occupied(olds, news, p) && Occupied(olds, news, q);
    }
    CountKeys(places, keys, m.Keys - {key});
    SomeEmpty(news);
  }

  /** The probe sequence of any hash finds an empty bucket within one round if there is one. */
  lemma ProbesFindEmpty(flags: seq<Flag>, h: nat) returns (s: nat)
    requires IsPow2(|flags|) && exists b :: 0 <= b < |flags| && flags[b].empty
    ensures s < |flags| && flags[Probe(|flags|, h, s)].empty && NoneEmpty(flags, h, s)
    ensures Reachable(flags, h, Probe(|flags|, h, s))
  {
    var b :| 0 <= b < |flags| && flags[b].empty;
    ProbesCover(|flags|, h, b);
    var t :| 0 <= t < |flags| && Probe(|flags|, h, t) == b;
    s := 0;
    while !flags[Probe(|flags|, h, s)].empty
      invariant s <= t && NoneEmpty(flags, h, s)
      decreases t - s
    {
      s := s + 1;
    }
    MetIsReachable(flags, h, s, s);
  }

  // ----- looking up -----

  /** The first s probes of hash h meet neither an empty bucket nor the key. */
  ghost predicate Missed<K>(flags: seq<Flag>, keys: seq<K>, h: nat, key: K, s: nat)
    requires 0 < |flags| <= |keys|
  {
    forall t: nat | t < s ::
      var b := Probe(|flags|, h, t);
      !flags[b].empty && (flags[b].deleted || keys[b] != key)
  }

  /** The first s probes of hash h meet no deleted bucket. */
  ghost predicate NoneDeleted(flags: seq<Flag>, h: nat, s: nat)
    requires |flags| > 0
  {
    forall t: nat | t < s :: !flags[Probe(|flags|, h, t)].deleted
  }

  /** Of the first s probes of hash h the last to meet a deleted bucket met this one. */
  ghost predicate LastDeleted(flags: seq<Flag>, h: nat, s: nat, site: nat)
    requires |flags| > 0
  {
    site < |flags| && flags[site].deleted &&
    exists t: nat ::
          t < s && Probe(|flags|, h, t) == site && forall u: nat | t < u < s :: !flags[Probe(|flags|, h, u)].deleted
  }

  /**
   * Where kh_put adds a key of hash h: its probes go on to the first empty bucket, or all the way
   * round, and the bucket is the last deleted one they met, or that empty one if they met none.
   */
  ghost predicate PutSite(flags: seq<Flag>, h: nat, x: nat)
    requires x < |flags|
  {
    exists s: nat :: NoneEmpty(flags, h, s)
                     && (flags[Probe(|flags|, h, s)].empty
                         || (s >= |flags| && Probe(|flags|, h, s) == Probe(|flags|, h, 0)))
                     && if flags[x].empty then NoneDeleted(flags, h, s) && x == Probe(|flags|, h, s)
                        else LastDeleted(flags, h, s, x)
  }

  /** A bucket that kh_put may reuse: remembered as site, or none seen yet. */
  ghost predicate SiteFor(flags: seq<Flag>, h: nat, s: nat, site: nat)
    requires |flags| > 0
  {
    if site < |flags| then LastDeleted(flags, h, s, site) && Reachable(flags, h, site)
    else site == |flags| && NoneDeleted(flags, h, s)
  }

  lemma PutSiteFound(flags: seq<Flag>, h: nat, s: nat, site: nat)
    requires |flags| > 0 && NoneEmpty(flags, h, s) && SiteFor(flags, h, s, site)
    requires flags[Probe(|flags|, h, s)].empty || (site < |flags| <= s && Probe(|flags|, h, s) == Probe(|flags|, h, 0))
    ensures PutSite(flags, h, if site < |flags| then site else Probe(|flags|, h, s))
  {}

  /** Remembering the bucket of step s when it is deleted. */
  lemma SiteStep<K>(flags: seq<Flag>, keys: seq<K>, h: nat, key: K, s: nat, site: nat)
    requires IsPow2(|flags|) && |flags| <= |keys|
    requires Missed(flags, keys, h, key, s) && SiteFor(flags, h, s, site)
    ensures var i := Probe(|flags|, h, s);
            SiteFor(flags, h, s + 1, if flags[i].deleted then i else site)
    ensures Reachable(flags, h, Probe(|flags|, h, s))
  {
    MetIsReachable(flags, h, s, s);
    var i := Probe(|flags|, h, s);
    if flags[i].deleted {
      assert LastDeleted(flags, h, s + 1, i);
    } else if site < |flags| {
      var t: nat :| t < s && Probe(|flags|, h, t) == site && forall u: nat | t < u < s ::
            !flags[Probe(|flags|, h, u)].deleted;
      assert LastDeleted(flags, h, s + 1, site);
    }
  }

  /** Going past a bucket that is not the key's. */
  lemma PassStep<K>(flags: seq<Flag>, keys: seq<K>, h: nat, key: K, s: nat, site: nat)
    requires IsPow2(|flags|) && |flags| <= |keys|
    requires Missed(flags, keys, h, key, s) && SiteFor(flags, h, s, site)
    requires var i := Probe(|flags|, h, s); !flags[i].empty && (flags[i].deleted || keys[i] != key)
    ensures var i := Probe(|flags|, h, s);
            Missed(flags, keys, h, key, s + 1) && SiteFor(flags, h, s + 1, if flags[i].deleted then i else site)
  {
    SiteStep(flags, keys, h, key, s, site);
  }

  /** A whole round that met neither an empty nor a deleted bucket met only live ones. */
  lemma RoundIsFull<K>(flags: seq<Flag>, keys: seq<K>, h: nat, key: K, s: nat)
    requires IsPow2(|flags|) && |flags| <= |keys| && s >= |flags|
    requires Missed(flags, keys, h, key, s) && NoneDeleted(flags, h, s)
    ensures forall b | 0 <= b < |flags| :: Live(flags[b])
  {
    forall b | 0 <= b < |flags|
      ensures Live(flags[b])
    {
      ProbesCover(|flags|, h, b);
    }
  }

  lemma HeldIsMet<K(!new), V(!new)>(flags: seq<Flag>, keys: seq<K>, vals: seq<V>, hash: K -> nat, m: map<K, V>,
      key: K) returns (t: nat)
    requires Holds(flags, keys, vals, hash, m) && key in m
    ensures t < |flags| && NoneEmpty(flags, hash(key), t)
    ensures var b := Probe(|flags|, hash(key), t); Live(flags[b]) && keys[b] == key
  {
    assert Held(flags, keys, key);
    var i :| 0 <= i < |flags| && i < |keys| && Live(flags[i]) && keys[i] == key;
    t :| t < |flags| && ReachedAfter(flags, hash(key), t, i);
  }

  /** A key is absent once its probes end at an empty bucket or have gone a whole round. */
  lemma MissedIsAbsent<K(!new), V(!new)>(flags: seq<Flag>, keys: seq<K>, vals: seq<V>, hash: K -> nat, m: map<K, V>,
      key: K, s: nat)
    requires Holds(flags, keys, vals, hash, m) && |flags| > 0
    requires Missed(flags, keys, hash(key), key, s)
    requires s >= |flags| || flags[Probe(|flags|, hash(key), s)].empty
    ensures key !in m
  {
    if key in m {
      var t := HeldIsMet(flags, keys, vals, hash, m, key);
    }
  }

  /** A bucket met before any empty one is reachable, even on a second round. */
  lemma MetIsReachable(flags: seq<Flag>, h: nat, t: nat, s: nat)
    requires IsPow2(|flags|) && t <= s && NoneEmpty(flags, h, s)
    ensures Reachable(flags, h, Probe(|flags|, h, t))
  {
    var i := Probe(|flags|, h, t);
    if t < |flags| {
      assert ReachedAfter(flags, h, t, i);
    } else {
      ProbesCover(|flags|, h, i);
      var u :| 0 <= u < |flags| && Probe(|flags|, h, u) == i;
      assert ReachedAfter(flags, h, u, i);
    }
  }

  // ----- changing the arrays -----

  /** krealloc keeps what the table uses of the key and value arrays. */
  lemma HoldsAfterRealloc<K(!new), V(!new)>(flags: seq<Flag>, keys: seq<K>, vals: seq<V>, keys': seq<K>,
      vals': seq<V>, hash: K -> nat, m: map<K, V>)
    requires Holds(flags, keys, vals, hash, m)
    requires |flags| <= |keys'| && |flags| <= |vals'|
    requires forall i | 0 <= i < |flags| :: keys'[i] == keys[i] && vals'[i] == vals[i]
    ensures Holds(flags, keys', vals', hash, m)
  {
    forall k | k in m
      ensures Held(flags, keys', k)
    {
      assert Held(flags, keys, k);
      var i :| 0 <= i < |flags| && i < |keys| && Live(flags[i]) && keys[i] == k;
      assert keys'[i] == k;
    }
  }

  /** kh_put stores a new key at a reachable bucket that is empty or deleted. */
  lemma HoldsAfterInsert<K(!new), V(!new)>(flags: seq<Flag>, keys: seq<K>, vals: seq<V>, hash: K -> nat, m: map<K, V>,
      key: K, x: nat)
    requires Holds(flags, keys, vals, hash, m) && key !in m
    requires x < |flags| && !Live(flags[x]) && Reachable(flags, hash(key), x)
    ensures Holds(flags[x := LIVE], keys[x := key], vals, hash, m[key := vals[x]])
  {
    var flags', keys', m' := flags[x := LIVE], keys[x := key], m[key := vals[x]];
    forall i | 0 <= i < |flags'| && Live(flags'[i])
      ensures keys'[i] in m' && vals[i] == m'[keys'[i]] && Reachable(flags', hash(keys'[i]), i)
    {
      ReachableAfterFill(flags, hash(keys'[i]), i, x, LIVE);
    }
    forall k | k in m'
      ensures Held(flags', keys', k)
    {
      if k == key {
        assert keys'[x] == k && Live(flags'[x]);
      } else {
        assert Held(flags, keys, k);
        var i :| 0 <= i < |flags| && i < |keys| && Live(flags[i]) && keys[i] == k;
        assert i != x;
        assert keys'[i] == k && Live(flags'[i]);
      }
    }
  }

  /** Assigning kh_value at a live bucket. */
  lemma HoldsAfterAssign<K(!new), V(!new)>(flags: seq<Flag>, keys: seq<K>, vals: seq<V>, hash: K -> nat, m: map<K, V>,
      x: nat, v: V)
    requires Holds(flags, keys, vals, hash, m)
    requires x < |flags| && Live(flags[x])
    ensures Holds(flags, keys, vals[x := v], hash, m[keys[x] := v])
  {
    assert keys[x] in m;
    forall k | k in m[keys[x] := v]
      ensures Held(flags, keys, k)
    {
      assert k in m;
    }
  }

  /** kh_del leaves a tombstone, which keeps every path through it open. */
  lemma HoldsAfterDelete<K(!new), V(!new)>(flags: seq<Flag>, keys: seq<K>, vals: seq<V>, hash: K -> nat, m: map<K, V>,
      x: nat)
    requires Holds(flags, keys, vals, hash, m)
    requires x < |flags| && Live(flags[x])
    ensures Holds(flags[x := flags[x].(deleted := true)], keys, vals, hash, m - {keys[x]})
  {
    var flags', m' := flags[x := flags[x].(deleted := true)], m - {keys[x]};
    forall i | 0 <= i < |flags'| && Live(flags'[i])
      ensures keys[i] in m' && vals[i] == m'[keys[i]] && Reachable(flags', hash(keys[i]), i)
    {
      ReachableAfterFill(flags, hash(keys[i]), i, x, flags[x].(deleted := true));
    }
    forall k | k in m'
      ensures Held(flags', keys, k)
    {
      assert Held(flags, keys, k);
      var i :| 0 <= i < |flags| && i < |keys| && Live(flags[i]) && keys[i] == k;
      assert Live(flags'[i]);
    }
  }

  // ----- the whole table -----

  /** The load limit of n buckets: n * 0.77 + 0.5 truncated, in whole numbers. */
  function UpperBound(n: nat): nat {
    (77 * n + 50) / 100
  }

  /**
   * For a power of two n * 0.77 + 0.5 is not within 1/100 of an integer, so a product computed
   * that precisely truncates to the same load limit.
   */
  lemma UpperBoundRobust(n: nat, product: real)
    requires IsPow2(n) && n >= 4
    requires -0.01 < product - (n as real) * 0.77 < 0.01
    ensures (product + 0.5).Floor == UpperBound(n)
  {
    FourDivides(n);
    var q, r := (77 * n + 50) / 100, (77 * n + 50) % 100;
    Hundredths(n, q, r);
    FloorIs(product + 0.5, q);
  }

  lemma FourDivides(n: nat)
    requires IsPow2(n) && n >= 4
    ensures n % 4 == 0
  {
    var k: nat :| n == Pow2(k);
    if k >= 2 {
      assert Pow2(k) == 2 * Pow2(k - 1) == 4 * Pow2(k - 2);
    }
  }

  lemma Hundredths(n: nat, q: nat, r: nat)
    requires n % 4 == 0 && 77 * n + 50 == 100 * q + r && r < 100
    ensures q as real + 0.02 <= (n as real) * 0.77 + 0.5 <= q as real + 0.98
  {
    Remainder(n / 4, q, r);
    assert (77 * n + 50) as real == 77.0 * (n as real) + 50.0;
    assert (100 * q + r) as real == 100.0 * (q as real) + (r as real);
    Scaled(n as real, q as real, r as real);
  }

  lemma Remainder(m: nat, q: nat, r: nat)
    requires 308 * m + 50 == 100 * q + r && r < 100
    ensures 2 <= r <= 98
  {
    assert r == 4 * (77 * m - 25 * q + 12) + 2;
  }

  lemma Scaled(n: real, q: real, r: real)
    requires 77.0 * n + 50.0 == 100.0 * q + r && 2.0 <= r <= 98.0
    ensures q + 0.02 <= n * 0.77 + 0.5 <= q + 0.98
  {}

  lemma FloorIs(x: real, q: int)
    requires q as real <= x < q as real + 1.0
    ensures x.Floor == q
  {}

  /** The load limit leaves an empty bucket, exceeds half the table and grows with it. */
  lemma UpperBoundFits(n: nat)
    requires n >= 4
    ensures n / 2 < UpperBound(n) < n < UpperBound(2 * n)
  {}

  /** The most buckets a table can have: the largest power of two of 32 bits. */
  const LARGEST: nat := 0x8000_0000

  /** A key can be added: the load limit is not reached, or the table cannot be larger. */
  predicate Room(n: nat, occupied: nat, upper: nat) {
    occupied < upper || n == LARGEST
  }

  /**
   * The arrays, the map they hold and the three counters agree, and an empty bucket is left unless
   * the table cannot be larger.
   */
  ghost predicate WellFormed<K(!new), V(!new)>(flags: seq<Flag>, keys: seq<K>, vals: seq<V>, hash: K -> nat,
      m: map<K, V>, size: nat, occupied: nat, upper: nat)
  {
    |flags| <= |keys| && |flags| <= |vals| && WellFormedSealed(SEAL, flags, keys, vals, hash, m, size, occupied, upper)
  }

  ghost predicate WellFormedSealed<K(!new), V(!new)>(seal: nat, flags: seq<Flag>, keys: seq<K>, vals: seq<V>,
      hash: K -> nat, m: map<K, V>, size: nat, occupied: nat, upper: nat)
  {
    if seal == 0 then Agree(flags, keys, vals, hash, m, size, occupied, upper)
    else WellFormedSealed(seal - 1, flags, keys, vals, hash, m, size, occupied, upper)
  }

  lemma {:induction false} BreakWellFormed<K(!new), V(!new)>(seal: nat, flags: seq<Flag>, keys: seq<K>, vals: seq<V>,
      hash: K -> nat, m: map<K, V>, size: nat, occupied: nat, upper: nat)
    ensures WellFormedSealed(seal, flags, keys, vals, hash, m, size, occupied, upper)
       <==> Agree(flags, keys, vals, hash, m, size, occupied, upper)
  {
    if seal > 0 {
      BreakWellFormed(seal - 1, flags, keys, vals, hash, m, size, occupied, upper);
    }
  }

  ghost predicate Agree<K(!new), V(!new)>(flags: seq<Flag>, keys: seq<K>, vals: seq<V>, hash: K -> nat,
      m: map<K, V>, size: nat, occupied: nat, upper: nat)
  {
    && Holds(flags, keys, vals, hash, m)
    && size == |m| && occupied == |NonEmptyBuckets(flags)|
    && size <= occupied <= |flags| && (|flags| < LARGEST ==> occupied <= upper)
    && if flags == [] then upper == 0
       else IsPow2(|flags|) && 4 <= |flags| <= LARGEST && upper == UpperBound(|flags|) && upper < |flags|
  }

  lemma WellFormedInsert<K(!new), V(!new)>(flags: seq<Flag>, keys: seq<K>, vals: seq<V>, hash: K -> nat, m: map<K, V>,
                                           size: nat, occupied: nat, upper: nat, key: K, x: nat)
    requires WellFormed(flags, keys, vals, hash, m, size, occupied, upper)
    requires Room(|flags|, occupied, upper)
    requires key !in m && x < |flags| && !Live(flags[x]) && Reachable(flags, hash(key), x)
    ensures WellFormed(flags[x := LIVE], keys[x := key], vals, hash, m[key := vals[x]],
                       size + 1, if flags[x].empty then occupied + 1 else occupied, upper)
  {
    var occupied' := if flags[x].empty then occupied + 1 else occupied;
    BreakWellFormed(SEAL, flags, keys, vals, hash, m, size, occupied, upper);
    BreakWellFormed(SEAL, flags[x := LIVE], keys[x := key], vals, hash, m[key := vals[x]], size + 1, occupied', upper);
    HoldsAfterInsert(flags, keys, vals, hash, m, key, x);
    LiveCount(flags[x := LIVE], keys[x := key], vals, hash, m[key := vals[x]]);
    CountsAfterInsert(flags, m, key, vals[x], x);
    NonEmptyBound(flags[x := LIVE]);
  }

  lemma CountsAfterInsert<K, V>(flags: seq<Flag>, m: map<K, V>, key: K, val: V, x: nat)
    requires key !in m && x < |flags| && !Live(flags[x])
    ensures |m[key := val]| == |m| + 1
    ensures |NonEmptyBuckets(flags[x := LIVE])| == |NonEmptyBuckets(flags)| + (if flags[x].empty then 1 else 0)
    ensures |LiveBuckets(flags[x := LIVE])| <= |NonEmptyBuckets(flags[x := LIVE])|
  {
    var flags', before := flags[x := LIVE], NonEmptyBuckets(flags);
    assert m[key := val].Keys == m.Keys + {key};
    assert |m[key := val]| == |m.Keys + {key}| == |m.Keys| + 1;
    assert NonEmptyBuckets(flags') == before + {x as int};
    if flags[x].empty {
      assert (x as int) !in before;
    } else {
      assert (x as int) in before;
      assert before + {x as int} == before;
    }
    SubsetSize(LiveBuckets(flags'), NonEmptyBuckets(flags'));
  }

  lemma WellFormedDelete<K(!new), V(!new)>(flags: seq<Flag>, keys: seq<K>, vals: seq<V>, hash: K -> nat, m: map<K, V>,
                                           size: nat, occupied: nat, upper: nat, x: nat)
    requires WellFormed(flags, keys, vals, hash, m, size, occupied, upper)
    requires x < |flags| && Live(flags[x])
    ensures size > 0
    ensures WellFormed(flags[x := flags[x].(deleted := true)], keys, vals, hash, m - {keys[x]}, size - 1, occupied,
                       upper)
  {
    BreakWellFormed(SEAL, flags, keys, vals, hash, m, size, occupied, upper);
    assert keys[x] in m;
    var flags' := flags[x := flags[x].(deleted := true)];
    BreakWellFormed(SEAL, flags', keys, vals, hash, m - {keys[x]}, size - 1, occupied, upper);
    HoldsAfterDelete(flags, keys, vals, hash, m, x);
    assert (m - {keys[x]}).Keys == m.Keys - {keys[x]};
    assert |m - {keys[x]}| == |m| - 1;
    assert NonEmptyBuckets(flags[x := flags[x].(deleted := true)]) == NonEmptyBuckets(flags);
  }

  lemma WellFormedAssign<K(!new), V(!new)>(flags: seq<Flag>, keys: seq<K>, vals: seq<V>, hash: K -> nat, m: map<K, V>,
                                           size: nat, occupied: nat, upper: nat, x: nat, v: V)
    requires WellFormed(flags, keys, vals, hash, m, size, occupied, upper)
    requires x < |flags| && Live(flags[x])
    ensures WellFormed(flags, keys, vals[x := v], hash, m[keys[x] := v], size, occupied, upper)
  {
    BreakWellFormed(SEAL, flags, keys, vals, hash, m, size, occupied, upper);
    BreakWellFormed(SEAL, flags, keys, vals[x := v], hash, m[keys[x] := v], size, occupied, upper);
    HoldsAfterAssign(flags, keys, vals, hash, m, x, v);
    assert m[keys[x] := v].Keys == m.Keys;
    assert |m[keys[x] := v]| == |m|;
  }

  /** The table after a rehash into n empty buckets: every bucket in use is live. */
  lemma WellFormedRehash<K(!new), V(!new)>(olds: seq<Flag>, news: seq<Flag>, keys: seq<K>, vals: seq<V>,
      hash: K -> nat, m: map<K, V>)
    requires Moving(olds, news, keys, vals, hash, m, None)
    requires forall p | 0 <= p < |olds| :: !Live(olds[p])
    requires IsPow2(|news|) && 4 <= |news| <= LARGEST && |m| < UpperBound(|news|)
    ensures WellFormed(news, keys, vals, hash, m, |m|, |m|, UpperBound(|news|))
  {
    BreakWellFormed(SEAL, news, keys, vals, hash, m, |m|, |m|, UpperBound(|news|));
    BreakMoving(SEAL, olds, news, keys, vals, hash, m, None);
    FinishMoving(olds, news, keys, vals, hash, m);
    LiveCount(news, keys, vals, hash, m);
    assert NonEmptyBuckets(news) == LiveBuckets(news);
    UpperBoundFits(|news|);
  }

  /** A bucket that fails to be live drops out of the count of live ones. */
  lemma LiveAfterMark(flags: seq<Flag>, i: nat)
    requires i < |flags| && Live(flags[i])
    ensures LiveBuckets(flags[i := flags[i].(deleted := true)]) == LiveBuckets(flags) - {i as int}
    ensures |LiveBuckets(flags[i := flags[i].(deleted := true)])| == |LiveBuckets(flags)| - 1
  {
    assert (i as int) in LiveBuckets(flags);
  }

  /** No bucket below j is live any more. */
  ghost predicate Passed(flags: seq<Flag>, j: nat) {
    forall p | 0 <= p < j && p < |flags| :: !Live(flags[p])
  }
}
