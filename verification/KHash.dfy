/** The open-addressing hash table of khash.h, as a class over its three arrays. */
module KHash {
  import opened Options
  import opened Powers
  import opened Words
  import opened Probing
  import opened Seals
  import opened HashLayout
  import opened FlagWords

  /** Which of the allocations of kh_resize the C library grants. */
  datatype Memory = Memory(flags: bool, keys: bool, vals: bool)

  /** krealloc: a new array with the old content as far as both reach. */
  method Realloc<T(0)>(a: array<T>, n: nat) returns (b: array<T>)
    ensures fresh(b) && b.Length == n
    ensures forall i | 0 <= i < n && i < a.Length :: b[i] == a[i]
  {
    b := new T[n];
    forall i | 0 <= i < n && i < a.Length {
      b[i] := a[i];
    }
  }

  /** The number of buckets kh_resize settles on when asked for n. */
  function Target(n: nat): nat {
    if RoundUp32(n) < 4 then 4 else RoundUp32(n)
  }

  lemma TargetIsPow2(n: nat)
    requires n < UINT32
    ensures IsPow2(Target(n)) && 4 <= Target(n) <= LARGEST
    ensures if 0 < n <= LARGEST then n <= Target(n) && (Target(n) == 4 || Target(n) / 2 < n) else Target(n) == 4
    ensures Target(n) < 16 || Target(n) % 16 == 0
    ensures UpperBound(Target(n)) < Target(n)
  {
    if 0 < n <= LARGEST {
      RoundUpIsLeast(n);
    } else {
      RoundUpWraps(n);
    }
    assert Pow2(2) == 4;
    WholeWords(Target(n));
    UpperBoundFits(Target(n));
  }

  lemma WholeWords(n: nat)
    requires IsPow2(n)
    ensures n < 16 || n % 16 == 0
  {
    var k: nat :| n == Pow2(k);
    assert Pow2(4) == 16 by {
      assert Pow2(2) == 4;
    }
    if k >= 4 {
      Pow2Add(4, k - 4);
    } else {
      Pow2Monotone(k, 3);
    }
  }

  /** kh_put asks for one bucket less to clean up and for one more to double, which the largest table cannot. */
  lemma PutTargets(n: nat)
    requires IsPow2(n) && 4 <= n <= LARGEST
    ensures Target(n - 1) == n
    ensures Target(n + 1) == if n == LARGEST then 4 else 2 * n
  {
    var k: nat :| n == Pow2(k);
    assert Pow2(k + 1) == 2 * n;
    RoundUpIsLeast(n - 1);
    HalfBelow(n);
    Pow2Between(n, RoundUp32(n - 1), n - 1);
    if n < LARGEST {
      BelowLargest(n);
      RoundUpIsLeast(n + 1);
      Pow2Between(2 * n, RoundUp32(n + 1), n + 1);
    } else {
      RoundUpWraps(n + 1);
    }
  }

  lemma BelowLargest(n: nat)
    requires IsPow2(n) && n < LARGEST
    ensures 2 * n <= LARGEST
  {
    var k: nat :| n == Pow2(k);
    PowersOfTwo();
    if k >= 31 {
      Pow2Monotone(31, k);
    } else {
      Pow2Monotone(k, 30);
      assert Pow2(31) == 2 * Pow2(30);
    }
  }

  lemma HalfBelow(n: nat)
    requires n >= 4
    ensures n / 2 < n - 1
  {}

  /** What kh_put asks of kh_resize; the doubled size is computed in 32 bits. */
  function Asked(n: nat, size: nat): nat {
    if n > 2 * size % UINT32 then n - 1 else n + 1
  }

  lemma Doubled(size: nat)
    requires size < LARGEST
    ensures 2 * size % UINT32 == 2 * size
  {}

  /** Either request of kh_put leaves the elements of a full table below the new load limit, or is refused. */
  lemma RoomMade(n: nat, size: nat, upper: nat)
    requires if n == 0 then size == 0 else IsPow2(n) && 4 <= n <= LARGEST && upper == UpperBound(n) && size <= n
    requires n < LARGEST ==> size <= upper
    ensures Asked(n, size) < UINT32
    ensures size < UpperBound(Target(Asked(n, size))) || n == LARGEST
  {
    if n == 0 {
      TargetIsPow2(1);
      UpperBoundFits(Target(1));
    } else if n < LARGEST {
      PutTargets(n);
      UpperBoundFits(n);
      Doubled(size);
    }
  }

  /** What the request comes to. */
  lemma AskedIs(n: nat, size: nat, upper: nat)
    requires if n == 0 then size == 0 else IsPow2(n) && 4 <= n <= LARGEST && upper == UpperBound(n) && size <= n
    requires n < LARGEST ==> size <= upper
    ensures n == 0 ==> Target(Asked(n, size)) == 4
    ensures n > 2 * size ==> Target(Asked(n, size)) == n && size < UpperBound(n)
    ensures 0 < n <= 2 * size && n < LARGEST ==> Target(Asked(n, size)) == 2 * n && size < UpperBound(2 * n)
    ensures n <= 2 * size && n == LARGEST ==> size >= UpperBound(Target(Asked(n, size)))
  {
    if n == 0 {
      TargetIsPow2(1);
    } else {
      PutTargets(n);
      UpperBoundFits(n);
      if size < LARGEST {
        Doubled(size);
      }
    }
  }

  class KHash<K(!new, ==, 0), V(!new, 0)> {
    const hash: K -> nat
    var nBuckets: nat
    var size: nat
    var nOccupied: nat
    var upperBound: nat
    var flags: array<nat>
    var keys: array<K>
    var vals: array<V>
    ghost var contents: map<K, V>

    ghost function Flags(): (f: seq<Flag>)
      requires nBuckets <= 16 * flags.Length
      reads this, flags
      ensures |f| == nBuckets
    {
      Unpack(flags[..], nBuckets)
    }

    ghost function Repr(): set<object>
      reads this
    {
      {this, flags, keys, vals}
    }

    /** The arrays are those of the earlier state or newly allocated. */
    twostate predicate FreshArrays()
      reads this
    {
      && (flags == old(flags) || fresh(flags))
      && (keys == old(keys) || fresh(keys))
      && (vals == old(vals) || fresh(vals))
    }

    /** The three arrays are three objects, large enough for the buckets. */
    ghost predicate Arrays()
      reads this
    {
      && nBuckets <= 16 * flags.Length && nBuckets <= keys.Length && nBuckets <= vals.Length
      && flags as object != keys && flags as object != vals && keys as object != vals
    }

    ghost predicate Valid()
      reads this, flags, keys, vals
    {
      Arrays() && WellFormed(Flags(), keys[..], vals[..], hash, contents, size, nOccupied, upperBound)
    }

    lemma Open()
      ensures Valid() <==>
                Arrays() && Agree(Flags(), keys[..], vals[..], hash, contents, size, nOccupied, upperBound)
    {
      if Arrays() {
        BreakWellFormed(SEAL, Flags(), keys[..], vals[..], hash, contents, size, nOccupied, upperBound);
      }
    }

    constructor (hash: K -> nat)
      ensures Valid() && contents == map[] && this.hash == hash && nBuckets == 0
      ensures fresh(flags) && fresh(keys) && fresh(vals)
    {
      this.hash := hash;
      nBuckets, size, nOccupied, upperBound := 0, 0, 0, 0;
      flags, keys, vals := new nat[0], new K[0], new V[0];
      contents := map[];
      new;
      Open();
    }

    /** kh_get: the bucket of the key, or nBuckets. */
    method Get(key: K) returns (i: nat)
      requires Valid()
      ensures key in contents ==> i < nBuckets && Live(Flags()[i]) && keys[i] == key && vals[i] == contents[key]
      ensures key !in contents ==> i == nBuckets
    {
      Open();
      if nBuckets == 0 {
        return 0;
      }
      i := Lookup(key);
    }

    method Lookup(key: K) returns (i: nat)
      requires Arrays() && IsPow2(nBuckets) && nBuckets <= LARGEST
      requires Holds(Flags(), keys[..], vals[..], hash, contents)
      ensures key in contents ==> i < nBuckets && Live(Flags()[i]) && keys[i] == key && vals[i] == contents[key]
      ensures key !in contents ==> i == nBuckets
    {
      ghost var step;
      i, step := Seek(key);
      if i == nBuckets {
        MissedIsAbsent(Flags(), keys[..], vals[..], hash, contents, key, step);
      }
    }

    /** The probe loop of kh_get, whatever the table holds: the key's bucket, or nBuckets after step misses. */
    method Seek(key: K) returns (i: nat, ghost step: nat)
      requires Arrays() && IsPow2(nBuckets) && nBuckets <= LARGEST
      ensures i < nBuckets ==> Live(Flags()[i]) && keys[i] == key
      ensures i >= nBuckets ==> i == nBuckets && Missed(Flags(), keys[..], hash(key), key, step)
      ensures i >= nBuckets ==> step >= nBuckets || Flags()[Probe(nBuckets, hash(key), step)].empty
    {
      var k, steps := hash(key), 0;
      i := FirstBucket(nBuckets, k);
      step := 0;
      var last := i;
      ghost var f := Flags();
      while !FlagAt(flags, i).empty && (FlagAt(flags, i).deleted || keys[i] != key)
        invariant i == Probe(nBuckets, k, step) && steps == step < 2 * nBuckets - 1
        invariant Missed(f, keys[..], k, key, step)
        decreases 2 * nBuckets - step
      {
        i, steps := NextBucket(nBuckets, k, i, steps);
        step := steps;
        if i == last {
          return nBuckets, step;
        }
      }
      if FlagAt(flags, i).empty || FlagAt(flags, i).deleted {
        i := nBuckets;
      }
    }

    /**
     * The probe loop of kh_put: it ends at an empty bucket, at the key, or, wrapped, back at its
     * start; site is the last deleted bucket it met, or nBuckets.
     */
    method Walk(key: K) returns (i: nat, site: nat, wrapped: bool, ghost step: nat)
      requires Arrays() && IsPow2(nBuckets) && nBuckets <= LARGEST
      ensures i < nBuckets
      ensures Missed(Flags(), keys[..], hash(key), key, step) && SiteFor(Flags(), hash(key), step, site)
      ensures i == Probe(nBuckets, hash(key), step)
      ensures if wrapped then step >= nBuckets && i == Probe(nBuckets, hash(key), 0)
              else Flags()[i].empty || (Live(Flags()[i]) && keys[i] == key)
    {
      var k, steps := hash(key), 0;
      i := FirstBucket(nBuckets, k);
      site, step, wrapped := nBuckets, 0, false;
      var last := i;
      ghost var f := Flags();
      while !FlagAt(flags, i).empty && (FlagAt(flags, i).deleted || keys[i] != key)
        invariant i == Probe(nBuckets, k, step) && steps == step < 2 * nBuckets - 1
        invariant Missed(f, keys[..], k, key, step) && SiteFor(f, k, step, site)
        decreases 2 * nBuckets - step
      {
        PassStep(f, keys[..], k, key, step, site);
        if FlagAt(flags, i).deleted {
          site := i;
        }
        i, steps := NextBucket(nBuckets, k, i, steps);
        step := steps;
        if i == last {
          wrapped := true;
          break;
        }
      }
    }

    /**
     * The bucket kh_put uses. A present key is found; an absent one gets a bucket that is free
     * and reachable, unless every bucket is live, when the key's first bucket comes back.
     */
    method FindSite(key: K) returns (x: nat)
      requires Arrays() && IsPow2(nBuckets) && nBuckets <= LARGEST
      requires Holds(Flags(), keys[..], vals[..], hash, contents)
      ensures x < nBuckets
      ensures key in contents ==> Live(Flags()[x]) && keys[x] == key && vals[x] == contents[key]
      ensures key !in contents && !Live(Flags()[x]) ==>
            Reachable(Flags(), hash(key), x) && PutSite(Flags(), hash(key), x)
      ensures key !in contents && Live(Flags()[x]) ==>
                x == Probe(nBuckets, hash(key), 0) && forall b | 0 <= b < nBuckets :: Live(Flags()[b])
    {
      ghost var f := Flags();
      var i, site, wrapped, step := Walk(key);
      if wrapped || FlagAt(flags, i).empty {
        MissedIsAbsent(f, keys[..], vals[..], hash, contents, key, step);
      }
      if !wrapped {
        SiteStep(f, keys[..], hash(key), key, step, site);
      } else if site == nBuckets {
        RoundIsFull(f, keys[..], hash(key), key, step);
      }
      x := if wrapped then site else nBuckets;
      if x == nBuckets {
        if FlagAt(flags, i).empty && site != nBuckets {
          x := site;
        } else {
          x := i;
        }
      }
      if key !in contents && !Live(f[x]) {
        PutSiteFound(f, hash(key), step, site);
      }
    }

    /** kh_del: the bucket x is given up; end and free buckets are ignored. */
    method Del(x: nat)
      requires Valid() && x <= nBuckets
      modifies this, flags
      ensures Valid() && Repr() == old(Repr()) && keys == old(keys) && vals == old(vals)
      ensures nBuckets == old(nBuckets) && nOccupied == old(nOccupied)
      ensures contents == if x < nBuckets && old(Live(Flags()[x])) then old(contents) - {keys[x]} else old(contents)
    {
      if x != nBuckets && !FlagAt(flags, x).empty && !FlagAt(flags, x).deleted {
        ghost var f, ks, vs := Flags(), keys[..], vals[..];
        WellFormedDelete(f, ks, vs, hash, contents, size, nOccupied, upperBound, x);
        MarkDeleted(flags, nBuckets, x);
        assert Flags() == f[x := f[x].(deleted := true)] && keys[..] == ks && vals[..] == vs;
        size := size - 1;
        contents := contents - {keys[x]};
      }
    }

    /** kh_value(h, x) = v at a bucket that holds an element. */
    method SetValue(x: nat, v: V)
      requires Valid() && x < nBuckets && Live(Flags()[x])
      modifies this, vals
      ensures Valid() && Repr() == old(Repr()) && flags == old(flags) && keys == old(keys)
      ensures contents == old(contents)[keys[x] := v]
      ensures nBuckets == old(nBuckets) && nOccupied == old(nOccupied) && size == old(size)
    {
      WellFormedAssign(Flags(), keys[..], vals[..], hash, contents, size, nOccupied, upperBound, x, v);
      contents := contents[keys[x] := v];
      vals[x] := v;
    }

    /** Storing a key at the bucket FindSite chose: the end of kh_put. */
    method Store(key: K, x: nat) returns (ret: int)
      requires Valid() && x < nBuckets
      requires key in contents ==> Live(Flags()[x]) && keys[x] == key
      requires key !in contents && !Live(Flags()[x]) ==> Reachable(Flags(), hash(key), x)
      requires Room(nBuckets, nOccupied, upperBound)
      modifies this, flags, keys
      ensures Valid() && Repr() == old(Repr()) && vals == old(vals) && flags == old(flags) && keys == old(keys)
      ensures nBuckets == old(nBuckets)
      ensures Live(Flags()[x])
      ensures if old(Live(Flags()[x])) then contents == old(contents) && ret == 0 && keys[x] == old(keys[x])
              else contents == old(contents)[key := vals[x]] && ret == (if old(Flags()[x]).empty then 1 else 2)
                   && keys[x] == key
    {
      if !Live(Flags()[x]) {
        WellFormedInsert(Flags(), keys[..], vals[..], hash, contents, size, nOccupied, upperBound, key, x);
      }
      var flag := FlagAt(flags, x);
      if flag.empty || flag.deleted {
        keys[x] := key;
        MarkLive(flags, nBuckets, x);
        size := size + 1;
        contents := contents[key := vals[x]];
        if flag.empty {
          nOccupied, ret := nOccupied + 1, 1;
        } else {
          ret := 2;
        }
      } else {
        ret := 0;
      }
    }

    /** What holds between two steps of the kick-out loop; hand is the element being moved. */
    ghost predicate Rehashing(newFlags: array<nat>, newN: nat, hand: Option<K>)
      reads this, flags, keys, vals, newFlags
    {
      && Arrays()
      && newFlags != flags && newFlags as object != keys && newFlags as object != vals
      && newN <= 16 * newFlags.Length && IsPow2(newN) && newN <= LARGEST && |contents| < newN
      && Moving(Flags(), Unpack(newFlags[..], newN), keys[..], vals[..], hash, contents, hand)
    }

    /** The inner probe loop of kh_resize: the first empty bucket of the new layout. */
    method FindEmpty(newFlags: array<nat>, newN: nat, key: K) returns (i: nat)
      requires newN <= 16 * newFlags.Length && IsPow2(newN) && newN <= LARGEST
      requires exists b :: 0 <= b < newN && Unpack(newFlags[..], newN)[b].empty
      ensures i < newN && Unpack(newFlags[..], newN)[i].empty
      ensures Reachable(Unpack(newFlags[..], newN), hash(key), i)
    {
      ghost var news := Unpack(newFlags[..], newN);
      var k, step := hash(key), 0;
      i := FirstBucket(newN, k);
      ghost var s := ProbesFindEmpty(news, k);
      while !FlagAt(newFlags, i).empty
        invariant i == Probe(newN, k, step) && step <= s
        decreases s - step
      {
        i, step := NextBucket(newN, k, i, step);
      }
    }

    /** One round of the kick-out loop: store the element in hand, take out what it displaces. */
    method Kick(newFlags: array<nat>, newN: nat, key: K, val: V) returns (kicked: bool, key': K, val': V)
      requires Rehashing(newFlags, newN, Some(key)) && contents[key] == val
      modifies flags, keys, vals, newFlags
      ensures Rehashing(newFlags, newN, if kicked then Some(key') else None)
      ensures kicked ==> contents[key'] == val'
      ensures LiveBuckets(Flags()) <= old(LiveBuckets(Flags()))
      ensures kicked ==> |LiveBuckets(Flags())| < old(|LiveBuckets(Flags())|)
    {
      ghost var olds, news := Flags(), Unpack(newFlags[..], newN);
      RoomToPlace(olds, news, keys[..], vals[..], hash, contents, key);
      var i := FindEmpty(newFlags, newN, key);
      Place(olds, news, keys[..], vals[..], hash, contents, key, val, i);
      MarkNotEmpty(newFlags, newN, i);
      key', val' := keys[i], vals[i];
      kicked := i < nBuckets && !FlagAt(flags, i).empty && !FlagAt(flags, i).deleted;
      keys[i] := key;
      vals[i] := val;
      if kicked {
        LiveAfterMark(olds, i);
        MarkDeleted(flags, nBuckets, i);
      }
    }

    /** The kick-out loop: the chain of displaced elements ends, having only shortened the old layout. */
    method KickOut(newFlags: array<nat>, newN: nat, key: K, val: V)
      requires Rehashing(newFlags, newN, Some(key)) && contents[key] == val
      modifies flags, keys, vals, newFlags
      ensures Rehashing(newFlags, newN, None)
      ensures LiveBuckets(Flags()) <= old(LiveBuckets(Flags()))
    {
      var moving, key', val' := true, key, val;
      while moving
        invariant Rehashing(newFlags, newN, if moving then Some(key') else None)
        invariant moving ==> contents[key'] == val'
        invariant LiveBuckets(Flags()) <= old(LiveBuckets(Flags()))
        decreases moving, |LiveBuckets(Flags())|
      {
        moving, key', val' := Kick(newFlags, newN, key', val');
      }
    }

    /** The rehash loop of kh_resize over the old buckets. */
    method Rehash(newFlags: array<nat>, newN: nat)
      requires Rehashing(newFlags, newN, None)
      modifies flags, keys, vals, newFlags
      ensures Rehashing(newFlags, newN, None)
      ensures Passed(Flags(), nBuckets)
    {
      var j := 0;
      while j != nBuckets
        invariant 0 <= j <= nBuckets && Passed(Flags(), j)
        invariant Rehashing(newFlags, newN, None)
        decreases nBuckets - j
      {
        if !FlagAt(flags, j).empty && !FlagAt(flags, j).deleted {
          ghost var f := Flags();
          PickUp(f, Unpack(newFlags[..], newN), keys[..], vals[..], hash, contents, j);
          var key, val := keys[j], vals[j];
          LiveAfterMark(f, j);
          MarkDeleted(flags, nBuckets, j);
          KickOut(newFlags, newN, key, val);
          PassedStep(f, Flags(), j);
        }
        j := j + 1;
      }
    }

    lemma PassedStep(before: seq<Flag>, after: seq<Flag>, j: nat)
      requires |before| == |after| && Passed(before, j) && j < |before|
      requires LiveBuckets(after) <= LiveBuckets(before) - {j as int}
      ensures Passed(after, j + 1)
    {
      forall p | 0 <= p < j + 1 && p < |after|
        ensures !Live(after[p])
      {
        assert p !in LiveBuckets(before) - {j as int};
      }
    }

    /** The reallocations of kh_resize before it expands; a refused one changes no binding. */
    method Grow(newN: nat, memory: Memory) returns (ok: bool)
      requires Valid() && nBuckets < newN
      modifies this
      ensures Valid() && nBuckets == old(nBuckets) && size == old(size) && contents == old(contents)
      ensures nOccupied == old(nOccupied) && upperBound == old(upperBound)
      ensures flags == old(flags) && (keys == old(keys) || fresh(keys)) && (vals == old(vals) || fresh(vals))
      ensures ok == (memory.keys && memory.vals)
      ensures ok ==> newN <= keys.Length && newN <= vals.Length
    {
      ghost var ks, vs := keys[..], vals[..];
      Open();
      if !memory.keys {
        return false;
      }
      keys := Realloc(keys, newN);
      HoldsAfterRealloc(Flags(), ks, vs, keys[..], vals[..], hash, contents);
      Open();
      if !memory.vals {
        return false;
      }
      ks := keys[..];
      vals := Realloc(vals, newN);
      HoldsAfterRealloc(Flags(), ks, vs, keys[..], vals[..], hash, contents);
      Open();
      return true;
    }

    /** The end of kh_resize: shrink the arrays if they are too long, install the new layout. */
    method Install(newFlags: array<nat>, newN: nat)
      requires Rehashing(newFlags, newN, None) && Passed(Flags(), nBuckets)
      requires 4 <= newN <= LARGEST && size == |contents| < UpperBound(newN)
      modifies this
      ensures Valid() && nBuckets == newN && nOccupied == size == old(size) && contents == old(contents)
      ensures nOccupied < upperBound
      ensures flags == newFlags && (keys == old(keys) || fresh(keys)) && (vals == old(vals) || fresh(vals))
    {
      ghost var news, ks, vs := Unpack(newFlags[..], newN), keys[..], vals[..];
      WellFormedRehash(Flags(), news, ks, vs, hash, contents);
      if nBuckets > newN {
        keys := Realloc(keys, newN);
        vals := Realloc(vals, newN);
        BreakWellFormed(SEAL, news, ks, vs, hash, contents, size, size, UpperBound(newN));
        HoldsAfterRealloc(news, ks, vs, keys[..], vals[..], hash, contents);
        BreakWellFormed(SEAL, news, keys[..], vals[..], hash, contents, size, size, UpperBound(newN));
      }
      flags := newFlags;
      nBuckets := newN;
      nOccupied := size;
      upperBound := UpperBound(nBuckets);
    }

    /**
     * kh_resize: whatever it does to the layout, the map is the same. A request too small changes
     * nothing; another one fails exactly if memory it needs is refused: the flags always, keys and
     * values to expand. The table it leaves otherwise has the rounded size and no tombstone.
     */
    method Resize(asked: nat, memory: Memory) returns (r: int)
      requires Valid() && asked < UINT32
      modifies this, flags, keys, vals
      ensures Valid() && contents == old(contents) && size == old(size)
      ensures FreshArrays()
      ensures r == if size >= UpperBound(Target(asked))
                      || (memory.flags && (old(nBuckets) < Target(asked) ==> memory.keys && memory.vals))
                   then 0 else -1
      ensures if r == 0 && size < UpperBound(Target(asked))
              then nBuckets == Target(asked) > 0 && nOccupied == size < upperBound
              else nBuckets == old(nBuckets) && nOccupied == old(nOccupied) && upperBound == old(upperBound)
      ensures size >= UpperBound(Target(asked)) ==> Flags() == old(Flags())
    {
      TargetIsPow2(asked);
      var newN := RoundUp32(asked);
      if newN < 4 {
        newN := 4;
      }
      if size >= UpperBound(newN) {
        return 0; // requested size is too small
      }
      if !memory.flags {
        return -1;
      }
      var newFlags := NewFlags(newN);
      if nBuckets < newN {
        var ok := Grow(newN, memory);
        if !ok {
          return -1;
        }
      }
      Open();
      StartMoving(Flags(), Unpack(newFlags[..], newN), keys[..], vals[..], hash, contents);
      Rehash(newFlags, newN);
      Install(newFlags, newN);
      return 0;
    }

    /** What a valid table's numbers satisfy. */
    lemma Load()
      requires Valid()
      ensures size == |contents| <= nOccupied <= nBuckets && (nBuckets < LARGEST ==> nOccupied <= upperBound)
      ensures if nBuckets == 0 then upperBound == 0
              else IsPow2(nBuckets) && 4 <= nBuckets <= LARGEST && upperBound == UpperBound(nBuckets) < nBuckets
    {
      Open();
    }

    /**
     * The start of kh_put. Below the load limit nothing happens. At the limit a new table gets 4
     * buckets; one with more than twice as many buckets as elements is cleaned up, for which it needs
     * memory for the flags; any other is doubled, for which it needs all three, unless it has 2^31
     * buckets and stays as it is.
     */
    method MakeRoom(memory: Memory) returns (ok: bool)
      requires Valid()
      modifies this, flags, keys, vals
      ensures Valid() && contents == old(contents) && size == old(size) && FreshArrays()
      ensures ok <==> (old(nOccupied) >= old(upperBound) ==>
                         if old(nBuckets) > 2 * size then memory.flags
                         else old(nBuckets) == 0x8000_0000 || (memory.flags && memory.keys && memory.vals))
      ensures nBuckets == if !ok || old(nOccupied) < old(upperBound) then old(nBuckets)
                          else if old(nBuckets) == 0 then 4
                          else if old(nBuckets) > 2 * size || old(nBuckets) == 0x8000_0000 then old(nBuckets)
                          else 2 * old(nBuckets)
      ensures if old(nOccupied) < old(upperBound) || (old(nBuckets) == 0x8000_0000 && old(nBuckets) <= 2 * size)
              then Flags() == old(Flags()) else ok ==> nOccupied == size
      ensures ok ==> nBuckets > 0 && Room(nBuckets, nOccupied, upperBound)
    {
      ok := true;
      if nOccupied >= upperBound {
        ok := Renew(memory);
      }
      Load();
    }

    /** The two calls of kh_resize in kh_put. */
    method Renew(memory: Memory) returns (ok: bool)
      requires Valid() && nOccupied >= upperBound
      modifies this, flags, keys, vals
      ensures Valid() && contents == old(contents) && size == old(size) && FreshArrays()
      ensures ok <==> if old(nBuckets) > 2 * size then memory.flags
                      else old(nBuckets) == 0x8000_0000 || (memory.flags && memory.keys && memory.vals)
      ensures nBuckets == if !ok then old(nBuckets)
                          else if old(nBuckets) == 0 then 4
                          else if old(nBuckets) > 2 * size || old(nBuckets) == 0x8000_0000 then old(nBuckets)
                          else 2 * old(nBuckets)
      ensures if old(nBuckets) == 0x8000_0000 && old(nBuckets) <= 2 * size then Flags() == old(Flags())
              else ok ==> nOccupied == size < upperBound
    {
      Load();
      AskedIs(nBuckets, size, upperBound);
      RoomMade(nBuckets, size, upperBound);
      var r := Resize(if nBuckets > 2 * size % UINT32 then nBuckets - 1 else nBuckets + 1, memory);
      ok := r == 0;
    }

    /** Without tombstones a bucket is live or empty. */
    lemma NoTombstones()
      requires Valid() && nOccupied == size
      ensures forall b | 0 <= b < nBuckets && !Live(Flags()[b]) :: Flags()[b].empty
    {
      Open();
      OccupiedIsLive(Flags(), keys[..], vals[..], hash, contents);
    }

    /** FindSite fails exactly for a key that is absent from a table with every bucket live. */
    lemma RoomLeft(key: K, x: nat)
      requires Valid() && Room(nBuckets, nOccupied, upperBound) && x < nBuckets
      requires key !in contents && Live(Flags()[x]) ==> forall b | 0 <= b < nBuckets :: Live(Flags()[b])
      ensures key !in contents ==> (Live(Flags()[x]) <==> size >= LARGEST)
      ensures key !in contents && Live(Flags()[x]) ==> keys[x] != key
    {
      Open();
      AllLive(Flags(), keys[..], vals[..], hash, contents);
      if key !in contents && Live(Flags()[x]) {
        assert keys[..][x] in contents;
      }
    }

    /** kh_put once there is room. */
    method Insert(key: K) returns (x: nat, ret: int)
      requires Valid() && Room(nBuckets, nOccupied, upperBound) && nBuckets > 0
      modifies this, flags, keys
      ensures Valid() && Repr() == old(Repr()) && vals == old(vals) && flags == old(flags) && keys == old(keys)
      ensures x < nBuckets == old(nBuckets) && Live(Flags()[x])
      ensures if key in old(contents) then contents == old(contents) && ret == 0 && keys[x] == key
              else if old(size) >= LARGEST then contents == old(contents) && ret == 0 && keys[x] != key
              else contents == old(contents)[key := vals[x]] && ret == (if old(Flags()[x]).empty then 1 else 2)
                   && keys[x] == key && PutSite(old(Flags()), hash(key), x)
    {
      Open();
      x := FindSite(key);
      RoomLeft(key, x);
      ret := Store(key, x);
    }

    /**
     * kh_put: the bucket of the key and 0 if it was there, 1 or 2 if it was added in an empty or a
     * deleted bucket, its value being whatever that bucket last had; -1 exactly if memory was
     * refused, of the flags to clean up, of any of the three arrays to double. A table below its load
     * limit keeps its size and its layout, and the bucket is the one its probes lead to. In a table
     * with 2^31 elements an absent key gets the bucket of another one, and 0.
     */
    method Put(key: K, memory: Memory) returns (x: nat, ret: int)
      requires Valid()
      modifies this, flags, keys, vals
      ensures Valid() && FreshArrays()
      ensures ret == -1 <==> (old(nOccupied) >= old(upperBound)
                              && if old(nBuckets) > 2 * old(size) then !memory.flags
                                 else old(nBuckets) != 0x8000_0000 && !(memory.flags && memory.keys && memory.vals))
      ensures nBuckets == if ret == -1 || old(nOccupied) < old(upperBound) then old(nBuckets)
                          else if old(nBuckets) == 0 then 4
                          else if old(nBuckets) > 2 * old(size) || old(nBuckets) == 0x8000_0000 then old(nBuckets)
                          else 2 * old(nBuckets)
      ensures ret == -1 ==> x == nBuckets && contents == old(contents)
      ensures ret != -1 ==> x < nBuckets && Live(Flags()[x])
      ensures ret != -1 ==> (keys[x] == key <==> key in old(contents) || old(size) < 0x8000_0000)
      ensures ret != -1 ==>
                if key in old(contents) || old(size) >= 0x8000_0000 then contents == old(contents) && ret == 0
                else contents == old(contents)[key := vals[x]] && (ret == 1 || ret == 2)
      ensures ret > 0 ==>
                if old(nOccupied) < old(upperBound) || (old(nBuckets) == 0x8000_0000 && old(nBuckets) <= 2 * old(size))
                then x < |old(Flags())| && PutSite(old(Flags()), hash(key), x)
                     && ret == (if old(Flags())[x].empty then 1 else 2)
                else ret == 1
    {
      Load();
      var ok := MakeRoom(memory);
      if !ok {
        return nBuckets, -1;
      }
      if nOccupied == size {
        NoTombstones();
      }
      x, ret := Insert(key);
    }
  }
}
