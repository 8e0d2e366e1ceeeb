/** The largest table khash.h can have, filled. */
module HashLimit {
  import opened HashLayout
  import opened Powers
  import H = KHash

  const GRANTED := H.Memory(true, true, true)

  /** The table holds the keys 0 to n - 1. */
  ghost predicate HoldsFirst(m: map<nat, nat>, n: nat) {
    forall k: nat :: k in m <==> k < n
  }

  lemma FirstCount(m: map<nat, nat>, n: nat)
    requires HoldsFirst(m, n)
    ensures |m| == n
  {
    assert m.Keys == Below(n);
  }

  /** kh_put of the next key, with memory for all it needs. */
  method PutNext(t: H.KHash<nat, nat>, i: nat)
    requires t.Valid() && HoldsFirst(t.contents, i) && i < LARGEST
    modifies t, t.flags, t.keys, t.vals
    ensures t.Valid() && t.FreshArrays() && HoldsFirst(t.contents, i + 1)
  {
    t.Load();
    FirstCount(t.contents, i);
    var x, ret := t.Put(i, GRANTED);
  }

  /** The keys 0 to n - 1 put into a new table. */
  method FillTable(n: nat) returns (t: H.KHash<nat, nat>)
    requires n <= LARGEST
    ensures fresh(t) && fresh(t.flags) && fresh(t.keys) && fresh(t.vals)
    ensures t.Valid() && t.size == n && HoldsFirst(t.contents, n)
  {
    t := new H.KHash((k: nat) => k);
    var i := 0;
    while i < n
      invariant i <= n && fresh(t) && fresh(t.flags) && fresh(t.keys) && fresh(t.vals)
      invariant t.Valid() && HoldsFirst(t.contents, i)
    {
      PutNext(t, i);
      i := i + 1;
    }
    t.Load();
    FirstCount(t.contents, n);
  }

  /**
   * With 2^31 elements in the table the next key is given the bucket of another one and reported as
   * present, though it is not in the table.
   */
  method PutIntoFullTable() returns (t: H.KHash<nat, nat>, x: nat, ret: int)
    ensures t.Valid() && t.size == LARGEST && x < t.nBuckets <= t.keys.Length
    ensures ret == 0 && t.keys[x] != LARGEST && LARGEST !in t.contents
  {
    t := FillTable(LARGEST);
    t.Load();
    x, ret := t.Put(LARGEST, GRANTED);
    t.Load();
  }
}
