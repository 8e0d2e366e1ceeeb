/**
 * Triangular probing on a table whose size is a power of two: khash.h steps from bucket i
 * to (i + (++step)) & mask.
 */
module Probing {
  import opened Powers
  import opened Words

  /** The sum of the first s steps. */
  function Triangle(s: nat): nat {
    if s == 0 then 0 else Triangle(s - 1) + s
  }

  /** The remainder of a by n (WrapIsMod), by subtraction: proofs that step along do not meet symbolic division. */
  function Wrap(a: nat, n: nat): (r: nat)
    requires n > 0
    ensures r < n
  {
    if a < n then a else Wrap(a - n, n)
  }

  /** The bucket inspected after s steps from hash h. */
  function Probe(n: nat, h: nat, s: nat): (b: nat)
    requires n > 0
    ensures b < n
  {
    Wrap(h + Triangle(s), n)
  }

  lemma {:induction false} WrapIsMod(a: nat, n: nat)
    requires n > 0
    ensures Wrap(a, n) == a % n
  {
    if a < n {
      ModUnique(n, a, 0, a);
    } else {
      WrapIsMod(a - n, n);
      ModUnique(n, a, (a - n) / n + 1, (a - n) % n);
    }
  }

  /** That is h plus half of s (s + 1), modulo the number of buckets. */
  lemma ProbeIs(n: nat, h: nat, s: nat)
    requires n > 0
    ensures Probe(n, h, s) == (h + s * (s + 1) / 2) % n
  {
    TriangleIs(s);
    WrapIsMod(h + Triangle(s), n);
  }

  lemma {:induction false} TriangleIs(s: nat)
    ensures 2 * Triangle(s) == s * (s + 1)
  {
    if s > 0 {
      TriangleIs(s - 1);
    }
  }

  lemma TriangleGap(s: nat, t: nat)
    requires s < t
    ensures 2 * (Triangle(t) - Triangle(s)) == (t - s) * (t + s + 1)
    ensures Triangle(t) > Triangle(s)
  {
    TriangleIs(s);
    TriangleIs(t);
    assert (t - s) * (t + s + 1) == t * (t + 1) - s * (s + 1);
    assert (t - s) * (t + s + 1) > 0;
  }

  /** No two of the first n probes meet. */
  lemma ProbesDistinct(n: nat, h: nat, s: nat, t: nat)
    requires IsPow2(n)
    requires s < t < n
    ensures Probe(n, h, s) != Probe(n, h, t)
  {
    var d, e := t - s, t + s + 1;
    TriangleGap(s, t);
    assert d + e == 2 * t + 1 && d < 2 * n && e < 2 * n;
    if Probe(n, h, s) == Probe(n, h, t) {
      Meet(n, h, d, e, Triangle(s), Triangle(t));
    }
  }

  /** Two probes that meet are at least a whole table apart. */
  lemma Meet(n: nat, h: nat, d: nat, e: nat, x: nat, y: nat)
    requires IsPow2(n) && d > 0 && e > 0 && (d + e) % 2 == 1
    requires 2 * (y - x) == d * e && x <= y
    requires Wrap(h + x, n) == Wrap(h + y, n)
    ensures d >= 2 * n || e >= 2 * n
  {
    WrapIsMod(h + x, n);
    WrapIsMod(h + y, n);
    ModEqual(n, h + x, h + y);
    HalfProduct(n, d, e, y - x);
    if d < 2 * n {
      ModUnique(2 * n, d, 0, d);
    }
    if e < 2 * n {
      ModUnique(2 * n, e, 0, e);
    }
  }

  /** Of one odd and one even factor, 2n divides one if n divides half the product. */
  lemma HalfProduct(n: nat, d: nat, e: nat, half: nat)
    requires IsPow2(n)
    requires d * e == 2 * half && half % n == 0
    requires (d + e) % 2 == 1
    ensures d % (2 * n) == 0 || e % (2 * n) == 0
  {
    var k: nat :| n == Pow2(k);
    var q := half / n;
    assert d * e == (2 * n) * q by {
      assert half == n * q;
    }
    MultipleMod(2 * n, q);
    assert Pow2(k + 1) == 2 * n;
    if d % 2 == 1 {
      OddFactor(d, e, k + 1);
    } else {
      assert e * d == d * e;
      OddFactor(e, d, k + 1);
    }
  }

  /** The probe sequence first returns to its start after 2n - 1 steps. */
  lemma FirstReturn(n: nat, h: nat, s: nat)
    requires IsPow2(n) && s > 0
    requires Probe(n, h, s) == Probe(n, h, 0)
    ensures s >= 2 * n - 1
  {
    TriangleGap(0, s);
    Meet(n, h, s, s + 1, 0, Triangle(s));
  }

  /** ... and it does return then. */
  lemma ReturnsAfterRound(n: nat, h: nat)
    requires n > 0
    ensures Probe(n, h, 2 * n - 1) == Probe(n, h, 0)
  {
    var m := 2 * n - 1;
    TriangleIs(m);
    assert Triangle(m) == n * m;
    WrapMultiple(n, h, m);
  }

  lemma {:induction false} WrapMultiple(n: nat, h: nat, m: nat)
    requires n > 0
    ensures Wrap(h + n * m, n) == Wrap(h, n)
  {
    if m > 0 {
      WrapMultiple(n, h, m - 1);
      assert h + n * m - n == h + n * (m - 1);
    }
  }

  lemma ProbeStep(n: nat, h: nat, s: nat)
    requires n > 0
    ensures Probe(n, h, s + 1) == (Probe(n, h, s) + (s + 1)) % n
  {
    WrapIsMod(h + Triangle(s), n);
    WrapIsMod(h + Triangle(s + 1), n);
    ModAdd(n, h + Triangle(s), s + 1);
  }

  /** i = k & mask: where the probes of a hash start. */
  method FirstBucket(n: nat, k: nat) returns (i: nat)
    requires IsPow2(n)
    ensures i == Probe(n, k, 0) == k % n
  {
    ghost var e: nat :| n == Pow2(e);
    MaskIsRemainder(k, e);
    WrapIsMod(k, n);
    var mask := n - 1;
    i := And(k, mask);
  }

  /** i = (i + (++step)) & mask, in 32-bit arithmetic. */
  method NextBucket(n: nat, ghost k: nat, i: nat, step: nat) returns (i': nat, step': nat)
    requires IsPow2(n) && n <= 0x8000_0000 && step < 2 * n - 1
    requires i == Probe(n, k, step)
    ensures step' == step + 1 && i' == Probe(n, k, step') == (i + step') % n
    ensures if i' == Probe(n, k, 0) then step' >= n else step' < 2 * n - 1
  {
    var mask := n - 1;
    step' := step + 1;
    i' := And((i + step') % UINT32, mask);
    ghost var e: nat :| n == Pow2(e);
    MaskIsRemainder((i + step') % UINT32, e);
    WordWraps(n, i + step');
    ProbeStep(n, k, step);
    if i' == Probe(n, k, 0) {
      FirstReturn(n, k, step');
    }
    ReturnsAfterRound(n, k);
  }

  /** 32-bit overflow does not disturb a remainder by a power of two up to 2^31. */
  lemma WordWraps(n: nat, a: nat)
    requires IsPow2(n) && n <= 0x8000_0000
    ensures a % UINT32 % n == a % n
  {
    var e: nat :| n == Pow2(e);
    PowersOfTwo();
    if e > 32 {
      Pow2Monotone(32, e);
    }
    Pow2Add(e, 32 - e);
    ModOfMultiple(n, Pow2(32 - e), a / UINT32, a % UINT32, a);
  }

  lemma ModOfMultiple(n: nat, m: nat, q: nat, r: nat, a: nat)
    requires n > 0 && a == (n * m) * q + r
    ensures a % n == r % n
  {
    assert (n * m) * q == n * (m * q);
    assert n * (m * q) + n * (r / n) == n * (m * q + r / n);
    ModUnique(n, a, m * q + r / n, r % n);
  }

  /** The first n probes inspect every bucket: they are a permutation of the table. */
  lemma ProbesCover(n: nat, h: nat, b: nat)
    requires IsPow2(n) && b < n
    ensures exists s :: 0 <= s < n && Probe(n, h, s) == b
  {
    if b !in Inspected(n, h, n) {
      SubsetSize(Inspected(n, h, n), Below(n) - {b});
    }
  }

  lemma ProbeIsNew(n: nat, h: nat, m: nat)
    requires IsPow2(n) && m < n
    ensures forall s | 0 <= s < m :: Probe(n, h, s) != Probe(n, h, m)
  {
    forall s | 0 <= s < m
      ensures Probe(n, h, s) != Probe(n, h, m)
    {
      ProbesDistinct(n, h, s, m);
    }
  }

  /** The set of buckets inspected by the first m probes. */
  ghost function Inspected(n: nat, h: nat, m: nat): (r: set<nat>)
    requires IsPow2(n) && m <= n
    ensures |r| == m
    ensures forall b :: b in r <==> exists s :: 0 <= s < m && Probe(n, h, s) == b
  {
    if m == 0 then {}
    else
      var rest := Inspected(n, h, m - 1);
      ProbeIsNew(n, h, m - 1);
      rest + {Probe(n, h, m - 1)}
  }
}
