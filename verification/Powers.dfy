/** Powers of two, and the 32-bit word tricks of khash.h stated over them. */
module Powers {
  const UINT32: nat := 0x1_0000_0000

  function Pow2(k: nat): (p: nat)
    ensures p > 0
  {
    if k == 0 then 1 else 2 * Pow2(k - 1)
  }

  ghost predicate IsPow2(n: nat) {
    exists k: nat :: n == Pow2(k)
  }

  lemma {:induction false} Pow2Add(a: nat, b: nat)
    ensures Pow2(a + b) == Pow2(a) * Pow2(b)
  {
    if a > 0 {
      Pow2Add(a - 1, b);
      assert Pow2(a + b) == 2 * Pow2(a - 1 + b);
    }
  }

  lemma {:induction false} Pow2Monotone(a: nat, b: nat)
    requires a <= b
    ensures Pow2(a) <= Pow2(b)
  {
    if a < b {
      Pow2Monotone(a, b - 1);
    }
  }

  /** Two powers of two that enclose no other are the same one. */
  lemma Pow2Between(m: nat, n: nat, x: nat)
    requires IsPow2(m) && IsPow2(n)
    requires m / 2 < x <= m && n / 2 < x <= n
    ensures m == n
  {
    var a: nat :| m == Pow2(a);
    var b: nat :| n == Pow2(b);
    if a < b {
      Pow2Monotone(a, b - 1);
    } else if b < a {
      Pow2Monotone(b, a - 1);
    }
  }

  /** An odd factor does not help to divide by a power of two. */
  lemma {:induction false} OddFactor(a: int, b: int, m: nat)
    requires a % 2 == 1
    requires (a * b) % Pow2(m) == 0
    ensures b % Pow2(m) == 0
    decreases m
  {
    if m > 0 {
      var p := Pow2(m - 1);
      var q := (a * b) / (2 * p);
      assert a * b == 2 * (p * q);
      OddTimes(a, b, p * q);
      var c := b / 2;
      assert a * b == 2 * (a * c);
      MultipleMod(p, q);
      OddFactor(a, c, m - 1);
      var d := c / p;
      assert b == (2 * p) * d;
      MultipleMod(2 * p, d);
    }
  }

  lemma OddTimes(a: int, b: int, c: int)
    requires a % 2 == 1
    requires a * b == 2 * c
    ensures b % 2 == 0
  {
    var k := a / 2;
    assert a * b == 2 * (k * b) + b;
  }

  /** A nonzero multiple of n is at least n away from zero. */
  lemma MultipleAway(n: nat, k: int)
    ensures k >= 1 ==> n * k >= n
    ensures k <= -1 ==> n * k + n <= 0
  {
    if k >= 1 {
      assert n * (k - 1) >= 0;
    } else if k <= -1 {
      assert n * (-k - 1) >= 0;
    }
  }

  lemma MultipleMod(n: nat, q: int)
    requires n > 0
    ensures (n * q) % n == 0
  {
    ModUnique(n, n * q, q, 0);
  }

  /** Division with remainder has one answer. */
  lemma ModUnique(n: nat, a: int, q: int, r: nat)
    requires n > 0 && r < n
    requires a == n * q + r
    ensures a % n == r && a / n == q
  {
    var q' := a / n;
    assert n * (q - q') == a % n - r;
    MultipleAway(n, q - q');
  }

  lemma ModAdd(n: nat, a: nat, b: nat)
    requires n > 0
    ensures (a % n + b) % n == (a + b) % n
  {
    var c := a % n + b;
    assert a + b == n * (a / n + c / n) + c % n;
    ModUnique(n, a + b, a / n + c / n, c % n);
  }

  lemma ModEqual(n: nat, a: nat, b: nat)
    requires n > 0
    requires a % n == b % n
    ensures (b - a) % n == 0
  {
    var q := b / n - a / n;
    assert b - a == n * q;
    ModUnique(n, b - a, q, 0);
  }

  /** The numbers below n. */
  ghost function Below(n: nat): (r: set<nat>)
    ensures |r| == n
    ensures forall x: nat :: x in r <==> x < n
  {
    if n == 0 then {} else Below(n - 1) + {n - 1}
  }

  lemma {:induction false} SubsetSize<T>(a: set<T>, b: set<T>)
    requires a <= b
    ensures |a| <= |b|
  {
    if a != {} {
      var x :| x in a;
      SubsetSize(a - {x}, b - {x});
    }
  }
}
