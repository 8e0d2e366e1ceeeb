/**
 * 32-bit machine words as the numbers below 2^32: the rounding and masking macros of khash.h,
 * bit by bit, and what they compute.
 */
module Words {
  import opened Powers

  /** Bitwise or. */
  function Or(a: nat, b: nat): nat
    decreases a + b
  {
    if a == 0 then b
    else if b == 0 then a
    else 2 * Or(a / 2, b / 2) + (if a % 2 == 1 || b % 2 == 1 then 1 else 0)
  }

  /** Shifting right by s bits. */
  function ShiftRight(y: nat, s: nat): nat {
    if s == 0 then y else ShiftRight(y / 2, s - 1)
  }

  /** Bitwise and. */
  function And(a: nat, b: nat): nat {
    if a == 0 || b == 0 then 0
    else 2 * And(a / 2, b / 2) + (if a % 2 == 1 && b % 2 == 1 then 1 else 0)
  }

  /** Bitwise and with the complement. */
  function AndNot(a: nat, b: nat): nat {
    if a == 0 then 0
    else 2 * AndNot(a / 2, b / 2) + (if a % 2 == 1 && b % 2 == 0 then 1 else 0)
  }

  lemma HalfMod(y: nat, p: nat)
    requires p > 0
    ensures y % (2 * p) == 2 * (y / 2 % p) + y % 2
  {
    var q, r := y / 2 / p, y / 2 % p;
    assert y == (2 * p) * q + (2 * r + y % 2) by {
      assert y / 2 == p * q + r;
    }
    ModUnique(2 * p, y, q, 2 * r + y % 2);
  }

  /** An odd word, halved. */
  lemma HalfOdd(m: nat)
    requires m > 0
    ensures (2 * m - 1) / 2 == m - 1 && (2 * m - 1) % 2 == 1
  {}

  lemma AndOdd(a: nat, m: nat)
    requires m > 0
    ensures And(a, 2 * m - 1) == 2 * And(a / 2, m - 1) + a % 2
  {
    HalfOdd(m);
  }

  lemma OrOdd(a: nat, m: nat)
    requires m > 0
    ensures Or(a, 2 * m - 1) == 2 * Or(a / 2, m - 1) + 1
  {
    HalfOdd(m);
  }

  /** The probe loops use k & mask with mask one less than a power of two: that is k mod it. */
  lemma {:induction false} MaskIsRemainder(v: nat, k: nat)
    ensures And(v, Pow2(k) - 1) == v % Pow2(k)
  {
    if k > 0 {
      var m := Pow2(k - 1);
      MaskIsRemainder(v / 2, k - 1);
      HalfMod(v, m);
      AndOdd(v, m);
    }
  }

  /** y has at most l bits, and the highest k of these are set. */
  ghost predicate TopOnes(y: nat, l: nat, k: nat) {
    k <= l && Pow2(l) - Pow2(l - k) <= y < Pow2(l)
  }

  lemma TopHalf(y: nat, l: nat, k: nat)
    requires TopOnes(y, l, k) && k < l
    ensures TopOnes(y / 2, l - 1, k) && Pow2(l) == 2 * Pow2(l - 1) && Pow2(l - k) == 2 * Pow2(l - 1 - k)
  {}

  /** Filling in the bits below the leading ones. */
  lemma {:induction false} OrOnes(y: nat, l: nat, k: nat)
    requires TopOnes(y, l, k)
    ensures Or(y, Pow2(l - k) - 1) == Pow2(l) - 1
    decreases l
  {
    if k < l {
      TopHalf(y, l, k);
      OrOnes(y / 2, l - 1, k);
      OrOdd(y, Pow2(l - 1 - k));
    }
  }

  /** Shifting right drops low bits and keeps the leading ones. */
  lemma {:induction false} ShiftTop(y: nat, l: nat, k: nat, s: nat)
    requires TopOnes(y, l, k) && s <= l
    ensures TopOnes(ShiftRight(y, s), l - s, if k <= l - s then k else l - s)
    decreases s
  {
    if s > 0 {
      ShiftTop(y / 2, l - 1, if k < l then k else l - 1, s - 1);
    }
  }

  lemma {:induction false} ShiftOut(y: nat, l: nat, s: nat)
    requires y < Pow2(l) && l <= s
    ensures ShiftRight(y, s) == 0
    decreases s
  {
    if s > 0 {
      ShiftOut(y / 2, if l > 0 then l - 1 else 0, s - 1);
    }
  }

  lemma {:induction false} ShiftHalf(y: nat, s: nat)
    ensures ShiftRight(y, s) / 2 == ShiftRight(y / 2, s)
  {
    if s > 0 {
      ShiftHalf(y / 2, s - 1);
    }
  }

  /** One line of kroundup32 doubles the number of leading ones. */
  lemma {:induction false} Smear(y: nat, l: nat, k: nat)
    requires TopOnes(y, l, k) && k > 0
    ensures TopOnes(Or(y, ShiftRight(y, k)), l, if 2 * k <= l then 2 * k else l)
    decreases l
  {
    if l <= 2 * k {
      ShiftTop(y, l, k, k);
      assert Pow2(0) == 1;
      assert ShiftRight(y, k) == Pow2(l - k) - 1;
      OrOnes(y, l, k);
    } else {
      Smear(y / 2, l - 1, k);
      ShiftHalf(y, k);
    }
  }

  /** The shift-and-or lines of kroundup32, for the shifts s, 2s, 4s, ... below 32. */
  function SmearWord(y: nat, s: nat): nat
    decreases 32 - s
  {
    if s == 0 || s >= 32 then y else SmearWord(Or(y, ShiftRight(y, s)), 2 * s)
  }

  lemma {:induction false} SmearAll(y: nat, l: nat, s: nat)
    requires l <= 32 && s > 0 && TopOnes(y, l, if s <= l then s else l)
    ensures SmearWord(y, s) == Pow2(l) - 1
    decreases 32 - s
  {
    if s >= 32 {
      assert Pow2(0) == 1;
    } else {
      if s <= l {
        Smear(y, l, s);
      } else {
        ShiftOut(y, l, s);
      }
      SmearAll(Or(y, ShiftRight(y, s)), l, 2 * s);
    }
  }

  /** kroundup32, in the 32-bit arithmetic it is written for. */
  function RoundUp32(n: nat): nat {
    (SmearWord((n + UINT32 - 1) % UINT32, 1) + 1) % UINT32
  }

  ghost function BitLength(y: nat): (l: nat)
    ensures y < Pow2(l)
    ensures y == 0 ==> l == 0
    ensures y > 0 ==> l > 0 && Pow2(l - 1) <= y
  {
    if y == 0 then 0 else BitLength(y / 2) + 1
  }

  lemma {:induction false} PowersOfTwo()
    ensures Pow2(1) == 2 && Pow2(2) == 4 && Pow2(4) == 16 && Pow2(8) == 256
    ensures Pow2(16) == 65536 && Pow2(31) == 0x8000_0000 && Pow2(32) == UINT32
  {
    assert Pow2(4) == 2 * 2 * Pow2(2);
    Pow2Add(4, 4);
    Pow2Add(8, 8);
    Pow2Add(16, 16);
    assert Pow2(32) == 2 * Pow2(31);
  }

  lemma LengthAtMost(y: nat, l: nat)
    requires 0 < l && Pow2(l - 1) <= y < 0x8000_0000
    ensures l <= 31 && Pow2(l) <= 0x8000_0000
    ensures Pow2(l) == 2 * Pow2(l - 1)
  {
    PowersOfTwo();
    if l > 31 { Pow2Monotone(31, l - 1); }
    Pow2Monotone(l, 31);
  }

  lemma RoundUpOf(n: nat, l: nat)
    requires 0 < n <= 0x8000_0000 && SmearWord(n - 1, 1) == Pow2(l) - 1 && Pow2(l) <= 0x8000_0000
    ensures RoundUp32(n) == Pow2(l)
  {
    ModUnique(UINT32, n + UINT32 - 1, 1, n - 1);
    ModUnique(UINT32, Pow2(l), 0, Pow2(l));
  }

  /** For 1 <= n <= 2^31 the macro yields the least power of two that is at least n. */
  lemma RoundUpIsLeast(n: nat)
    requires 0 < n <= 0x8000_0000
    ensures IsPow2(RoundUp32(n))
    ensures RoundUp32(n) / 2 < n <= RoundUp32(n) <= 0x8000_0000
  {
    assert Pow2(0) == 1;
    var l := BitLength(n - 1);
    if n > 1 {
      LengthAtMost(n - 1, l);
    }
    SmearAll(n - 1, l, 1);
    RoundUpOf(n, l);
  }

  /** Outside that range it wraps around to zero. */
  lemma RoundUpWraps(n: nat)
    requires n == 0 || 0x8000_0000 < n < UINT32
    ensures RoundUp32(n) == 0
  {
    PowersOfTwo();
    var x := if n == 0 then UINT32 - 1 else n - 1;
    ModUnique(UINT32, n + UINT32 - 1, if n == 0 then 0 else 1, x);
    SmearAll(x, 32, 1);
  }

  // ----- single bits -----

  /** Bit j of a word, the lowest being bit 0. */
  function Bit(w: nat, j: nat): bool {
    if j == 0 then w % 2 == 1 else Bit(w / 2, j - 1)
  }

  lemma {:induction false} BitOr(v: nat, w: nat, j: nat)
    ensures Bit(Or(v, w), j) == (Bit(v, j) || Bit(w, j))
  {
    if v == 0 || w == 0 {
      BitZero(j);
    } else if j > 0 {
      BitOr(v / 2, w / 2, j - 1);
    }
  }

  lemma {:induction false} BitAndNot(v: nat, w: nat, j: nat)
    ensures Bit(AndNot(v, w), j) == (Bit(v, j) && !Bit(w, j))
  {
    if v == 0 {
      BitZero(j);
    } else if j > 0 {
      BitAndNot(v / 2, w / 2, j - 1);
    }
  }

  lemma {:induction false} BitZero(j: nat)
    ensures !Bit(0, j)
  {
    if j > 0 {
      BitZero(j - 1);
    }
  }

  /** 1 << i has one bit set. */
  lemma {:induction false} BitOne(i: nat, j: nat)
    ensures Bit(Pow2(i), j) == (i == j)
  {
    if j > 0 {
      if i > 0 {
        BitOne(i - 1, j - 1);
      } else {
        BitZero(j - 1);
      }
    }
  }

  /** Testing a bit by masking. */
  lemma {:induction false} AndBit(w: nat, j: nat)
    ensures And(w, Pow2(j)) == 0 <==> !Bit(w, j)
  {
    if w == 0 {
      BitZero(j);
    } else if j > 0 {
      AndBit(w / 2, j - 1);
    } else {
      assert And(w / 2, 0) == 0;
    }
  }

  /** The largest number of n bits has them all set. */
  lemma {:induction false} AllBits(n: nat, j: nat)
    requires j < n
    ensures Bit(Pow2(n) - 1, j)
  {
    assert Pow2(n) - 1 == 2 * (Pow2(n - 1) - 1) + 1;
    if j > 0 {
      AllBits(n - 1, j - 1);
    }
  }

  /** Any smaller number has one of them clear. */
  lemma {:induction false} SomeBitClear(w: nat, n: nat) returns (j: nat)
    requires w < Pow2(n) - 1
    ensures j < n && !Bit(w, j)
  {
    if w % 2 == 0 {
      j := 0;
    } else {
      assert Pow2(n) == 2 * Pow2(n - 1);
      j := SomeBitClear(w / 2, n - 1);
      j := j + 1;
    }
  }

  lemma {:induction false} OrFits(v: nat, w: nat, n: nat)
    requires v < Pow2(n) && w < Pow2(n)
    ensures Or(v, w) < Pow2(n)
    decreases n
  {
    if n > 0 && v > 0 && w > 0 {
      OrFits(v / 2, w / 2, n - 1);
    }
  }
}
