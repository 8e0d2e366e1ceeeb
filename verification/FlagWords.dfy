/** Two flag bits a bucket, sixteen buckets a word: the __ac_* macros of khash.h. */
module FlagWords {
  import opened Powers
  import opened Words
  import opened HashLayout

  const ALL_EMPTY: nat := 0xAAAA_AAAA // four bytes of memset 0xaa

  /** The position of the deleted bit of bucket i; the empty bit is the next higher. */
  function Shift(i: nat): nat {
    i % 16 * 2
  }

  function Decode(w: nat, i: nat): Flag {
    Flag(Bit(w, Shift(i) + 1), Bit(w, Shift(i)))
  }

  function SetIsDelTrue(w: nat, i: nat): nat {
    Or(w, Pow2(Shift(i)))
  }

  function SetIsEmptyFalse(w: nat, i: nat): nat {
    AndNot(w, 2 * Pow2(Shift(i)))
  }

  function SetIsBothFalse(w: nat, i: nat): nat {
    AndNot(w, 3 * Pow2(Shift(i)))
  }

  /** 3 << i has two. */
  lemma {:induction false} BitThree(i: nat, j: nat)
    ensures Bit(3 * Pow2(i), j) == (i == j || i + 1 == j)
  {
    if j > 0 {
      if i > 0 {
        BitThree(i - 1, j - 1);
      } else {
        BitOne(0, j - 1);
      }
    }
  }

  /** Each macro changes the bits of its own bucket as its name says, and of no other bucket. */
  lemma MacrosLocal(w: nat, i: nat, k: nat)
    ensures Decode(SetIsDelTrue(w, i), k) == if i % 16 == k % 16 then Decode(w, k).(deleted := true) else Decode(w, k)
    ensures Decode(SetIsEmptyFalse(w, i), k) == if i % 16 == k % 16 then Decode(w, k).(empty := false) else Decode(w, k)
    ensures Decode(SetIsBothFalse(w, i), k) == if i % 16 == k % 16 then LIVE else Decode(w, k)
  {
    var s := Shift(i);
    assert 2 * Pow2(s) == Pow2(s + 1);
    forall t | t == Shift(k) || t == Shift(k) + 1
      ensures Bit(SetIsDelTrue(w, i), t) == (Bit(w, t) || t == s)
      ensures Bit(SetIsEmptyFalse(w, i), t) == (Bit(w, t) && t != s + 1)
      ensures Bit(SetIsBothFalse(w, i), t) == (Bit(w, t) && t != s && t != s + 1)
    {
      BitOr(w, Pow2(s), t);
      BitOne(s, t);
      BitAndNot(w, Pow2(s + 1), t);
      BitOne(s + 1, t);
      BitAndNot(w, 3 * Pow2(s), t);
      BitThree(s, t);
    }
  }

  /** The word whose lowest m bit pairs are 10. */
  function Pairs(m: nat): nat {
    if m == 0 then 0 else 4 * Pairs(m - 1) + 2
  }

  lemma {:induction false} PairsDecode(m: nat, j: nat)
    requires j < m
    ensures Bit(Pairs(m), 2 * j + 1) && !Bit(Pairs(m), 2 * j)
  {
    if j > 0 {
      PairsDecode(m - 1, j - 1);
      assert Pairs(m) / 2 / 2 == Pairs(m - 1);
    }
  }

  lemma AllEmptyDecodes(i: nat)
    ensures Decode(ALL_EMPTY, i) == EMPTY
  {
    assert Pairs(4) == 0xAA && Pairs(8) == 0xAAAA && Pairs(12) == 0xAA_AAAA;
    assert Pairs(16) == ALL_EMPTY;
    PairsDecode(16, i % 16);
  }

  /** The flags of n buckets, unpacked. */
  ghost function Unpack(words: seq<nat>, n: nat): (flags: seq<Flag>)
    requires n <= 16 * |words|
    ensures |flags| == n
    ensures forall i | 0 <= i < n :: flags[i] == Decode(words[i / 16], i)
  {
    seq(n, i requires 0 <= i < n => Decode(words[i / 16], i))
  }

  /** Reading one bucket's flags. */
  function FlagAt(words: array<nat>, i: nat): Flag
    requires i < 16 * words.Length
    reads words
  {
    Decode(words[i / 16], i)
  }

  lemma UnpackSetIsDelTrue(words: seq<nat>, n: nat, i: nat)
    requires i < n <= 16 * |words|
    ensures Unpack(words[i / 16 := SetIsDelTrue(words[i / 16], i)], n)
         == Unpack(words, n)[i := Unpack(words, n)[i].(deleted := true)]
  {
    forall k | 0 <= k < n && k / 16 == i / 16
      ensures Decode(SetIsDelTrue(words[i / 16], i), k)
           == Unpack(words, n)[i := Unpack(words, n)[i].(deleted := true)][k]
    {
      MacrosLocal(words[i / 16], i, k);
    }
  }

  lemma UnpackSetIsEmptyFalse(words: seq<nat>, n: nat, i: nat)
    requires i < n <= 16 * |words|
    ensures Unpack(words[i / 16 := SetIsEmptyFalse(words[i / 16], i)], n)
         == Unpack(words, n)[i := Unpack(words, n)[i].(empty := false)]
  {
    forall k | 0 <= k < n && k / 16 == i / 16
      ensures Decode(SetIsEmptyFalse(words[i / 16], i), k)
           == Unpack(words, n)[i := Unpack(words, n)[i].(empty := false)][k]
    {
      MacrosLocal(words[i / 16], i, k);
    }
  }

  lemma UnpackSetIsBothFalse(words: seq<nat>, n: nat, i: nat)
    requires i < n <= 16 * |words|
    ensures Unpack(words[i / 16 := SetIsBothFalse(words[i / 16], i)], n) == Unpack(words, n)[i := LIVE]
  {
    forall k | 0 <= k < n && k / 16 == i / 16
      ensures Decode(SetIsBothFalse(words[i / 16], i), k) == Unpack(words, n)[i := LIVE][k]
    {
      MacrosLocal(words[i / 16], i, k);
    }
  }

  /** Words of memset 0xaa are empty buckets. */
  lemma UnpackAllEmpty(words: seq<nat>, n: nat)
    requires n <= 16 * |words|
    requires forall j | 0 <= j < |words| :: words[j] == ALL_EMPTY
    ensures AllEmpty(Unpack(words, n))
  {
    forall i | 0 <= i < n
      ensures Unpack(words, n)[i] == EMPTY
    {
      AllEmptyDecodes(i);
    }
  }

  /** __ac_set_isdel_true, on the words in place. */
  method MarkDeleted(words: array<nat>, ghost n: nat, i: nat)
    requires i < n <= 16 * words.Length
    modifies words
    ensures Unpack(words[..], n) == old(Unpack(words[..], n))[i := old(Unpack(words[..], n))[i].(deleted := true)]
  {
    UnpackSetIsDelTrue(words[..], n, i);
    ghost var before := words[..];
    words[i / 16] := SetIsDelTrue(words[i / 16], i);
    assert words[..] == before[i / 16 := SetIsDelTrue(before[i / 16], i)];
  }

  /** __ac_set_isempty_false, on the words in place. */
  method MarkNotEmpty(words: array<nat>, ghost n: nat, i: nat)
    requires i < n <= 16 * words.Length
    modifies words
    ensures Unpack(words[..], n) == old(Unpack(words[..], n))[i := old(Unpack(words[..], n))[i].(empty := false)]
  {
    UnpackSetIsEmptyFalse(words[..], n, i);
    ghost var before := words[..];
    words[i / 16] := SetIsEmptyFalse(words[i / 16], i);
    assert words[..] == before[i / 16 := SetIsEmptyFalse(before[i / 16], i)];
  }

  /** __ac_set_isboth_false, on the words in place. */
  method MarkLive(words: array<nat>, ghost n: nat, i: nat)
    requires i < n <= 16 * words.Length
    modifies words
    ensures Unpack(words[..], n) == old(Unpack(words[..], n))[i := LIVE]
  {
    UnpackSetIsBothFalse(words[..], n, i);
    ghost var before := words[..];
    words[i / 16] := SetIsBothFalse(words[i / 16], i);
    assert words[..] == before[i / 16 := SetIsBothFalse(before[i / 16], i)];
  }

  /** kmalloc and memset 0xaa of __ac_fsize(n) words: n empty buckets. */
  method NewFlags(n: nat) returns (words: array<nat>)
    requires n < 16 || n % 16 == 0
    ensures fresh(words) && n <= 16 * words.Length
    ensures AllEmpty(Unpack(words[..], n))
  {
    words := new nat[if n < 16 then 1 else n / 16](_ => ALL_EMPTY);
    UnpackAllEmpty(words[..], n);
  }
}
