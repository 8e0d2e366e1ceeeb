/** The clock algorithm on an array of reference bits and the index of the hand. */
module ClockSpec {
  import opened Circles

  /** How far from i the sweep goes: to the first clear bit, or once around. */
  function Distance(bits: seq<bool>, i: nat, d: nat): (r: nat)
    requires i < |bits| && d <= |bits|
    requires forall e | 0 <= e < d :: bits[At(i, e, |bits|)]
    ensures d <= r <= |bits|
    ensures forall e | 0 <= e < r :: bits[At(i, e, |bits|)]
    ensures r < |bits| ==> !bits[At(i, r, |bits|)]
    decreases |bits| - d
  {
    if d == |bits| || !bits[At(i, d, |bits|)] then d else Distance(bits, i, d + 1)
  }

  /** The bits with the d first from i on cleared. */
  function Cleared(bits: seq<bool>, i: nat, d: nat): (r: seq<bool>)
    requires i < |bits| && d <= |bits|
    ensures |r| == |bits|
  {
    if d == 0 then bits else Cleared(bits, i, d - 1)[At(i, d - 1, |bits|) := false]
  }

  /** The frame evicted by a sweep that starts at i. */
  function Victim(bits: seq<bool>, i: nat): (v: nat)
    requires i < |bits|
    ensures v < |bits|
  {
    At(i, Distance(bits, i, 0), |bits|)
  }

  /** The bits it leaves. */
  function After(bits: seq<bool>, i: nat): (r: seq<bool>)
    requires i < |bits|
    ensures |r| == |bits|
  {
    Cleared(bits, i, Distance(bits, i, 0))
  }

  /** A cleared bit is one the sweep passed; no other bit changes. */
  lemma {:induction false} ClearedAt(bits: seq<bool>, i: nat, d: nat, j: nat)
    requires i < |bits| && d <= |bits| && j < |bits|
    ensures Cleared(bits, i, d)[j] == (bits[j] && !exists e :: 0 <= e < d && At(i, e, |bits|) == j)
  {
    if d > 0 {
      ClearedAt(bits, i, d - 1, j);
      if At(i, d - 1, |bits|) != j && exists e :: 0 <= e < d && At(i, e, |bits|) == j {
        var e :| 0 <= e < d && At(i, e, |bits|) == j;
        assert e < d - 1;
      }
    }
  }

  lemma Around(bits: seq<bool>, i: nat, j: nat)
    requires i < |bits| && j < |bits|
    ensures exists e :: 0 <= e < |bits| && At(i, e, |bits|) == j
  {
    var e := if i <= j then j - i else j + |bits| - i;
    assert At(i, e, |bits|) == j;
  }

  /**
   * The second chance: the victim is the first unreferenced frame from i on, or frame i when all
   * are referenced; exactly the bits of the frames passed over are cleared, at most one round of
   * them, and the victim's own bit is clear afterwards.
   */
  lemma SecondChance(bits: seq<bool>, i: nat)
    requires i < |bits|
    ensures var v, r, d := Victim(bits, i), After(bits, i), Distance(bits, i, 0);
            && (if exists j :: 0 <= j < |bits| && !bits[j] then d < |bits| && !bits[v] else d == |bits| && v == i)
            && (forall e | 0 <= e < d :: bits[At(i, e, |bits|)])
            && (forall j | 0 <= j < |bits| :: r[j] == (bits[j] && !exists e :: 0 <= e < d && At(i, e, |bits|) == j))
            && !r[v]
  {
    var v, r, d := Victim(bits, i), After(bits, i), Distance(bits, i, 0);
    if j :| 0 <= j < |bits| && !bits[j] {
      Around(bits, i, j);
    }
    forall j | 0 <= j < |bits|
      ensures r[j] == (bits[j] && !exists e :: 0 <= e < d && At(i, e, |bits|) == j)
    {
      ClearedAt(bits, i, d, j);
    }
    if d == |bits| {
      Around(bits, i, v);
    }
  }
}
