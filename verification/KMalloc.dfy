/** The tracking allocator of csc369_kmalloc.c over the hash table of khash.h. */
module KMalloc {
  import opened HashLayout
  import opened Ledger
  import opened Seals
  import H = KHash

  const NULL: nat := 0

  /** What CSC369_free finds; for a pointer it does not know it leaves the decision to free(). */
  datatype FreeResult = IgnoredNull | NotInMap | FreedBefore | AssertionFailed | Freed

  class KMalloc {
    var numMallocs: int
    var numFrees: int
    var bytesMalloced: int
    var bytesFreed: int
    const mallocMap: H.KHash<nat, nat>

    ghost function Recorded(): Books
      reads this, mallocMap
    {
      Books(numMallocs, numFrees, bytesMalloced, bytesFreed, mallocMap.contents)
    }

    ghost predicate Valid()
      reads this, mallocMap, mallocMap.flags, mallocMap.keys, mallocMap.vals
    {
      mallocMap.Valid() && Balanced(Recorded())
    }

    /** CSC369_MallocInit. */
    constructor (hash: nat -> nat)
      ensures IsEmpty(Recorded()) && Valid()
      ensures fresh(mallocMap) && fresh(mallocMap.flags) && fresh(mallocMap.keys) && fresh(mallocMap.vals)
    {
      mallocMap := new H.KHash(hash);
      numMallocs, numFrees, bytesMalloced, bytesFreed := 0, 0, 0, 0;
      new;
      assert IsEmpty(Recorded()) && mallocMap.Valid();
      EmptyBalanced(Recorded());
    }

    /** The table is at its load limit and cannot be cleaned up, or doubled, for want of memory. */
    predicate TableRefused(memory: H.Memory)
      reads mallocMap
    {
      && mallocMap.nOccupied >= mallocMap.upperBound
      && if mallocMap.nBuckets > 2 * mallocMap.size then !memory.flags
         else mallocMap.nBuckets != 0x8000_0000 && !(memory.flags && memory.keys && memory.vals)
    }

    /**
     * kh_put and kh_value: the pointer's size is recorded, or the table had no memory to do so. Once
     * there are 2^31 entries the size of a new pointer is recorded for another one.
     */
    method Track(p: nat, size: nat, memory: H.Memory) returns (ok: bool, ghost q: nat)
      requires mallocMap.Valid()
      modifies mallocMap, mallocMap.flags, mallocMap.keys, mallocMap.vals
      ensures mallocMap.Valid() && mallocMap.FreshArrays()
      ensures ok <==> !old(TableRefused(memory))
      ensures ok ==> mallocMap.contents == old(mallocMap.contents)[q := size]
      ensures ok ==> (q == p <==> p in old(mallocMap.contents) || old(mallocMap.size) < LARGEST)
    {
      var k, ret := mallocMap.Put(p, memory);
      if ret < 0 {
        return false, p; // assert(ret >= 0)
      }
      q := mallocMap.keys[k];
      mallocMap.SetValue(k, size);
      ok := true;
    }

    /** The bookkeeping of CSC369_malloc. */
    method Enter(p: nat, size: nat, memory: H.Memory) returns (ok: bool)
      requires mallocMap.Valid()
      modifies this, mallocMap, mallocMap.flags, mallocMap.keys, mallocMap.vals
      ensures mallocMap.Valid() && mallocMap.FreshArrays()
      ensures ok <==> !old(TableRefused(memory))
      ensures ok && (p in old(mallocMap.contents) || old(mallocMap.size) < LARGEST) ==>
                Recorded() == Record(old(Recorded()), p, size)
    {
      numMallocs := numMallocs + 1;
      bytesMalloced := bytesMalloced + size;
      ghost var q;
      ok, q := Track(p, size, memory);
    }

    /**
     * CSC369_malloc, given what the C library answers: p, or NULL. It grants the request exactly if p
     * is not NULL, it is for less than 2 GB and all requests so far add up to no more. It aborts exactly
     * when the table finds no memory for a request granted; otherwise its books are the ledger's, unless
     * the table has 2^31 entries and none for p.
     */
    method Malloc(size: nat, p: nat, memory: H.Memory) returns (m: nat, aborted: bool)
      requires Valid() && !Outstanding(Recorded(), p)
      modifies this, mallocMap, mallocMap.flags, mallocMap.keys, mallocMap.vals
      ensures mallocMap.Valid() && mallocMap.FreshArrays()
      ensures aborted <==> size < 0x8000_0000 && old(bytesMalloced) + size <= 0x8000_0000 && p != NULL
                           && old(TableRefused(memory))
      ensures !aborted ==> m == if size < 0x8000_0000 && old(bytesMalloced) + size <= 0x8000_0000 then p else NULL
      ensures !aborted && (p in old(mallocMap.contents) || old(mallocMap.size) < LARGEST) ==>
                Valid() && Recorded() == Apply(old(Recorded()), Operation.Malloc(p, size))
    {
      if size >= MAX || bytesMalloced + size > MAX {
        return NULL, false;
      }
      if p == NULL {
        return NULL, false;
      }
      RecordConserved(Recorded(), p, size);
      var ok := Enter(p, size, memory);
      return if ok then p else NULL, !ok;
    }

    /** The size recorded for a pointer: kh_get and kh_value. */
    method Lookup(p: nat) returns (k: nat, found: bool, size: nat)
      requires mallocMap.Valid()
      ensures found <==> p in mallocMap.contents
      ensures found ==> k < mallocMap.nBuckets && HashLayout.Live(mallocMap.Flags()[k]) && mallocMap.keys[k] == p
      ensures found ==> size == mallocMap.contents[p]
    {
      k := mallocMap.Get(p);
      found := k != mallocMap.nBuckets;
      size := 0;
      if found {
        size := mallocMap.vals[k];
      }
    }

    /** CSC369_free. */
    method Free(p: nat) returns (r: FreeResult)
      requires Valid() && (p == NULL ==> p !in mallocMap.contents)
      modifies this, mallocMap, mallocMap.vals
      ensures Valid() && mallocMap.FreshArrays()
      ensures Recorded() == Apply(old(Recorded()), Operation.Free(p))
      ensures r.IgnoredNull? <==> p == NULL
      ensures r.NotInMap? <==> p != NULL && p !in old(mallocMap.contents)
      ensures r.FreedBefore? <==> p in old(mallocMap.contents) && !Outstanding(old(Recorded()), p)
      ensures r.AssertionFailed? <==> Outstanding(old(Recorded()), p) && old(mallocMap.contents)[p] == 0
      ensures r.Freed? <==> Outstanding(old(Recorded()), p) && old(mallocMap.contents)[p] != 0
    {
      if p == NULL {
        return IgnoredNull;
      }
      var k, found, size := Lookup(p);
      if !found {
        return NotInMap;
      }
      if IsFreed(size) {
        return FreedBefore;
      }
      if size == 0 {
        return AssertionFailed;
      }
      ghost var before := Recorded();
      ReleaseConserved(before, p);
      assert size < 0x7FFF_FFFF_FFFF_FFFF;
      assert numMallocs - numFrees > 0;
      numFrees := numFrees + 1;
      assert bytesMalloced - bytesFreed >= size;
      bytesFreed := bytesFreed + size;
      mallocMap.SetValue(k, MarkFreed(size));
      assert Recorded() == Release(before, p);
      return Freed;
    }

    /** One call of the allocator, and its answer; with a table that can still grow the books change as the ledger's. */
    method Call(op: Operation, memory: H.Memory) returns (m: nat, aborted: bool)
      requires Valid() && 0 !in mallocMap.contents && (op.Malloc? ==> !Outstanding(Recorded(), op.ptr))
      requires |mallocMap.contents| < LARGEST
      modifies this, mallocMap, mallocMap.flags, mallocMap.keys, mallocMap.vals
      ensures mallocMap.Valid() && mallocMap.FreshArrays()
      ensures aborted ==> op.Malloc? && memory != H.Memory(true, true, true)
      ensures !aborted ==>
                && Valid() && Recorded() == Apply(old(Recorded()), op) && 0 !in mallocMap.contents
                && |mallocMap.contents| <= |old(mallocMap.contents)| + 1
      ensures !aborted && op.Malloc? && op.size < 0x8000_0000 && old(bytesMalloced) + op.size <= 0x8000_0000 ==>
                m == op.ptr
    {
      mallocMap.Load();
      EntriesAfter(Recorded(), op);
      m, aborted := NULL, false;
      match op {
        case Malloc(p, size) =>
          m, aborted := Malloc(size, p, memory);
        case Free(p) =>
          var r := Free(p);
      }
    }

    /** Requests that cannot reach 2 GB are answered with what the C library gave. */
    static ghost predicate Answered(ops: seq<Operation>, answers: seq<nat>, within: bool) {
      && |answers| <= |ops|
      && (within && Sensible(ops) ==> forall i | 0 <= i < |answers| && ops[i].Malloc? :: answers[i] == ops[i].ptr)
    }

    static lemma AnsweredNext(ops: seq<Operation>, answers: seq<nat>, m: nat, within: bool)
      requires Answered(ops, answers, within) && |answers| < |ops|
      requires within && ops[|answers|].Malloc? && ops[|answers|].size < 0x8000_0000 ==> m == ops[|answers|].ptr
      ensures Answered(ops, answers + [m], within)
    {}

    /** The calls from i on lead from these books to the last ones, their requests reaching 2 GB or not. */
    static ghost predicate Pending(seal: nat, b: Books, ops: seq<Operation>, i: nat, last: Books, within: bool)
      requires i <= |ops|
    {
      if seal == 0 then
        && Plausible(b, ops[i..]) && Run(b, ops[i..]) == last
        && (within ==> b.bytesMalloced + Requested(ops[i..]) <= 0x8000_0000)
      else Pending(seal - 1, b, ops, i, last, within)
    }

    static lemma {:induction false} BreakPending(seal: nat, b: Books, ops: seq<Operation>, i: nat, last: Books,
        within: bool)
      requires i <= |ops|
      ensures Pending(seal, b, ops, i, last, within) == Pending(0, b, ops, i, last, within)
    {
      if seal > 0 {
        BreakPending(seal - 1, b, ops, i, last, within);
      }
    }

    /** The first of them. */
    static lemma PendingNext(b: Books, ops: seq<Operation>, i: nat, last: Books, within: bool)
      requires i < |ops| && Pending(SEAL, b, ops, i, last, within)
      ensures ops[i].Malloc? ==> !Outstanding(b, ops[i].ptr)
      ensures within && ops[i].Malloc? ==> b.bytesMalloced + ops[i].size <= 0x8000_0000
      ensures Pending(SEAL, Apply(b, ops[i]), ops, i + 1, last, within)
    {
      BreakPending(SEAL, b, ops, i, last, within);
      BreakPending(SEAL, Apply(b, ops[i]), ops, i + 1, last, within);
      RunFirst(b, ops, i);
    }

    /** The call at i of those left. */
    method Next(ops: seq<Operation>, i: nat, memory: H.Memory, ghost last: Books, ghost within: bool)
      returns (m: nat, aborted: bool)
      requires Valid() && 0 !in mallocMap.contents && i < |ops| && Pending(SEAL, Recorded(), ops, i, last, within)
      requires |mallocMap.contents| < LARGEST
      modifies this, mallocMap, mallocMap.flags, mallocMap.keys, mallocMap.vals
      ensures mallocMap.Valid() && mallocMap.FreshArrays()
      ensures aborted ==> ops[i].Malloc? && memory != H.Memory(true, true, true)
      ensures !aborted ==>
                && Valid() && 0 !in mallocMap.contents && |mallocMap.contents| <= |old(mallocMap.contents)| + 1
                && Pending(SEAL, Recorded(), ops, i + 1, last, within)
      ensures !aborted && within && ops[i].Malloc? && ops[i].size < 0x8000_0000 ==> m == ops[i].ptr
    {
      PendingNext(Recorded(), ops, i, last, within);
      m, aborted := Call(ops[i], memory);
    }

    /** The calls one after another, until one aborts. */
    method Calls(ops: seq<Operation>, memory: seq<H.Memory>, ghost last: Books, ghost within: bool)
      returns (answers: seq<nat>)
      requires Valid() && 0 !in mallocMap.contents && |memory| == |ops|
      requires Pending(SEAL, Recorded(), ops, 0, last, within)
      requires |mallocMap.contents| + |ops| <= LARGEST
      modifies this, mallocMap, mallocMap.flags, mallocMap.keys, mallocMap.vals
      ensures mallocMap.Valid() && Answered(ops, answers, within)
      ensures |answers| == |ops| ==> Valid() && Pending(SEAL, Recorded(), ops, |ops|, last, within)
      ensures |answers| < |ops| ==> ops[|answers|].Malloc? && memory[|answers|] != H.Memory(true, true, true)
    {
      answers := [];
      while |answers| < |ops|
        invariant Answered(ops, answers, within) && Valid() && 0 !in mallocMap.contents
        invariant |mallocMap.contents| + |ops| - |answers| <= LARGEST
        invariant Pending(SEAL, Recorded(), ops, |answers|, last, within)
        invariant mallocMap.FreshArrays()
      {
        var m, aborted := Next(ops, |answers|, memory[|answers|], last, within);
        if aborted {
          return;
        }
        AnsweredNext(ops, answers, m, within);
        answers := answers + [m];
      }
    }

    /**
     * Any sequence of calls: the books end as the ledger's do, unless a call of malloc aborts for
     * want of memory for the table; answers are those of the calls that returned. Requests for less
     * than 2 GB each and no more than that together are all granted.
     */
    method Replay(ops: seq<Operation>, memory: seq<H.Memory>) returns (answers: seq<nat>)
      requires Valid() && 0 !in mallocMap.contents && |memory| == |ops|
      requires Plausible(Recorded(), ops) && |mallocMap.contents| + |ops| <= LARGEST
      modifies this, mallocMap, mallocMap.flags, mallocMap.keys, mallocMap.vals
      ensures mallocMap.Valid() && |answers| <= |ops|
      ensures |answers| == |ops| ==> Valid() && Recorded() == Run(old(Recorded()), ops)
      ensures |answers| < |ops| ==> ops[|answers|].Malloc? && memory[|answers|] != H.Memory(true, true, true)
      ensures Sensible(ops) && old(bytesMalloced) + Requested(ops) <= 0x8000_0000 ==>
                forall i | 0 <= i < |answers| && ops[i].Malloc? :: answers[i] == ops[i].ptr
    {
      ghost var last, within := Run(Recorded(), ops), bytesMalloced + Requested(ops) <= 0x8000_0000;
      assert ops[0..] == ops;
      BreakPending(SEAL, Recorded(), ops, 0, last, within);
      answers := Calls(ops, memory, last, within);
      BreakPending(SEAL, Recorded(), ops, |ops|, last, within);
    }

    /** CSC369_MallocCurrentBytes: its assertion holds. */
    method CurrentBytes() returns (n: int)
      requires Valid()
      ensures n == Total(mallocMap.contents, OutstandingPointers(mallocMap.contents))
    {
      assert bytesMalloced >= bytesFreed;
      return bytesMalloced - bytesFreed;
    }

    /** CSC369_MallocCurrentCount: its assertion holds. */
    method CurrentCount() returns (n: int)
      requires Valid()
      ensures n == |OutstandingPointers(mallocMap.contents)|
    {
      assert numMallocs >= numFrees;
      return numMallocs - numFrees;
    }

    /** CSC369_MallocIsLeakFree: with no tolerance, every pointer recorded has been freed. */
    method IsLeakFree(countTolerance: int, bytesTolerance: int) returns (ok: bool)
      requires Valid()
      ensures ok <==> (Total(mallocMap.contents, OutstandingPointers(mallocMap.contents)) <= bytesTolerance
                       && |OutstandingPointers(mallocMap.contents)| <= countTolerance)
      ensures countTolerance == 0 <= bytesTolerance ==>
                (ok <==> forall p | p in mallocMap.contents :: IsFreed(mallocMap.contents[p]))
    {
      BalancesZero(Recorded());
      var bytes := CurrentBytes();
      var count := CurrentCount();
      if bytes > bytesTolerance || count > countTolerance {
        ok := false;
      } else {
        ok := true;
      }
    }
  }
}
