/**
 * The books csc369_kmalloc.c keeps: four counters and a map from each pointer ever returned to
 * its size, whose top bit is set once the pointer has been freed.
 */
module Ledger {
  import opened Powers
  import opened Words
  import opened Seals

  const GB: nat := 1024 * 1024 * 1024
  const MAX: nat := 2 * GB
  const FREED: nat := 0x8000_0000_0000_0000

  datatype Books = Books(mallocs: int, frees: int, bytesMalloced: int, bytesFreed: int, sizes: map<nat, nat>)

  /** The books after CSC369_MallocInit. */
  predicate IsEmpty(b: Books) {
    b == Books(0, 0, 0, 0, map[])
  }

  predicate IsFreed(size: nat) {
    And(size, FREED) != 0
  }

  /** Freeing sets the top bit of a recorded size. */
  function MarkFreed(size: nat): nat {
    Or(size, FREED)
  }

  lemma {:induction false} HighBit(v: nat, k: nat)
    requires v < Pow2(k)
    ensures And(v, Pow2(k)) == 0
    ensures Or(v, Pow2(k)) == v + Pow2(k)
    ensures And(v + Pow2(k), Pow2(k)) == Pow2(k)
  {
    if k > 0 {
      HighBit(v / 2, k - 1);
      assert (v + Pow2(k)) / 2 == v / 2 + Pow2(k - 1);
    } else {
      assert And(1, 1) == 1;
    }
  }

  lemma FreedIsBit63()
    ensures FREED == Pow2(63)
  {
    PowersOfTwo();
    Pow2Add(31, 32);
  }

  /** A size below the bit is not freed, and marking it makes it so. */
  lemma FreedBit(size: nat)
    requires size < FREED
    ensures !IsFreed(size) && IsFreed(MarkFreed(size)) && MarkFreed(size) == size + FREED
  {
    FreedIsBit63();
    HighBit(size, 63);
  }

  // ----- the two operations -----

  /** The request would break the cap of CSC369_malloc. */
  predicate OverCap(b: Books, size: nat) {
    size >= MAX || b.bytesMalloced + size > MAX
  }

  /** Recording that the C library returned ptr for a request of size bytes. */
  function Record(b: Books, ptr: nat, size: nat): Books {
    b.(mallocs := b.mallocs + 1, bytesMalloced := b.bytesMalloced + size, sizes := b.sizes[ptr := size])
  }

  predicate Outstanding(b: Books, ptr: nat) {
    ptr in b.sizes && !IsFreed(b.sizes[ptr])
  }

  /** A size with the bit is freed. */
  lemma FreedRange(size: nat)
    requires FREED <= size < 2 * FREED
    ensures IsFreed(size)
  {
    FreedBit(size - FREED);
  }

  /** Recording that an outstanding pointer was freed. */
  function Release(b: Books, ptr: nat): Books
    requires ptr in b.sizes
  {
    b.(frees := b.frees + 1, bytesFreed := b.bytesFreed + b.sizes[ptr],
       sizes := b.sizes[ptr := MarkFreed(b.sizes[ptr])])
  }

  // ----- conservation -----

  ghost function OutstandingPointers(sizes: map<nat, nat>): set<nat> {
    set p | p in sizes && !IsFreed(sizes[p])
  }

  /** The sizes of the given pointers, added up. */
  ghost function Total(sizes: map<nat, nat>, ptrs: set<nat>): nat
    requires ptrs <= sizes.Keys
  {
    if ptrs == {} then 0
    else
      var p :| p in ptrs;
      sizes[p] + Total(sizes, ptrs - {p})
  }

  lemma {:induction false} TotalWithout(sizes: map<nat, nat>, ptrs: set<nat>, p: nat)
    requires ptrs <= sizes.Keys && p in ptrs
    ensures Total(sizes, ptrs) == sizes[p] + Total(sizes, ptrs - {p})
    decreases |ptrs|
  {
    var q :| q in ptrs && Total(sizes, ptrs) == sizes[q] + Total(sizes, ptrs - {q});
    if p != q {
      TotalWithout(sizes, ptrs - {q}, p);
      TotalWithout(sizes, ptrs - {p}, q);
      assert ptrs - {q} - {p} == ptrs - {p} - {q};
    }
  }

  lemma {:induction false} TotalAgrees(sizes: map<nat, nat>, sizes': map<nat, nat>, ptrs: set<nat>)
    requires ptrs <= sizes.Keys && ptrs <= sizes'.Keys
    requires forall p | p in ptrs :: sizes[p] == sizes'[p]
    ensures Total(sizes, ptrs) == Total(sizes', ptrs)
    decreases |ptrs|
  {
    if ptrs != {} {
      var p :| p in ptrs;
      TotalWithout(sizes, ptrs, p);
      TotalWithout(sizes', ptrs, p);
      TotalAgrees(sizes, sizes', ptrs - {p});
    }
  }

  /** The balances are those of the outstanding blocks. */
  ghost predicate Conserved(b: Books) {
    && (forall p | p in b.sizes :: b.sizes[p] < MAX || FREED <= b.sizes[p] < FREED + MAX)
    && b.mallocs - b.frees == |OutstandingPointers(b.sizes)|
    && b.bytesMalloced - b.bytesFreed == Total(b.sizes, OutstandingPointers(b.sizes))
  }

  /** And the cap of CSC369_malloc holds. */
  ghost predicate Balanced(b: Books) {
    Conserved(b) && 0 <= b.bytesMalloced <= MAX
  }

  lemma EmptyBalanced(b: Books)
    requires IsEmpty(b)
    ensures Balanced(b)
  {
    assert OutstandingPointers(b.sizes) == {};
  }

  lemma RecordConserved(b: Books, ptr: nat, size: nat)
    requires Conserved(b) && size < MAX && !Outstanding(b, ptr)
    ensures Conserved(Record(b, ptr, size)) && Outstanding(Record(b, ptr, size), ptr)
    ensures OutstandingPointers(Record(b, ptr, size).sizes) == OutstandingPointers(b.sizes) + {ptr}
  {
    var old', new' := OutstandingPointers(b.sizes), OutstandingPointers(Record(b, ptr, size).sizes);
    FreedBit(size);
    assert new' == old' + {ptr};
    TotalWithout(Record(b, ptr, size).sizes, new', ptr);
    assert new' - {ptr} == old';
    TotalAgrees(b.sizes, Record(b, ptr, size).sizes, old');
  }

  /** Freeing an outstanding pointer passes the assertions of CSC369_free. */
  lemma ReleaseConserved(b: Books, ptr: nat)
    requires Conserved(b) && Outstanding(b, ptr)
    ensures Conserved(Release(b, ptr)) && !Outstanding(Release(b, ptr), ptr)
    ensures OutstandingPointers(Release(b, ptr).sizes) == OutstandingPointers(b.sizes) - {ptr}
    ensures b.mallocs - b.frees > 0 && b.bytesMalloced - b.bytesFreed >= b.sizes[ptr] && b.sizes[ptr] < MAX
  {
    var old', new' := OutstandingPointers(b.sizes), OutstandingPointers(Release(b, ptr).sizes);
    if b.sizes[ptr] >= FREED {
      FreedRange(b.sizes[ptr]);
    }
    FreedBit(b.sizes[ptr]);
    assert ptr in old';
    assert new' == old' - {ptr};
    TotalWithout(b.sizes, old', ptr);
    TotalAgrees(b.sizes, Release(b, ptr).sizes, new');
  }

  // ----- whole runs -----

  datatype Operation = Malloc(ptr: nat, size: nat) | Free(ptr: nat)

  /** One call: malloc with the C library's answer, or free; refused and invalid calls record nothing. */
  function Apply(b: Books, op: Operation): Books {
    match op
    case Malloc(ptr, size) => if OverCap(b, size) || ptr == 0 then b else Record(b, ptr, size)
    case Free(ptr) => if Outstanding(b, ptr) && b.sizes[ptr] != 0 then Release(b, ptr) else b
  }

  function Run(b: Books, ops: seq<Operation>): Books
    decreases |ops|
  {
    if ops == [] then b else Run(Apply(b, ops[0]), ops[1..])
  }

  /** The C library hands out no pointer that is still outstanding. */
  ghost predicate Plausible(b: Books, ops: seq<Operation>)
    decreases |ops|
  {
    ops == [] ||
    ((ops[0].Malloc? ==> !Outstanding(b, ops[0].ptr)) && Plausible(Apply(b, ops[0]), ops[1..]))
  }

  /** The first of the calls left. */
  lemma RunFirst(b: Books, ops: seq<Operation>, i: nat)
    requires i < |ops| && Plausible(b, ops[i..])
    ensures ops[i].Malloc? ==> !Outstanding(b, ops[i].ptr)
    ensures Requested(ops[i..]) == (if ops[i].Malloc? then ops[i].size else 0) + Requested(ops[i + 1..])
    ensures Plausible(Apply(b, ops[i]), ops[i + 1..]) && Run(b, ops[i..]) == Run(Apply(b, ops[i]), ops[i + 1..])
  {
    assert ops[i..][1..] == ops[i + 1..];
  }

  /** The sizes asked for, added up. */
  function Requested(ops: seq<Operation>): nat
    decreases |ops|
  {
    if ops == [] then 0 else (if ops[0].Malloc? then ops[0].size else 0) + Requested(ops[1..])
  }

  function Mallocs(ops: seq<Operation>): nat
    decreases |ops|
  {
    if ops == [] then 0 else (if ops[0].Malloc? then 1 else 0) + Mallocs(ops[1..])
  }

  /** Each request is for less than 2 GB and answered by the C library. */
  predicate Sensible(ops: seq<Operation>) {
    forall op | op in ops && op.Malloc? :: op.ptr != 0 && op.size < 0x8000_0000
  }

  /** Requests that add up to no more than 2 GB are all granted, frees between them or not. */
  lemma {:induction false} AllGranted(b: Books, ops: seq<Operation>)
    requires Sensible(ops) && b.bytesMalloced + Requested(ops) <= 0x8000_0000
    ensures Run(b, ops).mallocs == b.mallocs + Mallocs(ops)
    ensures Run(b, ops).bytesMalloced == b.bytesMalloced + Requested(ops)
    decreases |ops|
  {
    if ops != [] {
      AllGranted(Apply(b, ops[0]), ops[1..]);
    }
  }

  /** One call adds at most one entry, and none for NULL. */
  lemma EntriesAfter(b: Books, op: Operation)
    requires 0 !in b.sizes
    ensures 0 !in Apply(b, op).sizes && |Apply(b, op).sizes| <= |b.sizes| + 1
  {
    assert Apply(b, op).sizes.Keys <= b.sizes.Keys + {op.ptr};
    SubsetSize(Apply(b, op).sizes.Keys, b.sizes.Keys + {op.ptr});
  }

  /** Over every run the two balances are the number and the total size of what is outstanding. */
  lemma {:induction false} RunBalanced(b: Books, ops: seq<Operation>)
    requires Balanced(b) && Plausible(b, ops)
    ensures Balanced(Run(b, ops))
    decreases |ops|
  {
    if ops != [] {
      match ops[0] {
        case Malloc(ptr, size) =>
          if !OverCap(b, size) && ptr != 0 {
            RecordConserved(b, ptr, size);
          }
        case Free(ptr) =>
          if Outstanding(b, ptr) && b.sizes[ptr] != 0 {
            ReleaseConserved(b, ptr);
          }
      }
      RunBalanced(Apply(b, ops[0]), ops[1..]);
    }
  }

  /** The leak test: the balances reach zero exactly when every pointer recorded has been freed. */
  lemma BalancesZero(b: Books)
    requires Balanced(b)
    ensures b.mallocs - b.frees <= 0 <==> forall p | p in b.sizes :: IsFreed(b.sizes[p])
    ensures b.mallocs - b.frees <= 0 ==> b.bytesMalloced == b.bytesFreed
  {
    var out := OutstandingPointers(b.sizes);
    if p :| p in b.sizes && !IsFreed(b.sizes[p]) {
      assert p in out;
    } else {
      assert out == {};
    }
  }

  // ----- the allocator as its callers see it -----

  /** The blocks in use and their sizes. */
  ghost function Live(b: Books): (live: map<int, nat>)
    ensures live.Keys == OutstandingPointers(b.sizes)
  {
    map p | p in OutstandingPointers(b.sizes) :: b.sizes[p]
  }

  /** The balances depend on nothing but the blocks in use. */
  lemma SameBalances(b: Books, c: Books)
    requires Conserved(b) && Conserved(c) && Live(b) == Live(c)
    ensures b.mallocs - b.frees == c.mallocs - c.frees
    ensures b.bytesMalloced - b.bytesFreed == c.bytesMalloced - c.bytesFreed
  {
    assert forall p | p in Live(b) :: b.sizes[p] == Live(b)[p] && c.sizes[p] == Live(c)[p];
    TotalAgrees(b.sizes, c.sizes, OutstandingPointers(b.sizes));
  }

  lemma LiveAfterRecord(b: Books, ptr: nat, size: nat)
    requires Conserved(b) && size < MAX && !Outstanding(b, ptr)
    ensures ptr !in Live(b) && Live(Record(b, ptr, size)) == Live(b)[ptr := size]
  {
    RecordConserved(b, ptr, size);
  }

  lemma LiveAfterRelease(b: Books, ptr: nat)
    requires Conserved(b) && Outstanding(b, ptr)
    ensures Live(Release(b, ptr)) == Live(b) - {ptr}
  {
    ReleaseConserved(b, ptr);
  }

  /** What a caller makes of its calls: a block more for each malloc, one less for each free. */
  ghost function LiveAfter(live: map<int, nat>, ops: seq<Operation>): map<int, nat>
    decreases |ops|
  {
    if ops == [] then live
    else
      match ops[0]
      case Malloc(p, size) => LiveAfter(live[p := size], ops[1..])
      case Free(p) => LiveAfter(live - {p}, ops[1..])
  }

  predicate GrantedFirst(b: Books, op: Operation) {
    match op
    case Malloc(p, size) => p != 0 && size > 0 && !OverCap(b, size) && !Outstanding(b, p)
    case Free(p) => Outstanding(b, p)
  }

  /** Calls below the cap, each answered by the C library with a pointer not in use, each freeing one in use. */
  ghost predicate Granted(b: Books, ops: seq<Operation>)
    decreases |ops|
  {
    ops == [] || (GrantedFirst(b, ops[0]) && Granted(Apply(b, ops[0]), ops[1..]))
  }

  /** Over every run of such calls what the ledger has outstanding is what the caller has. */
  lemma {:induction false} LedgerTracks(b: Books, ops: seq<Operation>)
    requires Balanced(b) && Granted(b, ops) && forall p | p in Live(b) :: Live(b)[p] > 0
    ensures Balanced(Run(b, ops)) && Live(Run(b, ops)) == LiveAfter(Live(b), ops)
    decreases |ops|
  {
    if ops != [] {
      match ops[0] {
        case Malloc(p, size) =>
          RecordConserved(b, p, size);
          LiveAfterRecord(b, p, size);
        case Free(p) =>
          assert Live(b)[p] > 0;
          ReleaseConserved(b, p);
          LiveAfterRelease(b, p);
      }
      LedgerTracks(Apply(b, ops[0]), ops[1..]);
    }
  }

  /** A pointer that is not outstanding. */
  lemma SomePointer(b: Books) returns (p: nat)
    ensures p != 0 && p !in b.sizes
  {
    p := Largest(b.sizes.Keys) + 1;
  }

  ghost function Largest(s: set<nat>): (m: nat)
    ensures forall x | x in s :: x <= m
  {
    if s == {} then 0
    else
      var x :| x in s;
      var m := Largest(s - {x});
      assert forall y | y in s :: y == x || y in s - {x};
      if x > m then x else m
  }

  /** The books are in balance and these are the blocks in use, under a seal. */
  ghost predicate InBalance(seal: nat, b: Books, live: map<int, nat>) {
    if seal == 0 then Conserved(b) && live == Live(b) else InBalance(seal - 1, b, live)
  }

  lemma {:induction false} BreakBalance(seal: nat, b: Books, live: map<int, nat>)
    ensures InBalance(seal, b, live) <==> Conserved(b) && live == Live(b)
  {
    if seal > 0 {
      BreakBalance(seal - 1, b, live);
    }
  }

  /** CSC369_malloc and CSC369_free on the books, where allocation succeeds. */
  class Tracker {
    var books: Books
    ghost var live: map<int, nat>

    ghost predicate Valid()
      reads this
    {
      InBalance(SEAL, books, live) && forall p | p in live :: p in books.sizes
    }

    constructor ()
      ensures Valid() && IsEmpty(books) && live == map[]
    {
      books, live := Books(0, 0, 0, 0, map[]), map[];
      new;
      assert OutstandingPointers(books.sizes) == {};
      BreakBalance(SEAL, books, live);
    }

    /** The C library answers with any pointer that is not outstanding, a freed one perhaps. */
    method Malloc(size: nat) returns (p: nat)
      requires Valid() && 0 < size < MAX
      modifies this
      ensures Valid() && p != 0 && p !in old(live)
      ensures live == old(live)[p := size] && books == Record(old(books), p, size)
      ensures !OverCap(old(books), size) ==> books == Apply(old(books), Operation.Malloc(p, size))
    {
      BreakBalance(SEAL, books, live);
      ghost var q := SomePointer(books);
      assert q != 0 && !Outstanding(books, q);
      p :| p != 0 && !Outstanding(books, p);
      RecordConserved(books, p, size);
      LiveAfterRecord(books, p, size);
      books, live := Record(books, p, size), live[p := size];
      BreakBalance(SEAL, books, live);
    }

    /** A pointer freed is in use: never one freed before. */
    method Free(p: nat)
      requires Valid() && p in live
      modifies this
      ensures Valid() && live == old(live) - {p} && books == Release(old(books), p)
      ensures old(live)[p] > 0 ==> books == Apply(old(books), Operation.Free(p))
    {
      BreakBalance(SEAL, books, live);
      ReleaseConserved(books, p);
      LiveAfterRelease(books, p);
      books, live := Release(books, p), live - {p};
      BreakBalance(SEAL, books, live);
    }
  }
}
