/** The destroy functions of csc369_page_table.c give back every block of a tree, each once. */
module Teardown {
  import opened PageTables
  import opened Ledger
  import opened RadixTable
  import opened Seals

  /** The index taken at p on the way down to q, or -1 when q is not below p. */
  ghost function StepAt(p: Path, q: Path): int {
    match q
    case Root => -1
    case Child(parent, i) => if parent == p then i else StepAt(p, parent)
  }

  lemma {:induction false} StepDown(p: Path, i: nat, q: Path)
    ensures StepAt(p, q) == i <==> q == Child(p, i) || StepAt(Child(p, i), q) >= 0
  {
    if q.Child? {
      StepDown(p, i, q.parent);
      if q.parent == p {
        NotBelowItself(p, Child(p, i));
      }
    }
  }

  /** Nothing above q, nor q, is below it. */
  lemma {:induction false} NotBelowItself(q: Path, p: Path)
    requires Level(q) <= Level(p)
    ensures StepAt(p, q) == -1
  {
    if q.Child? {
      NotBelowItself(q.parent, p);
    }
  }

  /** Below a slot that is empty there is nothing. */
  lemma {:induction false} SlotLeadsDown(tree: Tree, p: Path, q: Path)
    requires tree.Linked() && (q in tree.tables || q in tree.entries) && StepAt(p, q) >= 0
    ensures Child(p, StepAt(p, q)) in tree.entries && p in tree.tables
  {
    if q in tree.tables {
      assert tree.tables[q].path == q;
    }
    assert tree.entries[q].path == q;
    if q.parent != p {
      SlotLeadsDown(tree, p, q.parent);
    }
  }

  /** The block belongs to the entry at p or to what is below it. */
  ghost predicate OfEntry(b: Block, p: Path) {
    b.path == p || StepAt(p, b.path) >= 0
  }

  /** The block belongs to the table at p or to what is below it. */
  ghost predicate OfTable(b: Block, p: Path) {
    b == TableBlock(p) || b == EntriesBlock(p) || StepAt(p, b.path) >= 0
  }

  // ----- what is left after freeing part of a tree -----

  ghost predicate Kept(before: map<int, nat>, after: map<int, nat>, freed: iset<int>) {
    && (forall a :: a in after <==> a in before && a !in freed)
    && (forall a | a in after :: after[a] == before[a])
  }

  ghost function EntryBlocks(blocks: map<int, Block>, p: Path): iset<int> {
    iset a | a in blocks && OfEntry(blocks[a], p)
  }

  ghost function TableBlocks(blocks: map<int, Block>, p: Path): iset<int> {
    iset a | a in blocks && OfTable(blocks[a], p)
  }

  /** The blocks below the first i slots of the table at p. */
  ghost function SlotBlocks(blocks: map<int, Block>, p: Path, i: nat): iset<int> {
    iset a | a in blocks && 0 <= StepAt(p, blocks[a].path) < i
  }

  lemma NextSlot(blocks: map<int, Block>, p: Path, i: nat)
    ensures SlotBlocks(blocks, p, i + 1) == SlotBlocks(blocks, p, i) + EntryBlocks(blocks, Child(p, i))
    ensures SlotBlocks(blocks, p, i) !! EntryBlocks(blocks, Child(p, i))
  {
    forall a | a in blocks
      ensures StepAt(p, blocks[a].path) == i <==> OfEntry(blocks[a], Child(p, i))
    {
      StepDown(p, i, blocks[a].path);
    }
  }

  /** A block's path is that of a table or an entry. */
  lemma BlockPath(tree: Tree, a: int)
    requires Blocks(tree.tables, tree.entries, tree.blocks) && a in tree.blocks
    ensures tree.blocks[a].path in tree.tables || tree.blocks[a].path in tree.entries
    ensures tree.blocks[a].EntryBlock? ==> tree.blocks[a].path in tree.entries
    ensures tree.blocks[a].TableBlock? ==>
          tree.blocks[a].path in tree.tables && tree.tables[tree.blocks[a].path].address == a
    ensures tree.blocks[a].EntriesBlock? ==>
          tree.blocks[a].path in tree.tables && tree.tables[tree.blocks[a].path].ptesAddress == a
  {}

  lemma EmptySlot(tree: Tree, p: Path, i: nat)
    requires tree.Linked() && Blocks(tree.tables, tree.entries, tree.blocks) && Child(p, i) !in tree.entries
    ensures EntryBlocks(tree.blocks, Child(p, i)) == iset{}
  {
    forall a | a in tree.blocks
      ensures !OfEntry(tree.blocks[a], Child(p, i))
    {
      BlockPath(tree, a);
      var q := tree.blocks[a].path;
      if q in tree.tables {
        assert tree.tables[q].path == q;
      }
      StepDown(p, i, q);
      if StepAt(p, q) >= 0 {
        SlotLeadsDown(tree, p, q);
      }
    }
  }

  /** A table is its two blocks and those below its slots. */
  lemma AllSlots(tree: Tree, table: PageTable)
    requires tree.Linked() && Blocks(tree.tables, tree.entries, tree.blocks)
    requires table.path in tree.tables && tree.tables[table.path] == table
    ensures TableBlocks(tree.blocks, table.path)
         == SlotBlocks(tree.blocks, table.path, ENTRIES) + iset{table.address, table.ptesAddress}
    ensures table.address !in SlotBlocks(tree.blocks, table.path, ENTRIES)
            && table.ptesAddress !in SlotBlocks(tree.blocks, table.path, ENTRIES)
    ensures table.address in tree.blocks && table.ptesAddress in tree.blocks && table.address != table.ptesAddress
  {
    var p := table.path;
    NotBelowItself(p, p);
    assert tree.blocks[table.address] == TableBlock(p) && tree.blocks[table.ptesAddress] == EntriesBlock(p);
    forall a | a in tree.blocks
      ensures StepAt(p, tree.blocks[a].path) < ENTRIES
      ensures tree.blocks[a] == TableBlock(p) <==> a == table.address
      ensures tree.blocks[a] == EntriesBlock(p) <==> a == table.ptesAddress
    {
      BlockPath(tree, a);
      if StepAt(p, tree.blocks[a].path) >= 0 {
        SlotLeadsDown(tree, p, tree.blocks[a].path);
        assert tree.entries[Child(p, StepAt(p, tree.blocks[a].path))].path.index < ENTRIES;
      }
    }
  }

  /** An entry is its block and those of its table. */
  lemma AllOfEntry(tree: Tree, e: Pte)
    requires tree.Linked() && Blocks(tree.tables, tree.entries, tree.blocks)
    requires e.path in tree.entries && tree.entries[e.path] == e
    ensures EntryBlocks(tree.blocks, e.path) == TableBlocks(tree.blocks, e.path) + iset{e.address}
    ensures e.address in tree.blocks && e.address !in TableBlocks(tree.blocks, e.path)
    ensures e.pageTable == null ==> TableBlocks(tree.blocks, e.path) == iset{}
    ensures e.pageTable != null ==>
          e.path in tree.tables && tree.tables[e.path] == e.pageTable && e.pageTable.path == e.path && Level(e.path) < 3
  {
    var p := e.path;
    NotBelowItself(p, p);
    assert tree.blocks[e.address] == EntryBlock(p);
    if p in tree.tables {
      assert tree.tables[p].path == p;
    }
    forall a | a in tree.blocks
      ensures tree.blocks[a] == EntryBlock(p) <==> a == e.address
      ensures e.pageTable == null ==> !OfTable(tree.blocks[a], p)
    {
      BlockPath(tree, a);
      if StepAt(p, tree.blocks[a].path) >= 0 {
        SlotLeadsDown(tree, p, tree.blocks[a].path);
      }
    }
  }

  ghost predicate AllLive(live: map<int, nat>, blocks: iset<int>) {
    forall a :: a in blocks ==> a in live
  }

  lemma KeptTwice(m0: map<int, nat>, m1: map<int, nat>, m2: map<int, nat>, s: iset<int>, t: iset<int>)
    requires Kept(m0, m1, s) && Kept(m1, m2, t)
    ensures Kept(m0, m2, s + t)
  {}

  /** CSC369_PageTableDestroy. Each pointer read or freed on the way is still allocated. */
  method DestroyTable(tree: Tree, table: PageTable)
    requires tree.Linked() && Blocks(tree.tables, tree.entries, tree.blocks)
    requires table.path in tree.tables && tree.tables[table.path] == table
    requires tree.heap.Valid() && AllLive(tree.heap.live, TableBlocks(tree.blocks, table.path))
    modifies tree.heap
    ensures tree.heap.Valid() && Kept(old(tree.heap.live), tree.heap.live, TableBlocks(tree.blocks, table.path))
    ensures tree.heap.books.mallocs == old(tree.heap.books.mallocs)
    decreases 6 - 2 * Level(table.path)
  {
    ghost var before := tree.heap.live;
    AllSlots(tree, table);
    assert table.ptes.Length == ENTRIES && Level(table.path) < 3;
    for i := 0 to ENTRIES
      invariant tree.heap.Valid() && tree.heap.books.mallocs == old(tree.heap.books.mallocs)
      invariant Kept(before, tree.heap.live, SlotBlocks(tree.blocks, table.path, i))
    {
      DestroySlot(tree, table, i, before);
    }
    ghost var live := tree.heap.live;
    FreeTable(tree.heap, table);
    KeptTwice(before, live, tree.heap.live, SlotBlocks(tree.blocks, table.path, ENTRIES),
              iset{table.address, table.ptesAddress});
  }

  /** Its two last statements. */
  method FreeTable(heap: Tracker, table: PageTable)
    requires heap.Valid() && table.address in heap.live && table.ptesAddress in heap.live
            && table.address != table.ptesAddress
    modifies heap
    ensures heap.Valid() && Kept(old(heap.live), heap.live, iset{table.address, table.ptesAddress})
    ensures heap.books.mallocs == old(heap.books.mallocs)
  {
    heap.Free(table.ptesAddress);
    heap.Free(table.address);
  }

  /** if (page_table->ptes[i] != NULL) the entry is destroyed. */
  method DestroySlot(tree: Tree, table: PageTable, i: nat, ghost before: map<int, nat>)
    requires tree.Linked() && Blocks(tree.tables, tree.entries, tree.blocks)
    requires table.path in tree.tables && tree.tables[table.path] == table && i < ENTRIES && Level(table.path) < 3
    requires tree.heap.Valid() && AllLive(before, TableBlocks(tree.blocks, table.path))
    requires Kept(before, tree.heap.live, SlotBlocks(tree.blocks, table.path, i))
    modifies tree.heap
    ensures tree.heap.Valid() && Kept(before, tree.heap.live, SlotBlocks(tree.blocks, table.path, i + 1))
    ensures tree.heap.books.mallocs == old(tree.heap.books.mallocs)
    decreases 6 - 2 * Level(table.path), 0
  {
    ghost var live, p := tree.heap.live, table.path;
    AllSlots(tree, table);
    NextSlot(tree.blocks, p, i);
    SlotsWithin(tree, p, i);
    assert table.ptesAddress in tree.heap.live;
    tree.SlotIs(table, i);
    if table.ptes[i] != null {
      DestroyEntry(tree, table.ptes[i]);
      KeptTwice(before, live, tree.heap.live, SlotBlocks(tree.blocks, p, i), EntryBlocks(tree.blocks, Child(p, i)));
    } else {
      EmptySlot(tree, p, i);
    }
  }

  lemma SlotsWithin(tree: Tree, p: Path, i: nat)
    ensures forall a :: a in EntryBlocks(tree.blocks, Child(p, i)) ==> a in TableBlocks(tree.blocks, p)
    ensures forall a :: a in SlotBlocks(tree.blocks, p, i) ==> a in TableBlocks(tree.blocks, p)
  {
    forall a | a in tree.blocks && OfEntry(tree.blocks[a], Child(p, i))
      ensures OfTable(tree.blocks[a], p)
    {
      StepDown(p, i, tree.blocks[a].path);
    }
  }

  /** CSC369_PTEDestroy. */
  method DestroyEntry(tree: Tree, e: Pte)
    requires tree.Linked() && Blocks(tree.tables, tree.entries, tree.blocks)
    requires e.path in tree.entries && tree.entries[e.path] == e
    requires tree.heap.Valid() && AllLive(tree.heap.live, EntryBlocks(tree.blocks, e.path))
    modifies tree.heap
    ensures tree.heap.Valid() && Kept(old(tree.heap.live), tree.heap.live, EntryBlocks(tree.blocks, e.path))
    ensures tree.heap.books.mallocs == old(tree.heap.books.mallocs)
    decreases 7 - 2 * Level(e.path)
  {
    ghost var before := tree.heap.live;
    AllOfEntry(tree, e);
    assert Level(e.path) <= 3;
    assert e.address in tree.heap.live;
    if e.pageTable != null {
      DestroyTable(tree, e.pageTable);
    }
    ghost var live := tree.heap.live;
    tree.heap.Free(e.address);
    KeptTwice(before, live, tree.heap.live, TableBlocks(tree.blocks, e.path), iset{e.address});
  }

  /** Every block of the tree belongs to the root's table. */
  lemma {:induction false} AllBelowRoot(q: Path)
    ensures q == Root || StepAt(Root, q) >= 0
  {
    if q.Child? {
      AllBelowRoot(q.parent);
    }
  }

  lemma WholeTree(tree: Tree)
    requires tree.Linked() && Blocks(tree.tables, tree.entries, tree.blocks)
    ensures TableBlocks(tree.blocks, Root) == iset a | a in tree.blocks
  {
    forall a | a in tree.blocks
      ensures OfTable(tree.blocks[a], Root)
    {
      BlockPath(tree, a);
      AllBelowRoot(tree.blocks[a].path);
    }
  }

  lemma RestIsBase(before: map<int, nat>, after: map<int, nat>, blocks: map<int, Block>, base: map<int, nat>,
      freed: iset<int>)
    requires Holds(before, blocks, base) && Kept(before, after, freed) && freed == iset a | a in blocks
    ensures after == base
  {
    forall a
      ensures a in after <==> a in base
    {
      if a in base {
        assert base[a] == before[a];
      }
      if a in before {
        assert before[a] == before[a];
      }
    }
    assert forall a | a in base :: after[a] == base[a];
  }

  lemma HeldSizes(live: map<int, nat>, blocks: map<int, Block>, base: map<int, nat>)
    requires Holds(live, blocks, base)
    ensures |live| == |base| + |blocks|
  {
    forall a
      ensures a in live.Keys <==> a in base.Keys || a in blocks.Keys
      ensures a in base.Keys ==> a !in blocks.Keys
    {
      if a in live { assert live[a] == live[a]; }
      if a in base { assert base[a] == base[a]; }
      if a in blocks { assert blocks[a] == blocks[a]; }
    }
    assert live.Keys == base.Keys + blocks.Keys && base.Keys !! blocks.Keys;
    assert |live| == |live.Keys| && |base| == |base.Keys| && |blocks| == |blocks.Keys|;
  }

  lemma BooksCount(heap: Tracker)
    requires heap.Valid()
    ensures heap.books.mallocs - heap.books.frees == |heap.live|
  {
    BreakBalance(SEAL, heap.books, heap.live);
    assert |heap.live| == |heap.live.Keys|;
  }

  /**
   * Destroying the root's table leaves in use exactly what was in use before the tree was created,
   * with one call of free for each block of the tree.
   */
  method Destroy(tree: Tree)
    requires tree.Sound(SEAL)
    modifies tree.heap
    ensures tree.heap.Valid() && tree.heap.live == tree.base
    ensures tree.heap.books.frees == old(tree.heap.books.frees) + |tree.blocks|
  {
    tree.BreakSound(SEAL);
    BreakAccounts(SEAL, tree.heap, tree.tables, tree.entries, tree.blocks, tree.base);
    ghost var before := tree.heap.live;
    HeldSizes(before, tree.blocks, tree.base);
    BooksCount(tree.heap);
    WholeTree(tree);
    DestroyTable(tree, tree.root);
    RestIsBase(before, tree.heap.live, tree.blocks, tree.base, TableBlocks(tree.blocks, Root));
    BooksCount(tree.heap);
  }

  /** So the balances of the allocator are again what they were. */
  lemma BalancesRestored(tree: Tree, start: Books)
    requires tree.heap.Valid() && tree.heap.live == tree.base && Conserved(start) && Live(start) == tree.base
    ensures var b := tree.heap.books;
            && b.mallocs - b.frees == start.mallocs - start.frees
            && b.bytesMalloced - b.bytesFreed == start.bytesMalloced - start.bytesFreed
  {
    BreakBalance(SEAL, tree.heap.books, tree.heap.live);
    SameBalances(tree.heap.books, start);
  }

  // ----- how many bytes a tree has -----

  lemma {:induction false} TotalSplit(sizes: map<nat, nat>, s: set<nat>, t: set<nat>)
    requires s <= sizes.Keys && t <= sizes.Keys && s !! t
    ensures Total(sizes, s + t) == Total(sizes, s) + Total(sizes, t)
    decreases |s|
  {
    if s == {} {
      assert s + t == t;
    } else {
      var p :| p in s;
      TotalWithout(sizes, s, p);
      TotalWithout(sizes, s + t, p);
      TotalSplit(sizes, s - {p}, t);
      assert s + t - {p} == s - {p} + t;
    }
  }

  lemma {:induction false} TotalEqual(sizes: map<nat, nat>, s: set<nat>, size: nat)
    requires s <= sizes.Keys && forall p | p in s :: sizes[p] == size
    ensures Total(sizes, s) == size * |s|
    decreases |s|
  {
    if s != {} {
      var p :| p in s;
      TotalWithout(sizes, s, p);
      TotalEqual(sizes, s - {p}, size);
    }
  }

  /** Where the blocks of each kind are. */
  ghost function TableAddresses(blocks: map<int, Block>): set<nat> {
    set a: nat | a in blocks && blocks[a].TableBlock?
  }

  ghost function ArrayAddresses(blocks: map<int, Block>): set<nat> {
    set a: nat | a in blocks && blocks[a].EntriesBlock?
  }

  ghost function EntryAddresses(blocks: map<int, Block>): set<nat> {
    set a: nat | a in blocks && blocks[a].EntryBlock?
  }

  /** There are as many as tables and entries. */
  lemma AddressCounts(tables: map<Path, PageTable>, entries: map<Path, Pte>, blocks: map<int, Block>)
    requires Blocks(tables, entries, blocks)
    ensures |TableAddresses(blocks)| == |ArrayAddresses(blocks)| == |tables| && |EntryAddresses(blocks)| == |entries|
  {
    ImageSize(tables.Keys, TableAddresses(blocks), p => AddressOf(tables, entries, TableBlock(p)));
    ImageSize(tables.Keys, ArrayAddresses(blocks), p => AddressOf(tables, entries, EntriesBlock(p)));
    ImageSize(entries.Keys, EntryAddresses(blocks), p => AddressOf(tables, entries, EntryBlock(p)));
    assert |tables| == |tables.Keys| && |entries| == |entries.Keys|;
  }

  // ----- how many blocks a tree has -----

  /** The first 12 and the first 24 bits of the pages' numbers. */
  ghost function Prefixes1(pages: set<nat>): set<nat> {
    set n | n in pages :: n / 0x100_0000
  }

  ghost function Prefixes2(pages: set<nat>): set<nat> {
    set n | n in pages :: n / ENTRIES
  }

  lemma {:induction false} ImageSize<A, B>(s: set<A>, t: set<B>, f: A -> B)
    requires forall x, y | x in s && y in s && f(x) == f(y) :: x == y
    requires t == set x | x in s :: f(x)
    ensures |t| == |s|
  {
    if s != {} {
      var x :| x in s;
      assert f(x) in t;
      ImageSize(s - {x}, t - {f(x)}, f);
    }
  }

  function DirectoryPath(x: nat): Path {
    Child(Child(Root, x / ENTRIES), x % ENTRIES)
  }

  lemma DirectoryOf(n: nat)
    ensures DirectoryPath(n / ENTRIES) == Child(Child(Root, n / 0x100_0000), n / ENTRIES % ENTRIES)
    ensures Level(DirectoryPath(n / ENTRIES)) == 2 && Level(Child(Root, n / 0x100_0000)) == 1 && Level(PathOf(n)) == 3
    ensures WayTo(n) == {Child(Root, n / 0x100_0000), DirectoryPath(n / ENTRIES), PathOf(n)}
  {
    assert n / ENTRIES / ENTRIES == n / 0x100_0000;
    assert Level(Child(Root, n / 0x100_0000)) == 1;
    LeafIs(n / 0x100_0000, n / ENTRIES % ENTRIES, n % ENTRIES);
  }

  /** The entries of each level on the way to some pages. */
  ghost function Level1(pages: set<nat>): set<Path> {
    set n | n in pages :: Child(Root, n / 0x100_0000)
  }

  ghost function Level2(pages: set<nat>): set<Path> {
    set n | n in pages :: DirectoryPath(n / ENTRIES)
  }

  ghost function Level3(pages: set<nat>): set<Path> {
    set n | n in pages :: PathOf(n)
  }

  lemma Level1Size(pages: set<nat>)
    ensures |Level1(pages)| == |Prefixes1(pages)|
  {
    assert forall n | n in pages :: n / 0x100_0000 in Prefixes1(pages);
    ImageSize(Prefixes1(pages), Level1(pages), x => Child(Root, x));
  }

  lemma Level2Size(pages: set<nat>)
    ensures |Level2(pages)| == |Prefixes2(pages)|
  {
    assert forall n | n in pages :: n / ENTRIES in Prefixes2(pages);
    ImageSize(Prefixes2(pages), Level2(pages), DirectoryPath);
  }

  lemma Level3Size(pages: set<nat>)
    requires forall n | n in pages :: n < PAGE_COUNT
    ensures |Level3(pages)| == |pages|
  {
    forall n, m | n in pages && m in pages && PathOf(n) == PathOf(m)
      ensures n == m
    {
      SamePath(n, m);
    }
    ImageSize(pages, Level3(pages), PathOf);
  }

  lemma LevelsApart(p: Path, pages: set<nat>)
    ensures p in Level1(pages) ==> Level(p) == 1
    ensures p in Level2(pages) ==> Level(p) == 2
    ensures p in Level3(pages) ==> Level(p) == 3
  {
    forall n | n in pages
      ensures Level(DirectoryPath(n / ENTRIES)) == 2 && Level(Child(Root, n / 0x100_0000)) == 1 && Level(PathOf(n)) == 3
    {
      DirectoryOf(n);
    }
  }

  /** The entries on the way to the pages are those of the three levels. */
  lemma LevelsCover(p: Path, pages: set<nat>)
    ensures OnWay(p, pages) <==> p in Level1(pages) || p in Level2(pages) || p in Level3(pages)
  {
    forall n | n in pages
      ensures WayTo(n) == {Child(Root, n / 0x100_0000), DirectoryPath(n / ENTRIES), PathOf(n)}
    {
      DirectoryOf(n);
    }
    if p in Level1(pages) {
      var n :| n in pages && p == Child(Root, n / 0x100_0000);
      assert p in WayTo(n);
    } else if p in Level2(pages) {
      var n :| n in pages && p == DirectoryPath(n / ENTRIES);
      assert p in WayTo(n);
    } else if p in Level3(pages) {
      var n :| n in pages && p == PathOf(n);
      assert p in WayTo(n);
    }
  }

  /** A settled tree has an entry for each prefix, and a table besides the root's for each short one. */
  lemma TreeSizes(tree: Tree)
    requires tree.Linked() && tree.Settled()
    ensures var pages := tree.Pages().Keys;
            && |tree.tables| == 1 + |Prefixes1(pages)| + |Prefixes2(pages)|
            && |tree.entries| == |Prefixes1(pages)| + |Prefixes2(pages)| + |pages|
  {
    var pages := tree.Pages().Keys;
    Level1Size(pages);
    Level2Size(pages);
    Level3Size(pages);
    Places(tree, pages);
  }

  /** Where the tables and entries are. */
  lemma PlaceOf(tree: Tree, pages: set<nat>, p: Path)
    requires tree.Linked() && tree.Complete() && NoneIdle(tree.entries, pages)
    ensures p in tree.entries <==> p in Level1(pages) || p in Level2(pages) || p in Level3(pages)
    ensures p in tree.tables <==> p == Root || p in Level1(pages) || p in Level2(pages)
    ensures p in Level1(pages) ==> p !in Level2(pages) && p !in Level3(pages) && p != Root
    ensures p in Level2(pages) ==> p !in Level3(pages) && p != Root
  {
    LevelsCover(p, pages);
    LevelsApart(p, pages);
    if p in tree.tables {
      assert tree.tables[p].path == p;
    }
  }

  lemma Places(tree: Tree, pages: set<nat>)
    requires tree.Linked() && tree.Complete() && NoneIdle(tree.entries, pages)
    ensures |tree.tables| == 1 + |Level1(pages)| + |Level2(pages)|
    ensures |tree.entries| == |Level1(pages)| + |Level2(pages)| + |Level3(pages)|
  {
    forall p
      ensures p in tree.entries.Keys <==> p in Level1(pages) || p in Level2(pages) || p in Level3(pages)
      ensures p in tree.tables.Keys <==> p == Root || p in Level1(pages) || p in Level2(pages)
      ensures p in Level1(pages) ==> p !in Level2(pages) && p !in Level3(pages) && p != Root
      ensures p in Level2(pages) ==> p !in Level3(pages) && p != Root
    {
      PlaceOf(tree, pages, p);
    }
    Sizes(tree.tables.Keys, tree.entries.Keys, Level1(pages), Level2(pages), Level3(pages));
  }

  lemma Sizes(tables: set<Path>, entries: set<Path>, e1: set<Path>, e2: set<Path>, e3: set<Path>)
    requires forall p :: p in entries <==> p in e1 || p in e2 || p in e3
    requires forall p :: p in tables <==> p == Root || p in e1 || p in e2
    requires forall p | p in e1 :: p !in e2 && p !in e3 && p != Root
    requires forall p | p in e2 :: p !in e3 && p != Root
    ensures |tables| == 1 + |e1| + |e2| && |entries| == |e1| + |e2| + |e3|
  {
    assert entries == e1 + e2 + e3 && e1 !! e2 && (e1 + e2) !! e3;
    assert tables == {Root} + (e1 + e2);
  }

  lemma KeyOf<A, B>(m: map<A, B>, v: B) returns (k: A)
    requires v in m.Values
    ensures k in m && m[k] == v
  {
    k :| k in m && m[k] == v;
  }

  lemma {:induction false} ValuesSize<A, B>(m: map<A, B>)
    requires forall x, y | x in m && y in m && m[x] == m[y] :: x == y
    ensures |m.Values| == |m|
  {
    if m != map[] {
      var x :| x in m;
      var r := m - {x};
      assert forall y | y in r :: r[y] in m.Values - {m[x]};
      assert forall y | y in m && y != x :: y in r && r[y] == m[y];
      assert r.Values == m.Values - {m[x]};
      ValuesSize(r);
    }
  }

  lemma TableKind(places: set<Path>) returns (r: set<Block>)
    ensures |r| == |places| && forall k :: k in r <==> k.TableBlock? && k.path in places
  {
    r := set p | p in places :: TableBlock(p);
    ImageSize(places, r, p => TableBlock(p));
  }

  lemma EntriesKind(places: set<Path>) returns (r: set<Block>)
    ensures |r| == |places| && forall k :: k in r <==> k.EntriesBlock? && k.path in places
  {
    r := set p | p in places :: EntriesBlock(p);
    ImageSize(places, r, p => EntriesBlock(p));
  }

  lemma EntryKind(places: set<Path>) returns (r: set<Block>)
    ensures |r| == |places| && forall k :: k in r <==> k.EntryBlock? && k.path in places
  {
    r := set p | p in places :: EntryBlock(p);
    ImageSize(places, r, p => EntryBlock(p));
  }

  /** The blocks of tables and entries at these places. */
  lemma BlocksAt(tables: set<Path>, entries: set<Path>) returns (r: set<Block>)
    ensures |r| == 2 * |tables| + |entries|
    ensures forall k :: k in r <==> if k.EntryBlock? then k.path in entries else k.path in tables
  {
    var a := TableKind(tables);
    var b := EntriesKind(tables);
    var c := EntryKind(entries);
    assert a !! b && (a + b) !! c;
    r := a + b + c;
  }

  /** No two blocks of a tree are the same, and they are those of its tables and entries. */
  lemma KindIn(tree: Tree, k: Block)
    requires Blocks(tree.tables, tree.entries, tree.blocks)
    ensures k in tree.blocks.Values <==> if k.EntryBlock? then k.path in tree.entries else k.path in tree.tables
  {
    if k in tree.blocks.Values {
      var x := KeyOf(tree.blocks, k);
      BlockPath(tree, x);
    }
    match k
    case EntryBlock(p) =>
      if p in tree.entries { assert tree.blocks[tree.entries[p].address] == k; }
    case TableBlock(p) =>
      if p in tree.tables { assert tree.blocks[tree.tables[p].address] == k; }
    case EntriesBlock(p) =>
      if p in tree.tables { assert tree.blocks[tree.tables[p].ptesAddress] == k; }
  }

  /** Two blocks for each table and one for each entry. */
  lemma BlocksByKind(tree: Tree)
    requires Blocks(tree.tables, tree.entries, tree.blocks)
    ensures |tree.blocks| == 2 * |tree.tables| + |tree.entries|
  {
    forall x, y | x in tree.blocks && y in tree.blocks && tree.blocks[x] == tree.blocks[y]
      ensures x == y
    {
      BlockPath(tree, x);
    }
    ValuesSize(tree.blocks);
    var all := BlocksAt(tree.tables.Keys, tree.entries.Keys);
    forall k
      ensures k in tree.blocks.Values <==> k in all
    {
      KindIn(tree, k);
    }
    assert tree.blocks.Values == all;
  }

  /**
   * Two blocks for the root's table, three for each entry above the last level and its table, and one
   * for each page: what the tree holds follows from which pages it has.
   */
  lemma BlockCount(tree: Tree)
    requires tree.Valid() && tree.Settled()
    ensures var pages := tree.Pages().Keys;
            |tree.blocks| == 2 + 3 * |Prefixes1(pages)| + 3 * |Prefixes2(pages)| + |pages|
  {
    BreakAccounts(SEAL, tree.heap, tree.tables, tree.entries, tree.blocks, tree.base);
    TreeSizes(tree);
    BlocksByKind(tree);
  }

  /** The blocks outstanding are those of before and the tree's, kind by kind. */
  lemma OutstandingSplit(tree: Tree, b: Books, base: set<nat>, a: nat)
    requires Blocks(tree.tables, tree.entries, tree.blocks) && Holds(Live(b), tree.blocks, tree.base)
    requires a in base <==> a in tree.base
    ensures a in OutstandingPointers(b.sizes) <==>
            a in base || a in TableAddresses(tree.blocks) || a in ArrayAddresses(tree.blocks)
            || a in EntryAddresses(tree.blocks)
    ensures a in base ==> a !in tree.blocks
  {
    if a in Live(b) { assert Live(b)[a] == Live(b)[a]; }
    if a in tree.base { assert tree.base[a] == tree.base[a]; }
    if a in tree.blocks { assert tree.blocks[a] == tree.blocks[a]; }
  }

  /** More blocks, of one size. */
  lemma TotalMore(sizes: map<nat, nat>, s: set<nat>, t: set<nat>, size: nat) returns (r: set<nat>)
    requires s <= sizes.Keys && (forall a | a in t :: a in sizes && a !in s && sizes[a] == size)
    ensures r <= sizes.Keys && forall a :: a in r <==> a in s || a in t
    ensures Total(sizes, r) == Total(sizes, s) + size * |t|
  {
    TotalSplit(sizes, s, t);
    TotalEqual(sizes, t, size);
    r := s + t;
  }

  lemma ThreeMore(sizes: map<nat, nat>, base: set<nat>, tables: set<nat>, arrays: set<nat>, entries: set<nat>,
      all: set<nat>)
    requires base <= sizes.Keys && (forall a | a in tables :: a in sizes && a !in base && sizes[a] == 8)
    requires forall a | a in arrays :: a in sizes && a !in base && a !in tables && sizes[a] == 32768
    requires forall a | a in entries :: a in sizes && a !in base && a !in tables && a !in arrays && sizes[a] == 32
    requires forall a :: a in all <==> a in base || a in tables || a in arrays || a in entries
    ensures all <= sizes.Keys
    ensures Total(sizes, all) == Total(sizes, base) + 8 * |tables| + 32768 * |arrays| + 32 * |entries|
  {
    var s1 := TotalMore(sizes, base, tables, 8);
    var s2 := TotalMore(sizes, s1, arrays, 32768);
    var s3 := TotalMore(sizes, s2, entries, 32);
    assert all == s3;
  }

  lemma OwnSizes(tree: Tree, b: Books)
    requires Blocks(tree.tables, tree.entries, tree.blocks) && Holds(Live(b), tree.blocks, tree.base)
    ensures forall a | a in TableAddresses(tree.blocks) :: a in b.sizes && b.sizes[a] == 8
    ensures forall a | a in ArrayAddresses(tree.blocks) :: a in b.sizes && b.sizes[a] == 32768
    ensures forall a | a in EntryAddresses(tree.blocks) :: a in b.sizes && b.sizes[a] == 32
  {
    forall a: nat | a in tree.blocks
      ensures a in b.sizes && b.sizes[a] == BlockSize(tree.blocks[a])
    {
      assert a in Live(b) && Live(b)[a] == BlockSize(tree.blocks[a]);
    }
  }

  /** What is outstanding, added up. */
  lemma OutstandingTotal(tree: Tree, b: Books, start: Books)
    requires Blocks(tree.tables, tree.entries, tree.blocks) && Holds(Live(b), tree.blocks, tree.base)
    requires Live(start) == tree.base
    ensures Total(b.sizes, OutstandingPointers(b.sizes))
         == Total(start.sizes, OutstandingPointers(start.sizes)) + 32776 * |tree.tables| + 32 * |tree.entries|
  {
    var base := OutstandingPointers(start.sizes);
    var tables, arrays := TableAddresses(tree.blocks), ArrayAddresses(tree.blocks);
    var entries := EntryAddresses(tree.blocks);
    forall a: nat
      ensures a in OutstandingPointers(b.sizes) <==> a in base || a in tables || a in arrays || a in entries
      ensures a in base ==> a !in tree.blocks
    {
      OutstandingSplit(tree, b, base, a);
    }
    BaseSizes(tree, b, start);
    TotalAgrees(b.sizes, start.sizes, base);
    OwnSizes(tree, b);
    ThreeMore(b.sizes, base, tables, arrays, entries, OutstandingPointers(b.sizes));
    AddressCounts(tree.tables, tree.entries, tree.blocks);
  }

  lemma BaseSizes(tree: Tree, b: Books, start: Books)
    requires Holds(Live(b), tree.blocks, tree.base) && Live(start) == tree.base
    ensures forall p | p in OutstandingPointers(start.sizes) :: p in b.sizes && b.sizes[p] == start.sizes[p]
  {
    forall p | p in OutstandingPointers(start.sizes)
      ensures p in b.sizes && b.sizes[p] == start.sizes[p]
    {
      assert p in Live(start) && tree.base[p] == start.sizes[p];
      assert Live(b)[p] == tree.base[p];
    }
  }

  /**
   * And how many bytes: 32776 for the root's table and for each entry's above the last level, and 32
   * for each entry.
   */
  lemma TreeBytes(tree: Tree, start: Books)
    requires tree.Valid() && tree.Settled() && Conserved(start) && Live(start) == tree.base
    ensures var pages, b := tree.Pages().Keys, tree.heap.books;
            b.bytesMalloced - b.bytesFreed == start.bytesMalloced - start.bytesFreed
              + 32776 * (1 + |Prefixes1(pages)| + |Prefixes2(pages)|)
              + 32 * (|Prefixes1(pages)| + |Prefixes2(pages)| + |pages|)
  {
    BreakAccounts(SEAL, tree.heap, tree.tables, tree.entries, tree.blocks, tree.base);
    BreakBalance(SEAL, tree.heap.books, tree.heap.live);
    TreeSizes(tree);
    OutstandingTotal(tree, tree.heap.books, start);
  }
}
