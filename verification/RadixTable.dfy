/**
 * csc369_page_table.c: the three-level tree that finds, or makes, the entry of a page, and the
 * blocks it holds from the allocator until it is destroyed.
 */
module RadixTable {
  import opened PageTables
  import opened Ledger
  import opened Seals

  const PAGE_COUNT: nat := 0x10_0000_0000 // pages of a 48-bit address space

  // ----- page numbers and index triples -----

  /** An entry of the last level, by the indices that lead to it. */
  function Leaf(a: nat, b: nat, c: nat): Path {
    Child(Child(Child(Root, a), b), c)
  }

  /** Where the entry of a page stands: its number written in base 4096. */
  function PathOf(n: nat): Path {
    Leaf(n / 0x100_0000, n / ENTRIES % ENTRIES, n % ENTRIES)
  }

  function Level(p: Path): nat {
    match p
    case Root => 0
    case Child(parent, _) => Level(parent) + 1
  }

  ghost predicate Indices(p: Path) {
    match p
    case Root => true
    case Child(parent, i) => i < ENTRIES && Indices(parent)
  }

  function PageAt(p: Path): nat {
    match p
    case Root => 0
    case Child(parent, i) => PageAt(parent) * ENTRIES + i
  }

  lemma LeafIs(a: nat, b: nat, c: nat)
    ensures Level(Leaf(a, b, c)) == 3 && PageAt(Leaf(a, b, c)) == (a * ENTRIES + b) * ENTRIES + c
    ensures Indices(Leaf(a, b, c)) <==> a < ENTRIES && b < ENTRIES && c < ENTRIES
  {
    ChildIs(Root, a);
    ChildIs(Child(Root, a), b);
    ChildIs(Child(Child(Root, a), b), c);
  }

  lemma ChildIs(p: Path, i: nat)
    ensures Level(Child(p, i)) == Level(p) + 1 && PageAt(Child(p, i)) == PageAt(p) * ENTRIES + i
    ensures Indices(Child(p, i)) <==> Indices(p) && i < ENTRIES
  {}

  /** Pages and index triples correspond one to one. */
  lemma PagesAreTriples(n: nat, a: nat, b: nat, c: nat)
    requires n < PAGE_COUNT && a < ENTRIES && b < ENTRIES && c < ENTRIES
    ensures Indices(PathOf(n)) && PageAt(PathOf(n)) == n
    ensures PathOf(n) == Leaf(a, b, c) <==> n == (a * ENTRIES + b) * ENTRIES + c
  {
    LeafIs(n / 0x100_0000, n / ENTRIES % ENTRIES, n % ENTRIES);
  }

  /** The indices CSC369_PageTableAllocate takes from an address are those of its page. */
  lemma IndexTriple(va: nat)
    requires va < 0x1_0000_0000_0000
    ensures va / 0x1000 < PAGE_COUNT && Indices(PathOf(va / 0x1000))
    ensures PathOf(va / 0x1000) == Leaf(va / 0x10_0000_0000, va / 0x100_0000 % 0x1000, va / 0x1000 % 0x1000)
    ensures WayTo(va / 0x1000) == Way(va / 0x10_0000_0000, va / 0x100_0000 % 0x1000, va / 0x1000 % 0x1000)
  {
    Divided(va);
    LeafIs(va / 0x10_0000_0000, va / 0x100_0000 % 0x1000, va / 0x1000 % 0x1000);
  }

  lemma Divided(va: nat)
    requires va < 0x1_0000_0000_0000
    ensures va / 0x1000 / 0x100_0000 == va / 0x10_0000_0000 < ENTRIES
    ensures va / 0x1000 / ENTRIES == va / 0x100_0000
  {}

  /** CSC369_PageTableSearch's third index is that one exactly when the second is zero. */
  lemma SearchIndex(va: nat)
    ensures va / 0x1000 % 0x100_0000 == va / 0x1000 % 0x1000 <==> va / 0x100_0000 % 0x1000 == 0
    ensures va / 0x1000 % 0x100_0000 < ENTRIES <==> va / 0x100_0000 % 0x1000 == 0
  {}

  // ----- the tree -----

  /** What the tree has from the allocator: two blocks for each table, one for each entry. */
  datatype Block = TableBlock(path: Path) | EntriesBlock(path: Path) | EntryBlock(path: Path)

  const TABLE_SIZE: nat := 8
  const ENTRIES_SIZE: nat := 8 * ENTRIES
  const ENTRY_SIZE: nat := 32

  function BlockSize(b: Block): nat {
    match b
    case TableBlock(_) => TABLE_SIZE
    case EntriesBlock(_) => ENTRIES_SIZE
    case EntryBlock(_) => ENTRY_SIZE
  }

  /** In use are the blocks of the tree, each with its size, and what was in use before. */
  ghost predicate Holds(live: map<int, nat>, blocks: map<int, Block>, base: map<int, nat>) {
    && (forall a {:trigger live[a]} | a in live :: a in base || a in blocks)
    && (forall a {:trigger base[a]} | a in base :: a !in blocks && a in live && live[a] == base[a])
    && (forall a {:trigger blocks[a]} | a in blocks :: a in live && live[a] == BlockSize(blocks[a]))
  }

  /** Another block from the allocator. */
  lemma HoldsMore(live: map<int, nat>, blocks: map<int, Block>, base: map<int, nat>, a: nat, b: Block)
    requires Holds(live, blocks, base) && a !in live
    ensures a !in blocks && Holds(live[a := BlockSize(b)], blocks[a := b], base)
  {}

  /** CSC369_PageTableCreate: a table without entries, in two blocks. */
  method CreateTable(heap: Tracker, ghost path: Path, ghost blocks: map<int, Block>, ghost base: map<int,
      nat>) returns (t: PageTable)
    requires heap.Valid() && Holds(heap.live, blocks, base)
    modifies heap
    ensures heap.Valid()
    ensures fresh(t) && fresh(t.ptes) && t.path == path && t.ptes.Length == ENTRIES
    ensures forall i | 0 <= i < ENTRIES :: t.ptes[i] == null
    ensures t.address !in blocks && t.ptesAddress !in blocks && t.address != t.ptesAddress
    ensures heap.live == old(heap.live)[t.address := 8][t.ptesAddress := 8 * t.ptes.Length]
    ensures Holds(heap.live, blocks[t.address := TableBlock(path)][t.ptesAddress := EntriesBlock(path)], base)
  {
    var address := heap.Malloc(TABLE_SIZE);
    HoldsMore(old(heap.live), blocks, base, address, TableBlock(path));
    ghost var live := heap.live;
    var ptesAddress := heap.Malloc(ENTRIES_SIZE);
    HoldsMore(live, blocks[address := TableBlock(path)], base, ptesAddress, EntriesBlock(path));
    t := new PageTable(address, ptesAddress, path);
  }

  /** CSC369_PTECreate. */
  method CreateEntry(heap: Tracker, ghost path: Path, ghost blocks: map<int, Block>, ghost base: map<int,
      nat>) returns (e: Pte)
    requires heap.Valid() && Holds(heap.live, blocks, base)
    modifies heap
    ensures heap.Valid()
    ensures fresh(e) && e.path == path && IsNew(e)
    ensures heap.live == old(heap.live)[e.address := 32]
    ensures e.address !in blocks && Holds(heap.live, blocks[e.address := EntryBlock(path)], base)
  {
    var address := heap.Malloc(ENTRY_SIZE);
    HoldsMore(old(heap.live), blocks, base, address, EntryBlock(path));
    e := new Pte(address, path);
  }

  /** Every table and entry has its blocks, and there are no others. */
  ghost predicate Blocks(tables: map<Path, PageTable>, entries: map<Path, Pte>, blocks: map<int, Block>) {
    && (forall p {:trigger tables[p].address} | p in tables ::
          tables[p].address in blocks && blocks[tables[p].address] == TableBlock(p))
    && (forall p {:trigger tables[p].ptesAddress} | p in tables ::
          tables[p].ptesAddress in blocks && blocks[tables[p].ptesAddress] == EntriesBlock(p))
    && (forall p {:trigger entries[p].address} | p in entries ::
          entries[p].address in blocks && blocks[entries[p].address] == EntryBlock(p))
    && (forall a {:trigger blocks[a]} | a in blocks :: a >= 0 && AddressOf(tables, entries, blocks[a]) == a)
  }

  ghost function AddressOf(tables: map<Path, PageTable>, entries: map<Path, Pte>, b: Block): int {
    match b
    case TableBlock(p) => if p in tables then tables[p].address else -1
    case EntriesBlock(p) => if p in tables then tables[p].ptesAddress else -1
    case EntryBlock(p) => if p in entries then entries[p].address else -1
  }

  lemma BlocksWithEntry(tables: map<Path, PageTable>, entries: map<Path, Pte>, blocks: map<int, Block>, p: Path, e: Pte)
    requires Blocks(tables, entries, blocks) && p !in entries && e.address !in blocks
    ensures Blocks(tables, entries[p := e], blocks[e.address := EntryBlock(p)])
  {}

  lemma BlocksWithTable(tables: map<Path, PageTable>, entries: map<Path, Pte>, blocks: map<int, Block>, p: Path,
      t: PageTable)
    requires Blocks(tables, entries, blocks) && p !in tables
    requires t.address !in blocks && t.ptesAddress !in blocks && t.address != t.ptesAddress
    ensures Blocks(tables[p := t], entries, blocks[t.address := TableBlock(p)][t.ptesAddress := EntriesBlock(p)])
  {}

  /** The blocks of the tree are accounted for with the allocator, and nothing else is but base. */
  ghost predicate Accounted(heap: Tracker, tables: map<Path, PageTable>, entries: map<Path, Pte>, blocks: map<int,
      Block>, base: map<int, nat>)
    reads heap
  {
    heap.Valid() && Blocks(tables, entries, blocks) && Holds(heap.live, blocks, base)
  }

  /** The same under a seal. */
  ghost predicate Accounts(seal: nat, heap: Tracker, tables: map<Path, PageTable>, entries: map<Path, Pte>,
      blocks: map<int, Block>, base: map<int, nat>)
    reads heap
  {
    if seal == 0 then Accounted(heap, tables, entries, blocks, base)
    else Accounts(seal - 1, heap, tables, entries, blocks, base)
  }

  lemma {:induction false} BreakAccounts(seal: nat, heap: Tracker, tables: map<Path, PageTable>, entries: map<Path,
      Pte>, blocks: map<int, Block>, base: map<int, nat>)
    ensures Accounts(seal, heap, tables, entries, blocks, base) <==> Accounted(heap, tables, entries, blocks, base)
  {
    if seal > 0 {
      BreakAccounts(seal - 1, heap, tables, entries, blocks, base);
    }
  }

  /** The first table. */
  method CreateRoot(heap: Tracker) returns (t: PageTable, ghost blocks: map<int, Block>)
    requires heap.Valid()
    modifies heap
    ensures fresh(t) && fresh(t.ptes) && t.path == Root && t.ptes.Length == ENTRIES
    ensures forall i | 0 <= i < ENTRIES :: t.ptes[i] == null
    ensures Accounts(SEAL, heap, map[Root := t], map[], blocks, old(heap.live))
  {
    t := CreateTable(heap, Root, map[], heap.live);
    BlocksWithTable(map[], map[], map[], Root, t);
    blocks := map[t.address := TableBlock(Root)][t.ptesAddress := EntriesBlock(Root)];
    BreakAccounts(SEAL, heap, map[Root := t], map[], blocks, old(heap.live));
  }

  /** The pages that have an entry, and which. */
  ghost function PagesOf(entries: map<Path, Pte>): (pages: map<nat, Pte>)
    ensures forall n :: n in pages <==> 0 <= n < PAGE_COUNT && PathOf(n) in entries
    ensures forall n | n in pages :: pages[n] == entries[PathOf(n)]
  {
    map n | 0 <= n < PAGE_COUNT && PathOf(n) in entries :: entries[PathOf(n)]
  }

  /** All entries of the one are in the other, which has at most these more. */
  ghost predicate Grown(entries: map<Path, Pte>, entries': map<Path, Pte>, more: set<Path>) {
    && (forall p :: p in entries' <==> p in entries || p in more)
    && (forall p | p in entries :: entries'[p] == entries[p])
  }

  lemma GrownTwice(m0: map<Path, Pte>, m1: map<Path, Pte>, m2: map<Path, Pte>, s: set<Path>, t: set<Path>)
    requires Grown(m0, m1, s) && Grown(m1, m2, t)
    ensures Grown(m0, m2, s + t)
  {}

  lemma SamePath(n: nat, m: nat)
    requires n < PAGE_COUNT && m < PAGE_COUNT && PathOf(n) == PathOf(m)
    ensures n == m
  {
    PagesAreTriples(n, 0, 0, 0);
    PagesAreTriples(m, 0, 0, 0);
  }

  /** The entries on the way to an entry of the last level, and itself. */
  function Way(a: nat, b: nat, c: nat): set<Path> {
    {Child(Root, a), Child(Child(Root, a), b), Leaf(a, b, c)}
  }

  function WayTo(n: nat): set<Path> {
    Way(n / 0x100_0000, n / ENTRIES % ENTRIES, n % ENTRIES)
  }

  lemma PageOnWay(m: nat, n: nat)
    requires n < PAGE_COUNT && m < PAGE_COUNT
    ensures PathOf(m) in WayTo(n) <==> m == n
  {
    LeafIs(m / 0x100_0000, m / ENTRIES % ENTRIES, m % ENTRIES);
    if PathOf(m) == PathOf(n) {
      SamePath(n, m);
    }
  }

  /** A path is on the way to some of the pages. */
  ghost predicate OnWay(p: Path, pages: set<nat>) {
    exists n :: n in pages && p in WayTo(n)
  }

  /** All entries are on the way to a page. */
  ghost predicate NoneIdle(entries: map<Path, Pte>, pages: set<nat>) {
    forall p :: p in entries <==> OnWay(p, pages)
  }

  /** Pages are added along the way to them. */
  lemma PagesGrown(entries: map<Path, Pte>, entries': map<Path, Pte>, n: nat)
    requires n < PAGE_COUNT && Grown(entries, entries', WayTo(n))
    ensures PathOf(n) in entries'
    ensures PagesOf(entries') == PagesOf(entries)[n := entries'[PathOf(n)]]
  {
    forall m: nat | m < PAGE_COUNT
      ensures PathOf(m) in entries' <==> PathOf(m) in entries || m == n
      ensures PathOf(m) in entries ==> entries'[PathOf(m)] == entries[PathOf(m)]
    {
      PageOnWay(m, n);
    }
    assert PathOf(n) in WayTo(n);
  }

  /** No entry becomes idle. */
  lemma WaysGrown(entries: map<Path, Pte>, entries': map<Path, Pte>, pages: set<nat>, pages': set<nat>, n: nat)
    requires Grown(entries, entries', WayTo(n)) && NoneIdle(entries, pages) && pages' == pages + {n}
    ensures NoneIdle(entries', pages')
  {
    forall p
      ensures OnWay(p, pages') <==> OnWay(p, pages) || p in WayTo(n)
    {
      OnWayMore(p, pages, pages', n);
    }
  }

  lemma OnWayMore(p: Path, pages: set<nat>, pages': set<nat>, n: nat)
    requires pages' == pages + {n}
    ensures OnWay(p, pages') <==> OnWay(p, pages) || p in WayTo(n)
  {
    if m :| m in pages && p in WayTo(m) {
      assert m in pages';
    }
    if p in WayTo(n) {
      assert n in pages';
    }
  }

  lemma Allocated(entries: map<Path, Pte>, entries': map<Path, Pte>, n: nat)
    requires n < PAGE_COUNT && Grown(entries, entries', WayTo(n)) && NoneIdle(entries, PagesOf(entries).Keys)
    ensures PathOf(n) in entries' && PagesOf(entries') == PagesOf(entries)[n := entries'[PathOf(n)]]
    ensures NoneIdle(entries', PagesOf(entries').Keys)
  {
    PagesGrown(entries, entries', n);
    WaysGrown(entries, entries', PagesOf(entries).Keys, PagesOf(entries').Keys, n);
  }

  ghost predicate AllTabled(entries: map<Path, Pte>, tables: set<Path>) {
    forall p | p in entries && Level(p) < 3 :: p in tables
  }

  /** An entry of the last level needs no table. */
  lemma LeafNeedsNone(entries: map<Path, Pte>, entries': map<Path, Pte>, tables: set<Path>, p: Path)
    requires AllTabled(entries, tables) && Grown(entries, entries', {p}) && Level(p) == 3
    ensures AllTabled(entries', tables)
  {}

  /** OutOfBounds stands for a read beyond the end of an array. */
  datatype SearchResult = NotFound | Found(pte: Pte) | OutOfBounds

  class Tree {
    const root: PageTable
    const heap: Tracker
    ghost const base: map<int, nat> // in use before the tree was created
    ghost var tables: map<Path, PageTable>
    ghost var entries: map<Path, Pte>
    ghost var nodes: set<Pte>
    ghost var owners: map<array<Pte?>, Path> // the tables the arrays belong to
    ghost var blocks: map<int, Block>

    ghost function EntryAt(p: Path): Pte?
      reads this`entries
    {
      if p in entries then entries[p] else null
    }

    ghost function TableAt(p: Path): PageTable?
      reads this`tables
    {
      if p in tables then tables[p] else null
    }

    /** Tables and entries know their places, and the pointers lead there. */
    ghost predicate Linked()
      reads this`tables, this`entries, this`nodes, this`owners, owners.Keys, nodes`pageTable
    {
      && Root in tables && tables[Root] == root
      && (forall p {:trigger tables[p]} | p in tables ::
            tables[p].path == p && tables[p].ptes.Length == ENTRIES && Level(p) < 3 && (p == Root || p in entries))
      && (forall p {:trigger tables[p]} | p in tables :: tables[p].ptes in owners && owners[tables[p].ptes] == p)
      && (forall p, i {:trigger tables[p].ptes[i]} | p in tables && 0 <= i < ENTRIES ::
            tables[p].ptes[i] == EntryAt(Child(p, i)))
      && (forall p {:trigger entries[p]} | p in entries ::
            entries[p] in nodes && entries[p].path == p && p.Child? && p.parent in tables && p.index < ENTRIES)
      && (forall p {:trigger entries[p]} | p in entries :: entries[p].pageTable == TableAt(p))
    }

    ghost predicate Valid()
      reads this, heap, owners.Keys, nodes`pageTable
    {
      Linked() && Accounts(SEAL, heap, tables, entries, blocks, base)
    }

    constructor (heap: Tracker)
      requires heap.Valid()
      modifies heap
      ensures Valid() && this.heap == heap && base == old(heap.live)
      ensures Settled() && entries == map[]
      ensures owners.Keys == {root.ptes} && fresh(root.ptes)
    {
      var t, bs := CreateRoot(heap);
      root, this.heap, base, blocks := t, heap, old(heap.live), bs;
      tables, entries, nodes, owners := map[Root := t], map[], {}, map[t.ptes := Root];
    }

    /** An entry for a slot that has none, with its block. */
    method NewEntry(ghost p: Path) returns (e: Pte)
      requires Accounts(SEAL, heap, tables, entries, blocks, base) && p !in entries
      modifies this`blocks, heap
      ensures Accounts(SEAL, heap, tables, entries[p := e], blocks, base)
      ensures fresh(e) && e.path == p && IsNew(e)
    {
      BreakAccounts(SEAL, heap, tables, entries, blocks, base);
      e := CreateEntry(heap, p, blocks, base);
      BlocksWithEntry(tables, entries, blocks, p, e);
      blocks := blocks[e.address := EntryBlock(p)];
      BreakAccounts(SEAL, heap, tables, entries[p := e], blocks, base);
    }

    /** A table for an entry that has none, with its blocks. */
    method NewTable(ghost p: Path) returns (t: PageTable)
      requires Accounts(SEAL, heap, tables, entries, blocks, base) && p !in tables
      modifies this`blocks, heap
      ensures Accounts(SEAL, heap, tables[p := t], entries, blocks, base)
      ensures fresh(t) && fresh(t.ptes) && t.path == p && t.ptes.Length == ENTRIES
      ensures forall i | 0 <= i < ENTRIES :: t.ptes[i] == null
    {
      BreakAccounts(SEAL, heap, tables, entries, blocks, base);
      t := CreateTable(heap, p, blocks, base);
      BlocksWithTable(tables, entries, blocks, p, t);
      blocks := blocks[t.address := TableBlock(p)][t.ptesAddress := EntriesBlock(p)];
      BreakAccounts(SEAL, heap, tables[p := t], entries, blocks, base);
    }

    /** ptes[i] = e. */
    method AttachEntry(table: PageTable, i: nat, e: Pte)
      requires Linked() && i < ENTRIES && table.path in tables && tables[table.path] == table
      requires e.path == Child(table.path, i) && e.path !in entries && e.pageTable == null
      modifies this`entries, this`nodes, table.ptes
      ensures Linked() && entries == old(entries)[e.path := e]
    {
      entries, nodes := entries[e.path := e], nodes + {e};
      table.ptes[i] := e;
    }

    /** if (ptes[i] == NULL) the slot gets a new entry. */
    method EnsureEntry(table: PageTable, i: nat) returns (e: Pte)
      requires Valid() && i < ENTRIES && table.path in tables && tables[table.path] == table
      modifies this`entries, this`nodes, this`blocks, heap, table.ptes
      ensures Valid() && Child(table.path, i) in entries && e == entries[Child(table.path, i)]
      ensures Grown(old(entries), entries, {Child(table.path, i)})
      ensures Child(table.path, i) in old(entries) ==> unchanged(this, heap)
      ensures Child(table.path, i) !in old(entries) ==> fresh(e) && IsNew(e)
    {
      ghost var p := Child(table.path, i);
      if table.ptes[i] == null {
        e := NewEntry(p);
        assert Linked();
        AttachEntry(table, i, e);
      } else {
        e := table.ptes[i];
      }
    }

    /** e->page_table = t. */
    method AttachTable(e: Pte, t: PageTable)
      requires Linked() && e.path in entries && entries[e.path] == e && Level(e.path) < 3
      requires e.path !in tables && t.path == e.path && t.ptes.Length == ENTRIES
      requires forall i | 0 <= i < ENTRIES :: t.ptes[i] == null
      requires t.ptes !in owners
      modifies this`tables, this`owners, e`pageTable
      ensures Linked() && tables == old(tables)[e.path := t] && owners == old(owners)[t.ptes := e.path]
    {
      tables, owners := tables[e.path := t], owners[t.ptes := e.path];
      e.pageTable := t;
    }

    /** if (page_table == NULL) the entry gets a table. */
    method EnsureTable(e: Pte) returns (t: PageTable)
      requires Valid() && e.path in entries && entries[e.path] == e && Level(e.path) < 3
      modifies this`tables, this`owners, this`blocks, heap, (if e.path in tables then {} else {e})`pageTable
      ensures Valid() && e.path in tables && t == tables[e.path]
      ensures tables == old(tables)[e.path := t]
      ensures e.path in old(tables) ==> unchanged(this, heap)
      ensures e.path !in old(tables) ==> fresh(t) && fresh(t.ptes)
      ensures owners == old(owners)[t.ptes := t.path]
    {
      if e.pageTable == null {
        t := NewTable(e.path);
        assert Linked();
        AttachTable(e, t);
      } else {
        t := e.pageTable;
      }
    }

    /** Between calls every directory entry has its table. */
    ghost predicate Complete()
      reads this`tables, this`entries
    {
      AllTabled(entries, tables.Keys)
    }

    /** And there are no entries but those on the way to a page. */
    ghost predicate Settled()
      reads this`tables, this`entries
    {
      Complete() && NoneIdle(entries, Pages().Keys)
    }

    /** The tree between calls, under a seal. */
    ghost predicate Whole(seal: nat)
      reads this, heap, owners.Keys, nodes`pageTable
    {
      if seal == 0 then Valid() && Complete() else Whole(seal - 1)
    }

    lemma {:induction false} BreakWhole(seal: nat)
      ensures Whole(seal) <==> Valid() && Complete()
    {
      if seal > 0 {
        BreakWhole(seal - 1);
      }
    }

    /** One directory level of CSC369_PageTableAllocate. */
    method Descend(table: PageTable, i: nat) returns (t: PageTable)
      requires Whole(SEAL) && i < ENTRIES
      requires table.path in tables && tables[table.path] == table && Level(table.path) < 2
      modifies this`entries, this`nodes, this`tables, this`owners, this`blocks, heap, table.ptes
      ensures Whole(SEAL)
      ensures t.path == Child(table.path, i) && t.path in tables && tables[t.path] == t && t.path in entries
              && t.ptes in owners
      ensures Grown(old(entries), entries, {t.path})
      ensures t.path in old(entries) ==> unchanged(this, heap)
      ensures t.path !in old(entries) ==> fresh(t.ptes)
      ensures fresh(owners.Keys - old(owners.Keys))
    {
      BreakWhole(SEAL);
      var e := EnsureEntry(table, i);
      t := EnsureTable(e);
      BreakWhole(SEAL);
    }

    ghost function Pages(): map<nat, Pte>
      reads this`entries
    {
      PagesOf(entries)
    }

    /** Different pages have different entries. */
    lemma PagesDistinct(n: nat, m: nat)
      requires Linked() && n in Pages() && m in Pages() && n != m
      ensures Pages()[n] != Pages()[m]
    {
      if Pages()[n] == Pages()[m] {
        SamePath(n, m);
      }
    }

    /** The table at p. */
    lemma TableFacts(p: Path)
      requires Whole(SEAL)
      ensures Root in tables && tables[Root] == root
      ensures p in tables ==>
            tables[p].path == p && tables[p].ptes in owners && (p == Root || (p in entries && p.parent in tables))
    {
      BreakWhole(SEAL);
      if p in tables && p != Root {
        assert tables[p].path == p;
        assert entries[p].path == p;
      }
    }

    /** A directory entry that has its table stands in a table. */
    lemma WayFacts(p: Path, q: Path)
      requires Whole(SEAL) && p.Child? && p.parent == Root && q.Child? && q.parent == p
      ensures Root in tables && tables[Root] == root && root.path == Root && root.ptes in owners
      ensures q in tables ==> q in entries && p in tables && p in entries
    {
      TableFacts(Root);
      TableFacts(p);
      TableFacts(q);
    }

    /** The first two levels of CSC369_PageTableAllocate: no page is affected. */
    method LastTable(pageNumber1: nat, pageNumber2: nat) returns (t: PageTable)
      requires Whole(SEAL) && pageNumber1 < ENTRIES && pageNumber2 < ENTRIES
      modifies this`entries, this`nodes, this`tables, this`owners, this`blocks, heap, owners.Keys
      ensures Whole(SEAL)
      ensures Grown(old(entries), entries, {Child(Root, pageNumber1), Child(Child(Root, pageNumber1), pageNumber2)})
      ensures t.path == Child(Child(Root, pageNumber1), pageNumber2) && t.path in tables && tables[t.path] == t
              && t.ptes in owners
      ensures t.path in old(tables) ==> unchanged(this, heap)
      ensures fresh(owners.Keys - old(owners.Keys))
    {
      ghost var p := Child(Root, pageNumber1);
      ghost var q := Child(p, pageNumber2);
      WayFacts(p, q);
      var table2 := Descend(root, pageNumber1);
      ghost var entries1 := entries;
      t := Descend(table2, pageNumber2);
      GrownTwice(old(entries), entries1, entries, {p}, {q});
      assert {p, q} == {p} + {q};
    }

    lemma HasTable(p: Path)
      requires Whole(SEAL)
      ensures p in entries ==> p.Child? && p.parent in tables
    {
      BreakWhole(SEAL);
      if p in entries {
        assert entries[p].path == p;
      }
    }

    /** Its last level. */
    method LastEntry(table: PageTable, i: nat) returns (e: Pte)
      requires Whole(SEAL) && i < ENTRIES && table.path in tables && tables[table.path] == table
              && Level(table.path) == 2
      modifies this`entries, this`nodes, this`blocks, heap, table.ptes
      ensures Whole(SEAL) && e.path == Child(table.path, i) && e.path in entries && e == entries[e.path]
      ensures Grown(old(entries), entries, {Child(table.path, i)})
      ensures Child(table.path, i) in old(entries) ==> unchanged(this, heap)
      ensures Child(table.path, i) !in old(entries) ==> fresh(e) && IsNew(e)
    {
      BreakWhole(SEAL);
      e := EnsureEntry(table, i);
      LeafNeedsNone(old(entries), entries, tables.Keys, Child(table.path, i));
      BreakWhole(SEAL);
    }

    /** CSC369_PageTableAllocate with the indices of the page. */
    method Reach(pageNumber1: nat, pageNumber2: nat, pageNumber3: nat) returns (e: Pte)
      requires Whole(SEAL) && pageNumber1 < ENTRIES && pageNumber2 < ENTRIES && pageNumber3 < ENTRIES
      modifies this`entries, this`nodes, this`tables, this`owners, this`blocks, heap, owners.Keys
      ensures Whole(SEAL)
      ensures e.path == Leaf(pageNumber1, pageNumber2, pageNumber3) && e.path in entries && entries[e.path] == e
      ensures Grown(old(entries), entries, Way(pageNumber1, pageNumber2, pageNumber3))
      ensures e.path in old(entries) ==> unchanged(this, heap)
      ensures e.path !in old(entries) ==> fresh(e) && IsNew(e)
      ensures fresh(owners.Keys - old(owners.Keys))
    {
      ghost var p := Leaf(pageNumber1, pageNumber2, pageNumber3);
      HasTable(p);
      var table3 := LastTable(pageNumber1, pageNumber2);
      ghost var entries2 := entries;
      assert p in entries2 <==> p in old(entries);
      assert Level(table3.path) == 1 + Level(Child(Root, pageNumber1));
      e := LastEntry(table3, pageNumber3);
      ghost var p1 := Child(Root, pageNumber1);
      GrownTwice(old(entries), entries2, entries, {p1, Child(p1, pageNumber2)}, {e.path});
    }

    /** The tree as its callers see it, under a seal. */
    ghost predicate Sound(seal: nat)
      reads this, heap, owners.Keys, nodes`pageTable
    {
      if seal == 0 then Valid() && Settled() else Sound(seal - 1)
    }

    lemma {:induction false} BreakSound(seal: nat)
      ensures Sound(seal) <==> Valid() && Settled()
    {
      if seal > 0 {
        BreakSound(seal - 1);
      }
    }

    /** CSC369_PageTableAllocate: the page's entry, a new one if it had none; no other changes. */
    method Allocate(va: nat) returns (e: Pte)
      requires Sound(SEAL) && va < 0x1_0000_0000_0000
      modifies this`entries, this`nodes, this`tables, this`owners, this`blocks, heap, owners.Keys
      ensures Sound(SEAL)
      ensures Pages() == old(Pages())[va / 0x1000 := e]
      ensures va / 0x1000 in old(Pages()) ==> e == old(Pages())[va / 0x1000] && unchanged(this, heap)
      ensures va / 0x1000 !in old(Pages()) ==> fresh(e) && IsNew(e)
      ensures fresh(owners.Keys - old(owners.Keys))
    {
      IndexTriple(va);
      BreakSound(SEAL);
      BreakWhole(SEAL);
      e := Reach(va / 0x10_0000_0000, va / 0x100_0000 % 0x1000, va / 0x1000 % 0x1000);
      Allocated(old(entries), entries, va / 0x1000);
      BreakWhole(SEAL);
      BreakSound(SEAL);
    }

    /** The pointers read as the ghost maps say. */
    lemma SlotIs(table: PageTable, i: nat)
      requires Linked() && table.path in tables && tables[table.path] == table && i < ENTRIES
      ensures table.ptes.Length == ENTRIES
      ensures table.ptes[i] == null <==> Child(table.path, i) !in entries
      ensures table.ptes[i] != null ==>
            table.ptes[i] == entries[Child(table.path, i)] && table.ptes[i].path == Child(table.path, i)
      ensures table.ptes[i] != null && table.ptes[i].pageTable == null ==> Child(table.path, i) !in tables
      ensures table.ptes[i] != null && table.ptes[i].pageTable != null ==>
                Child(table.path, i) in tables && table.ptes[i].pageTable == tables[Child(table.path, i)]
                && table.ptes[i].pageTable.path == Child(table.path, i)
    {
      assert table.ptes[i] == EntryAt(Child(table.path, i));
    }

    /** The walk of CSC369_PageTableSearch down to whatever third index it has computed. */
    method Walk(va: nat, pageNumber3: nat) returns (r: SearchResult)
      requires Linked() && va < 0x1_0000_0000_0000
      ensures r.OutOfBounds? <==> PathOf(va / 0x1000).parent in tables && pageNumber3 >= ENTRIES
      ensures !r.OutOfBounds? ==>
                var p := Child(PathOf(va / 0x1000).parent, pageNumber3);
                r == if p in entries then Found(entries[p]) else NotFound
    {
      IndexTriple(va);
      var pageNumber1 := va / 0x10_0000_0000;
      SlotIs(root, pageNumber1);
      var pte1 := root.ptes[pageNumber1];
      if pte1 == null {
        return NotFound;
      }
      var pageNumber2 := va / 0x100_0000 % 0x1000;
      var table2 := pte1.pageTable;
      if table2 == null {
        return NotFound;
      }
      SlotIs(table2, pageNumber2);
      var pte2 := table2.ptes[pageNumber2];
      if pte2 == null {
        return NotFound;
      }
      var table3 := pte2.pageTable;
      if table3 == null {
        return NotFound;
      }
      if pageNumber3 >= table3.ptes.Length {
        return OutOfBounds;
      }
      SlotIs(table3, pageNumber3);
      var pte3 := table3.ptes[pageNumber3];
      if pte3 == null {
        return NotFound;
      }
      return Found(pte3);
    }

    /**
     * CSC369_PageTableSearch, whose third index is out of the array's bounds when bits 24 to 35 of
     * the address are not all zero; otherwise it finds what Allocate installed.
     */
    method Search(va: nat) returns (r: SearchResult)
      requires Linked() && va < 0x1_0000_0000_0000
      ensures r.OutOfBounds? <==> PathOf(va / 0x1000).parent in tables && va / 0x100_0000 % 0x1000 != 0
      ensures !r.OutOfBounds? ==>
                r == if va / 0x1000 in Pages() then Found(Pages()[va / 0x1000]) else NotFound
      ensures va / 0x1000 in Pages() ==> (r == Found(Pages()[va / 0x1000]) <==> va / 0x100_0000 % 0x1000 == 0)
    {
      IndexTriple(va);
      SearchIndex(va);
      r := Walk(va, va / 0x1000 % 0x100_0000);
    }

    /** The same walk with the third index Allocate takes finds what Allocate installed, for every address. */
    method SearchByAllocateIndex(va: nat) returns (r: SearchResult)
      requires Linked() && va < 0x1_0000_0000_0000
      ensures r == if va / 0x1000 in Pages() then Found(Pages()[va / 0x1000]) else NotFound
    {
      IndexTriple(va);
      r := Walk(va, va / 0x1000 % 0x1000);
    }

    /** A page is allocated and then searched for: it is found exactly when bits 24 to 35 of its address are zero. */
    method AllocateThenSearch(va: nat) returns (e: Pte, r: SearchResult)
      requires Sound(SEAL) && va < 0x1_0000_0000_0000
      modifies this`entries, this`nodes, this`tables, this`owners, this`blocks, heap, owners.Keys
      ensures Sound(SEAL) && va / 0x1000 in Pages() && e == Pages()[va / 0x1000]
      ensures r == if va / 0x100_0000 % 0x1000 == 0 then Found(e) else OutOfBounds
    {
      e := Allocate(va);
      r := SearchPage(va);
    }

    /** The search for a page that has its entry. */
    method SearchPage(va: nat) returns (r: SearchResult)
      requires Sound(SEAL) && va < 0x1_0000_0000_0000 && va / 0x1000 in Pages()
      ensures r == if va / 0x100_0000 % 0x1000 == 0 then Found(Pages()[va / 0x1000]) else OutOfBounds
    {
      BreakSound(SEAL);
      PathHasTable(va / 0x1000);
      r := Search(va);
    }

    lemma PathHasTable(n: nat)
      requires Linked() && n in Pages()
      ensures PathOf(n).parent in tables
    {
      assert entries[PathOf(n)].path == PathOf(n);
    }
  }

  /** The fields of an entry. */
  datatype Fields = Fields(frameNumber: nat, swapOffset: int, valid: bool, dirty: bool, reference: bool, onSwap: bool,
                           pageTable: PageTable?)

  ghost function FieldsOf(e: Pte): Fields
    reads e
  {
    Fields(e.frameNumber, e.swapOffset, e.valid, e.dirty, e.reference, e.onSwap, e.pageTable)
  }

  /** The state CSC369_PTECreate gives an entry. */
  ghost predicate IsNew(e: Pte)
    reads e
  {
    FieldsOf(e) == Fields(0, -1, false, false, false, false, null)
  }
}
