/** The records of csc369_page_table.c. */
module PageTables {

  /** Where a table or an entry stands in the tree: the indices from the root down to it. */
  datatype Path = Root | Child(parent: Path, index: nat)

  /** csc369_pte_t: an entry of the last level, or of a directory, which has a table below it. */
  class Pte {
    var frameNumber: nat
    var swapOffset: int
    var valid: bool
    var dirty: bool
    var reference: bool
    var onSwap: bool
    var pageTable: PageTable?
    const address: nat // what the allocator returned
    ghost const path: Path

    /** The initialisation in CSC369_PTECreate. */
    constructor (address: nat, ghost path: Path)
      ensures frameNumber == 0 && swapOffset == -1 && pageTable == null
      ensures !valid && !dirty && !reference && !onSwap
      ensures this.address == address && this.path == path
    {
      this.address, this.path := address, path;
      frameNumber, swapOffset := 0, -1;
      valid, dirty, reference, onSwap := false, false, false, false;
      pageTable := null;
    }
  }

  const ENTRIES: nat := 4096

  /** CSC369_PageTable: one table of the tree. */
  class PageTable {
    const ptes: array<Pte?>
    const address: nat     // of the record
    const ptesAddress: nat // of the array
    ghost const path: Path

    /** The initialisation in CSC369_PageTableCreate. */
    constructor (address: nat, ptesAddress: nat, ghost path: Path)
      ensures ptes.Length == ENTRIES && fresh(ptes)
      ensures forall i | 0 <= i < ENTRIES :: ptes[i] == null
      ensures this.address == address && this.ptesAddress == ptesAddress && this.path == path
    {
      this.address, this.ptesAddress, this.path := address, ptesAddress, path;
      ptes := new Pte?[ENTRIES](_ => null);
    }
  }
}
