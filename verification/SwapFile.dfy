/** csc369_swap.c: frames copied between physical memory and the slots of the swap file. */
module SwapFile {
  import opened Options
  import opened Machine
  import opened Bitmap
  import Paging

  class Swap {
    const swapmap: Bitmap
    const physmem: array<Byte>
    var file: seq<Byte>

    ghost predicate Valid()
      reads swapmap.words
    {
      swapmap.Valid() && (swapmap.words as object) != physmem
    }

    /** The slots in use and the bytes of the file. */
    ghost function Contents(): (s: Paging.Swap)
      requires Valid()
      reads this`file, swapmap.words
    {
      Paging.Swap(swapmap.Used(), file)
    }

    /** CSC369_SwapCreate. */
    constructor (size: nat, physmem: array<Byte>)
      ensures Valid() && this.physmem == physmem && fresh(swapmap.words) && swapmap.nbits == size
      ensures Contents() == Paging.Swap(seq(size, _ => false), [])
    {
      swapmap := new Bitmap(size);
      this.physmem := physmem;
      file := [];
    }

    /** CSC369_SwapPageIn: 0, or the number of bytes read when the file ends within the slot. */
    method PageIn(frame: nat, offset: int) returns (r: nat)
      requires Valid() && Paging.SwapAddress(frame) + FRAME_SIZE <= physmem.Length && offset >= 0
      modifies physmem
      ensures physmem[..] == Paging.ReadFrame(old(physmem[..]), Paging.SwapAddress(frame), file, offset)
      ensures r == 0 <==> offset + FRAME_SIZE <= |file| || |file| <= offset
    {
      var base := Paging.SwapAddress(frame);
      var bytesRead := 0;
      while bytesRead < FRAME_SIZE && offset + bytesRead < |file|
        invariant bytesRead <= FRAME_SIZE && (bytesRead == 0 || offset + bytesRead <= |file|)
        invariant var read := if offset + bytesRead < |file| then offset + bytesRead else |file|;
                  physmem[..] == Paging.ReadFrame(old(physmem[..]), base, file[..read], offset)
      {
        physmem[base + bytesRead] := file[offset + bytesRead];
        bytesRead := bytesRead + 1;
      }
      return if bytesRead != FRAME_SIZE then bytesRead else 0;
    }

    /** CSC369_SwapPageOut: the offset of the slot written, or CSC369_INVALID_SWAP when none is left. */
    method PageOut(frame: nat, offset: int) returns (r: int)
      requires Valid() && Paging.SwapAddress(frame) + FRAME_SIZE <= physmem.Length && offset >= INVALID_SWAP
      modifies this`file, swapmap.words
      ensures Valid()
      ensures (Contents(), r) == Paging.PageOut(old(Contents()), physmem[..], frame, offset)
    {
      var pos := offset;
      if offset == INVALID_SWAP {
        var idx := swapmap.Alloc();
        if idx == None {
          return INVALID_SWAP;
        }
        pos := idx.value * FRAME_SIZE;
      }
      var base := Paging.SwapAddress(frame);
      file := Paging.WriteFile(file, pos, physmem[base..base + FRAME_SIZE]);
      return pos;
    }
  }
}
