/** A mounted partition: the disk, the in-memory free counters, and single-block transfers. */
module Partitions {
  import opened Codec
  import opened Layouts

  /** Result of a transfer: the number of blocks moved, or one of the failure codes. */
  datatype IoResult = Done(count: nat) | Failed

  class Partition {
    const L: Layout
    /** Whether malloc happens to hand out cleared memory. */
    const cleared: bool
    const disk: array<Block>
    var groupFree: seq<nat>   // bg_free_blocks_count of each group
    var superFree: nat        // s_free_blocks_count

    constructor (layout: Layout, image: array<Block>, clearedMemory: bool, groupCounts: seq<nat>, superCount: nat)
      ensures L == layout && disk == image && cleared == clearedMemory
      ensures groupFree == groupCounts && superFree == superCount
    {
      L, disk, cleared := layout, image, clearedMemory;
      groupFree, superFree := groupCounts, superCount;
    }

    ghost predicate Shaped()
      reads this, disk
    {
      L.Ok() && L.Image(disk[..])
    }

    lemma ShapedFacts()
      requires Shaped()
      ensures L.Ok() && L.Image(disk[..]) && disk.Length == L.blockCount
      ensures L.Entries() > 0 && 4 * L.Entries() == L.blockSize
      ensures forall b :: 0 <= b < disk.Length ==> |disk[b]| == L.blockSize
      ensures !L.IsBlock(0) && forall b: nat :: L.IsBlock(b) ==> b < disk.Length
    {
    }

    ghost function Free(): set<nat>
      requires Shaped()
      reads this, disk
    {
      L.FreeSet(disk[..])
    }

    ghost predicate Valid()
      reads this, disk
    {
      Shaped() && L.Sound(disk[..], groupFree, superFree)
    }

    /** The words a fresh one-block buffer holds. */
    method Malloc() returns (words: seq<Word>)
      requires L.Ok()
      ensures |words| == L.Entries()
      ensures cleared ==> forall i :: 0 <= i < |words| ==> words[i] == 0
    {
      words := seq(L.Entries(), _ => 0);
      if !cleared {
        words := *;
        if |words| != L.Entries() {
          words := seq(L.Entries(), _ => 0xFFFF_FFFF);
        }
      }
    }

    /**
     Block 0 is refused. Another number reaches the block at its 32-bit address; a failed or refused read leaves the
     buffer.
     */
    method ReadBlock(b: nat, buffer: Block) returns (r: IoResult, data: Block)
      requires Shaped()
      requires |buffer| == L.blockSize
      ensures |data| == L.blockSize
      ensures b == 0 ==> r == Done(0) && data == buffer
      ensures b > 0 ==> if L.Address(b) < L.blockCount then r == Done(1) && data == disk[L.Address(b)] else r == Failed && data == buffer
      ensures L.IsBlock(b) ==> r == Done(1) && data == disk[b]
    {
      hide Layout.Address;
      if b > 0 {
        if b < L.blockCount {
          L.AddressOfBlock(b);
        }
        var at := L.Address(b);
        if at >= disk.Length {
          return Failed, buffer;
        }
        return Done(1), disk[at];
      }
      return Done(0), buffer;
    }

    /** Block 0 is refused. Another number reaches the block at its 32-bit address. */
    method WriteBlock(b: nat, source: Block) returns (r: IoResult)
      requires Shaped()
      requires |source| == L.blockSize
      modifies disk
      ensures Shaped()
      ensures b == 0 ==> r == Done(0) && disk[..] == old(disk[..])
      ensures b > 0 ==> if L.Address(b) < L.blockCount then r == Done(1) && disk[..] == old(disk[..])[L.Address(b) := source]
                        else r == Failed && disk[..] == old(disk[..])
      ensures L.IsBlock(b) ==> r == Done(1) && disk[..] == old(disk[..])[b := source]
    {
      hide Layout.Address;
      if b > 0 {
        if b < L.blockCount {
          L.AddressOfBlock(b);
        }
        var at := L.Address(b);
        if at >= disk.Length {
          return Failed;
        }
        disk[at] := source;
        return Done(1);
      }
      return Done(0);
    }
  }
}
