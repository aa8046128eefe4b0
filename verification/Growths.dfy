/** Repeated growth of one file within its direct entries. */
module Growths {
  import opened Codec
  import opened Arith
  import opened Layouts
  import opened Partitions
  import opened Trees
  import opened Files
  import opened FileWalks
  import opened Inodes
  import opened Volumes
  import opened Steps
  import opened Ext2
  import Conservation
  import PointerBlocks

  /** Growing in two steps takes at most one block more than growing at once, and never fewer. */
  lemma SplitGrowth(a: nat, b: nat, size: nat)
    requires 0 < size && a <= b
    ensures DivUp(b, size) <= DivUp(a, size) + DivUp(b - a, size) <= DivUp(b, size) + 1
  {
    var x, y, z := DivUp(a, size), DivUp(b - a, size), DivUp(b, size);
    DivUpBounds(a, size);
    DivUpBounds(b - a, size);
    DivUpBounds(b, size);
    MulDistributes(x, y, size);
    if x + y < z {
      MulSucc(x + y, size);
      MulMonotone(x + y + 1, z, size);
    }
    if z + 1 < x + y {
      MulSucc(z, size);
      MulSucc(z + 1, size);
      MulMonotone(z + 2, x + y, size);
    }
  }

  function Last(size: Word, sizes: seq<Word>): Word {
    if sizes == [] then size else sizes[|sizes| - 1]
  }

  /** The sizes grow, starting above the given one. */
  predicate Increasing(size: Word, sizes: seq<Word>)
    decreases |sizes|
  {
    sizes != [] ==> Increasing(size, sizes[..|sizes| - 1]) && Last(size, sizes[..|sizes| - 1]) < sizes[|sizes| - 1]
  }

  /** The blocks that growing through these sizes allocates. */
  function Allocated(size: Word, sizes: seq<Word>, blockSize: nat): nat
    requires 0 < blockSize && Increasing(size, sizes)
    decreases |sizes|
  {
    if sizes == [] then 0
    else
      var k := |sizes| - 1;
      Allocated(size, sizes[..k], blockSize) + DivUp(sizes[k] - Last(size, sizes[..k]), blockSize)
  }

  /** Never too few blocks, and at most one too many for each growth. */
  lemma {:induction false} AllocatedBounds(size: Word, sizes: seq<Word>, blockSize: nat)
    requires 0 < blockSize && Increasing(size, sizes)
    ensures DivUp(Last(size, sizes), blockSize) <= DivUp(size, blockSize) + Allocated(size, sizes, blockSize)
    ensures DivUp(size, blockSize) + Allocated(size, sizes, blockSize) <= DivUp(Last(size, sizes), blockSize) + |sizes|
    decreases |sizes|
  {
    if sizes != [] {
      var k := |sizes| - 1;
      AllocatedBounds(size, sizes[..k], blockSize);
      SplitGrowth(Last(size, sizes[..k]), sizes[k], blockSize);
    }
  }

  lemma {:induction false} IncreasingPrefix(size: Word, sizes: seq<Word>, i: nat)
    requires Increasing(size, sizes) && i <= |sizes|
    ensures Increasing(size, sizes[..i])
    decreases |sizes|
  {
    if i < |sizes| {
      IncreasingPrefix(size, sizes[..|sizes| - 1], i);
      assert sizes[..|sizes| - 1][..i] == sizes[..i];
    } else {
      assert sizes[..i] == sizes;
    }
  }

  lemma AllocatedStep(size: Word, sizes: seq<Word>, blockSize: nat, i: nat)
    requires 0 < blockSize && Increasing(size, sizes) && i < |sizes|
    ensures Increasing(size, sizes[..i]) && Increasing(size, sizes[..i + 1])
    ensures Last(size, sizes[..i]) < sizes[i] == Last(size, sizes[..i + 1])
    ensures Allocated(size, sizes[..i + 1], blockSize) ==
            Allocated(size, sizes[..i], blockSize) + DivUp(sizes[i] - Last(size, sizes[..i]), blockSize)
  {
    IncreasingPrefix(size, sizes, i);
    IncreasingPrefix(size, sizes, i + 1);
    assert sizes[..i + 1][..i] == sizes[..i];
  }

  lemma {:induction false} AllocatedPrefix(size: Word, sizes: seq<Word>, blockSize: nat, i: nat)
    requires 0 < blockSize && Increasing(size, sizes) && i <= |sizes|
    ensures Increasing(size, sizes[..i]) && Allocated(size, sizes[..i], blockSize) <= Allocated(size, sizes, blockSize)
    decreases |sizes| - i
  {
    if i < |sizes| {
      AllocatedPrefix(size, sizes, blockSize, i + 1);
      AllocatedStep(size, sizes, blockSize, i);
    } else {
      assert sizes[..i] == sizes;
    }
  }

  /** A file of at most 12 blocks: its entries are its blocks, then zeroes. */
  lemma DirectEntries(p: Partition, files: map<nat, seq<Tree>>, n: nat)
    requires Live(p, files) && n in files
    ensures |LeavesAll(files[n])| <= 12 <==> |files[n]| <= 12
    ensures |files[n]| <= 12 ==>
              forall k :: 0 <= k < 15 ==> (IBlock(Inode(p, files, n))[k] != 0 <==> k < |LeavesAll(files[n])|)
  {
    hide Live, Inode, Data, Partition.Shaped, Layout.InodesOk;
    LiveFile(p, files, n);
    LiveCount(p, files, n);
    var file := files[n];
    DirectReadable(p.L, p.disk[..], IBlock(Inode(p, files, n)), file);
    LiveIsInode(p.L, p.cleared, p.disk[..], p.Free(), n, file);
    if |file| <= 12 {
      forall k | 0 <= k < |file| ensures IBlock(Inode(p, files, n))[k] != 0 {
        AllAt([], file, k);
        assert file[k].block in Blocks(file[k]);
      }
    }
  }

  /** One growth within the direct entries: it works exactly when there are enough free blocks, and takes as many. */
  lemma DirectGrowth(L: Layout, free: set<nat>, file: seq<Tree>, blocks: nat)
    requires L.Entries() > 0 && |file| + blocks <= 12
    ensures Grantable(L, free, file, blocks) <==> |free| >= blocks
    ensures FileMeta(L.Entries(), |file|, blocks) == 0
  {
    PointerBlocks.DirectMeta(L.Entries(), |file|, blocks);
    PointerBlocks.DirectRoom(L.Entries(), |file|);
  }

  lemma DirectCount(p: Partition, files: map<nat, seq<Tree>>, n: nat)
    requires Live(p, files) && n in files && |files[n]| <= 12
    ensures |LeavesAll(files[n])| == |files[n]|
    ensures ApartAll(files[n]) && BlocksAll(files[n]) !! p.Free()
  {
    hide Live, Inode, Data, Partition.Shaped, Layout.InodesOk;
    LiveFile(p, files, n);
    DirectReadable(p.L, p.disk[..], IBlock(Inode(p, files, n)), files[n]);
    LiveIsInode(p.L, p.cleared, p.disk[..], p.Free(), n, files[n]);
    OwnedFacts(p.L, p.Free(), files[n]);
  }

  lemma NoneAllocated(size: Word, sizes: seq<Word>, blockSize: nat)
    requires 0 < blockSize
    ensures Increasing(size, sizes[..0]) && Allocated(size, sizes[..0], blockSize) == 0 && Last(size, sizes[..0]) == size
  {
  }

  /**
   Growing a file through increasing sizes, as long as that works: as far as the free blocks last. Its nonzero entries
   stay a prefix of i_block, never fewer than its size calls for, and at most one more for every growth.
   */
  method GrowInSteps(p: Partition, n: nat, sizes: seq<Word>, ghost files: map<nat, seq<Tree>>)
    returns (done: nat, ghost file: seq<Tree>)
    requires Live(p, files) && n in files && p.L.Entries() > 0 && p.L.blockSize > 0 && p.L.sectorSize > 0
    requires var size := ISize(Inode(p, files, n));
             Increasing(size, sizes) && |LeavesAll(files[n])| + Allocated(size, sizes, p.L.blockSize) <= 12
    requires |LeavesAll(files[n])| == DivUp(ISize(Inode(p, files, n)), p.L.blockSize)
    modifies p`groupFree, p`superFree, p.disk
    ensures done <= |sizes| && Live(p, files[n := file])
    ensures var raw := Inode(p, files[n := file], n);
            && ISize(raw) == Last(ISize(old(Inode(p, files, n))), sizes[..done])
            && DivUp(ISize(raw), p.L.blockSize) <= |LeavesAll(file)| <= DivUp(ISize(raw), p.L.blockSize) + done
            && forall k :: 0 <= k < 15 ==> (IBlock(raw)[k] != 0 <==> k < |LeavesAll(file)|)
    ensures var size := ISize(old(Inode(p, files, n)));
            && Increasing(size, sizes[..done]) && Allocated(size, sizes[..done], p.L.blockSize) <= |old(p.Free())|
            && (done < |sizes| ==>
                  Increasing(size, sizes[..done + 1]) && |old(p.Free())| < Allocated(size, sizes[..done + 1], p.L.blockSize))
  {
    hide *;
    LiveFacts(p, files);
    p.ShapedFacts();
    LiveFile(p, files, n);
    DirectEntries(p, files, n);
    assert files[n := files[n]] == files;
    file, done := files[n], 0;
    ghost var size, f := ISize(Inode(p, files, n)), p.Free();
    NoneAllocated(size, sizes, p.L.blockSize);
    AllocatedPrefix(size, sizes, p.L.blockSize, 0);
    while done < |sizes|
      invariant done <= |sizes| && Live(p, files[n := file]) && Increasing(size, sizes[..done])
      invariant ISize(Inode(p, files[n := file], n)) == Last(size, sizes[..done])
      invariant |LeavesAll(file)| == DivUp(size, p.L.blockSize) + Allocated(size, sizes[..done], p.L.blockSize) <= 12
      invariant |file| <= 12 && p.Shaped() && |f| == |p.Free()| + Allocated(size, sizes[..done], p.L.blockSize)
    {
      ghost var now := files[n := file];
      assert now[n] == file;
      LiveFacts(p, now);
      LiveFile(p, now, n);
      AllocatedStep(size, sizes, p.L.blockSize, done);
      AllocatedPrefix(size, sizes, p.L.blockSize, done + 1);
      ResizableGrowth(p, now, n, sizes[done]);
      ghost var f0, raw := p.Free(), Inode(p, now, n);
      ghost var blocks := DivUp(sizes[done] - ISize(raw), p.L.blockSize);
      DirectCount(p, now, n);
      DirectGrowth(p.L, f0, file, blocks);
      var ok: bool;
      ghost var grown: seq<Tree>;
      ok, grown := ResizeFile(p, n, sizes[done], now);
      LiveFacts(p, now[n := grown]);
      LiveFile(p, now[n := grown], n);
      assert now[n := grown] == files[n := grown];
      if !ok {
        break;
      }
      ResizedSize(p.L, raw, sizes[done], Inode(p, files[n := grown], n));
      ExtendedLeaves(p.L.Entries(), f0, p.Free(), file, grown, blocks);
      DirectEntries(p, files[n := grown], n);
      DirectCount(p, files[n := grown], n);
      Conservation.ExtendedCount(p.L.Entries(), f0, p.Free(), file, grown, blocks);
      file := grown;
      done := done + 1;
    }
    AllocatedBounds(size, sizes[..done], p.L.blockSize);
    DirectEntries(p, files[n := file], n);
  }
}
