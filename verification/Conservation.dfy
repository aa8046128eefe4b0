/** What growth takes, and what growth followed by freeing gives back. */
module Conservation {
  import opened Codec
  import opened Arith
  import opened Layouts
  import opened Partitions
  import opened Trees
  import opened Files
  import opened Volumes
  import opened PointerBlocks
  import opened Ext2
  import opened Steps
  import Allocator

  /**
   An empty file that grew to n blocks has n distinct data blocks and FileMeta distinct pointer blocks, all of them
   free before.
   */
  lemma FreshTree(e: nat, f0: set<nat>, f1: set<nat>, file: seq<Tree>, n: nat)
    requires 0 < e && ApartAll(file) && Extended(e, f0, f1, [], file, n)
    ensures |LeavesAll(file)| == n && NoDup(LeavesAll(file)) && |NodesAll(file)| == FileMeta(e, 0, n)
    ensures NodesAll(file) !! ToSet(LeavesAll(file))
    ensures f1 <= f0 && f0 - f1 == NodesAll(file) + ToSet(LeavesAll(file))
    ensures |f0| == |f1| + n + FileMeta(e, 0, n)
  {
    ApartAllFacts(file);
    BlocksAllSplit(file);
    assert BlocksAll(file) == f0 - f1;
    assert f0 == f1 + (f0 - f1);
  }

  /** Growth of any file takes as many blocks out of the free set as it adds data blocks and pointer blocks. */
  lemma ExtendedCount(e: nat, f0: set<nat>, f1: set<nat>, base: seq<Tree>, file: seq<Tree>, blocks: nat)
    requires 0 < e && ApartAll(base) && ApartAll(file) && Extended(e, f0, f1, base, file, blocks) && BlocksAll(base) !! f0
    ensures |f0| == |f1| + blocks + FileMeta(e, |base|, blocks)
  {
    hide ApartAll, BlocksAll, LeavesAll, NodeCountAll, NodesAll, FileMeta;
    ApartAllFacts(base);
    ApartAllFacts(file);
    assert f0 == f1 + (f0 - f1);
    assert |BlocksAll(base) + (f0 - f1)| == |BlocksAll(base)| + |f0 - f1|;
  }

  /** Giving the data blocks back leaves exactly the pointer blocks behind. */
  lemma Leftover(e: nat, f0: set<nat>, f1: set<nat>, file: seq<Tree>, n: nat)
    requires 0 < e && ApartAll(file) && Extended(e, f0, f1, [], file, n)
    ensures f1 + ToSet(LeavesAll(file)) == f0 - NodesAll(file)
    ensures NodesAll(file) <= f0 && |NodesAll(file)| == FileMeta(e, 0, n)
  {
    hide Extended, NodesAll, LeavesAll, ToSet, ApartAll, FileMeta;
    FreshTree(e, f0, f1, file, n);
  }

  /** Sound images with the same free set agree on bitmaps and counters, and conversely. */
  lemma SameState(L: Layout, d0: seq<Block>, g0: seq<nat>, s0: nat, d1: seq<Block>, g1: seq<nat>, s1: nat)
    requires L.Sound(d0, g0, s0) && L.Sound(d1, g1, s1)
    ensures L.FreeSet(d0) == L.FreeSet(d1) <==> L.SameBitmaps(d0, d1)
    ensures L.FreeSet(d0) == L.FreeSet(d1) ==> g0 == g1 && s0 == s1
  {
    hide Layout.FreeSet;
    if L.FreeSet(d0) == L.FreeSet(d1) {
      L.FreeSetDeterminesBitmaps(d0, d1);
      assert forall g :: 0 <= g < L.Groups() ==> g0[g] == |L.FreeIn(d0, g)| == |L.FreeIn(d1, g)| == g1[g];
    }
    if L.SameBitmaps(d0, d1) {
      L.FreeSetFrame(d0, d1);
    }
  }

  /** Bitmaps and counters are the same. */
  ghost predicate SameAccounts(L: Layout, d0: seq<Block>, g0: seq<nat>, s0: nat, d1: seq<Block>, g1: seq<nat>, s1: nat) {
    L.Ok() && L.Image(d0) && L.Image(d1) && L.SameBitmaps(d0, d1) && g0 == g1 && s0 == s1
  }

  /** Bitmaps and counters are restored exactly for files of at most 12 blocks. */
  lemma Restored(L: Layout, d0: seq<Block>, g0: seq<nat>, s0: nat, d1: seq<Block>, g1: seq<nat>, s1: nat,
                 nodes: set<nat>, n: nat)
    requires L.Sound(d0, g0, s0) && L.Sound(d1, g1, s1) && L.Entries() > 0
    requires L.FreeSet(d1) == L.FreeSet(d0) - nodes && nodes <= L.FreeSet(d0) && |nodes| == FileMeta(L.Entries(), 0, n)
    ensures s0 == s1 + FileMeta(L.Entries(), 0, n)
    ensures SameAccounts(L, d0, g0, s0, d1, g1, s1) <==> n <= 12
  {
    hide Layout.SameBitmaps, FileMeta;
    SameState(L, d0, g0, s0, d1, g1, s1);
    NoMeta(L.Entries(), n);
    SoundCount(L, d0, g0, s0);
    SoundCount(L, d1, g1, s1);
    assert L.FreeSet(d0) == L.FreeSet(d1) + nodes;
    if |nodes| == 0 {
      assert nodes == {};
    }
  }

  lemma SoundCount(L: Layout, d: seq<Block>, g: seq<nat>, s: nat)
    requires L.Sound(d, g, s)
    ensures L.Ok() && L.Image(d) && s == |L.FreeSet(d)|
  {
  }

  /** An allocated block given back restores the disk byte for byte, and every counter. */
  method AllocateAndFree(p: Partition) returns (b: Word)
    requires p.Valid()
    modifies p`groupFree, p`superFree, p.disk
    ensures p.Valid()
    ensures b == 0 <==> old(p.Free()) == {}
    ensures p.disk[..] == old(p.disk[..]) && p.groupFree == old(p.groupFree) && p.superFree == old(p.superFree)
  {
    hide Layout.Sound, Layout.FreeSet, Layout.MarkUsed, Layout.MarkFree, Layout.Ok, Layout.Image;
    FreeBlocks(p);
    LiveFactsOf(p);
    ghost var d := p.disk[..];
    b := Allocator.AllocateBlock(p);
    if b != 0 {
      LiveFactsOf(p);
      p.L.MarkFreeUndoesMarkUsed(d, b);
      var freed := Allocator.DeallocateBlock(p, b);
    }
  }

  /**
   A new file grown to n blocks and then deleted. The allocated set is the old one plus the file's pointer blocks,
   and bitmaps and counters are back to what they were exactly when there are none.
   */
  method GrowThenDelete(p: Partition, n: nat, size: Word, now: Word, ghost files: map<nat, seq<Tree>>)
    returns (ok: bool, ghost nodes: set<nat>)
    requires Live(p, files) && n in files && files[n] == [] && 0 < size
    requires p.cleared || DivUp(size, p.L.blockSize) <= 12
    requires p.L.Entries() > 0 && p.L.blockSize > 0 && p.L.sectorSize > 0
    modifies p`groupFree, p`superFree, p.disk
    ensures p.Valid()
    ensures var blocks := DivUp(size, p.L.blockSize);
            && (ok <==> |old(p.Free())| >= blocks + FileMeta(p.L.Entries(), 0, blocks) && blocks <= Room(p.L.Entries(), 0))
            && (ok ==> p.Free() == old(p.Free()) - nodes && nodes <= old(p.Free()) && |nodes| == FileMeta(p.L.Entries(), 0, blocks))
            && (ok ==> p.superFree + FileMeta(p.L.Entries(), 0, blocks) == old(p.superFree))
            && (ok ==> (SameAccounts(p.L, old(p.disk[..]), old(p.groupFree), old(p.superFree), p.disk[..], p.groupFree, p.superFree)
                        <==> blocks <= 12))
  {
    hide *;
    LiveFacts(p, files);
    p.ShapedFacts();
    LiveFile(p, files, n);
    ValidIs(p);
    ghost var d0, f0, g0, s0 := p.disk[..], p.Free(), p.groupFree, p.superFree;
    ghost var blocks := DivUp(size, p.L.blockSize);
    EmptySize(p, files, n);
    ResizableGrowth(p, files, n, size);
    GrantableIs(p.L, f0, [], blocks);
    ghost var file: seq<Tree>;
    ok, file := ResizeFile(p, n, size, files);
    nodes := NodesAll(file);
    if ok {
      ghost var files1 := files[n := file];
      LiveFile(p, files1, n);
      ResizedSize(p.L, old(Inode(p, files, n)), size, Inode(p, files1, n));
      ghost var f1 := p.Free();
      LiveIsInode(p.L, p.cleared, p.disk[..], f1, n, file);
      Leftover(p.L.Entries(), f0, f1, file, blocks);
      ExtendedLeaves(p.L.Entries(), f0, f1, [], file, blocks);
      EmptyLeaves();
      WholeList(file, blocks);
      LiveCount(p, files1, n);
      var deleted := DeleteFile(p, n, now, files1);
      LiveFacts(p, files1 - {n});
      ValidIs(p);
      Restored(p.L, d0, g0, s0, p.disk[..], p.groupFree, p.superFree, nodes, blocks);
    }
  }

  lemma EmptyLeaves()
    ensures |LeavesAll([])| == 0
  {
  }

  lemma WholeList(file: seq<Tree>, n: nat)
    requires |LeavesAll(file)| == n
    ensures LeavesAll(file)[..n] == LeavesAll(file)
  {
  }
}
