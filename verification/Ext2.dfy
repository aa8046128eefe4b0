/** The operations on whole files. */
module Ext2 {
  import opened Codec
  import opened Arith
  import opened Layouts
  import opened Partitions
  import opened Trees
  import opened Files
  import opened Walks
  import opened FileWalks
  import opened Inodes
  import opened Volumes
  import opened Steps
  import opened BlockList
  import opened Writing
  import opened ByteRange
  import opened ByteWrite

  /** A remainder costs one more block. */
  method BlocksFor(x: nat, size: nat) returns (k: nat)
    requires size > 0
    ensures k == DivUp(x, size)
  {
    k := x / size;
    if x % size != 0 {
      k := k + 1;
      DivMod(x, size);
      MulSucc(x / size, size);
      DivUpUnique(x, size, k);
    }
  }

  /** More blocks keep up with a greater size. */
  lemma CoverGrows(size: nat, more: nat, leaves: nat, blockSize: nat)
    requires 0 < blockSize && size <= leaves * blockSize
    ensures size + more <= (leaves + DivUp(more, blockSize)) * blockSize
  {
    DivUpBounds(more, blockSize);
    MulDistributes(leaves, DivUp(more, blockSize), blockSize);
  }

  lemma SectorsFit(size: Word, sectorSize: nat)
    requires 0 < sectorSize
    ensures DivUp(size, sectorSize) < 0x1_0000_0000
  {
    var k := DivUp(size, sectorSize);
    DivUpBounds(size, sectorSize);
    if k > size {
      MulSucc(size, sectorSize);
      MulMonotone(size + 1, k, sectorSize);
      MulMonotone(1, sectorSize, size);
    }
  }

  /** Whether there is room for this many more data blocks. */
  ghost predicate Grantable(L: Layout, free: set<nat>, file: seq<Tree>, blocks: nat)
    requires L.Entries() > 0
  {
    |free| >= blocks + FileMeta(L.Entries(), |file|, blocks) && blocks <= Room(L.Entries(), |file|)
  }

  lemma GrantableIs(L: Layout, free: set<nat>, file: seq<Tree>, blocks: nat)
    requires L.Entries() > 0
    ensures Grantable(L, free, file, blocks) <==>
            |free| >= blocks + FileMeta(L.Entries(), |file|, blocks) && blocks <= Room(L.Entries(), |file|)
  {
  }

  /** The inode has the new size and its sectors; besides these, only its block entries may differ. */
  ghost predicate ResizedTo(L: Layout, raw: seq<Byte>, size: Word, raw': seq<Byte>)
    requires |raw| >= 128 && |raw'| >= 128 && 0 < L.sectorSize
  {
    SectorsFit(size, L.sectorSize);
    raw' == Resized(raw, size, DivUp(size, L.sectorSize), IBlock(raw'))
  }

  lemma ResizedIs(L: Layout, raw: seq<Byte>, size: Word, sectors: Word, iblock: seq<Word>)
    requires |raw| >= 128 && |iblock| == 15 && 0 < L.sectorSize && sectors == DivUp(size, L.sectorSize)
    ensures ResizedTo(L, raw, size, Resized(raw, size, sectors, iblock))
    ensures ISize(Resized(raw, size, sectors, iblock)) == size && IBlock(Resized(raw, size, sectors, iblock)) == iblock
  {
    ResizedFields(raw, size, sectors, iblock);
  }

  lemma ResizedSize(L: Layout, raw: seq<Byte>, size: Word, raw': seq<Byte>)
    requires |raw| >= 128 && |raw'| >= 128 && 0 < L.sectorSize && ResizedTo(L, raw, size, raw')
    ensures ISize(raw') == size && IMode(raw') == IMode(raw)
  {
    SectorsFit(size, L.sectorSize);
    ResizedFields(raw, size, DivUp(size, L.sectorSize), IBlock(raw'));
  }

  /** Growth: new blocks first, then the inode with the new size and entries. */
  method GrowFile(p: Partition, n: nat, raw: seq<Byte>, newSize: Word, ghost files: map<nat, seq<Tree>>)
    returns (ok: bool, ghost file: seq<Tree>)
    requires Live(p, files) && n in files && raw == Inode(p, files, n) && ISize(raw) < newSize && |files[n]| <= 12
    modifies p`groupFree, p`superFree, p.disk
    ensures Live(p, files[n := file])
    ensures Step(p.L, p.cleared, old(p.disk[..]), old(p.Free()), files, p.disk[..], p.Free(), files[n := file], n)
    ensures p.L.Entries() > 0 && p.L.blockSize > 0 && p.L.sectorSize > 0
    ensures ok <==> Grantable(p.L, old(p.Free()), files[n], DivUp(newSize - ISize(raw), p.L.blockSize))
    ensures !ok ==> file == files[n] && Inode(p, files[n := file], n) == raw
    ensures ok ==> Extended(p.L.Entries(), old(p.Free()), p.Free(), files[n], file, DivUp(newSize - ISize(raw), p.L.blockSize))
    ensures Spent(p.L.Entries(), old(p.Free()), p.Free(), |files[n]|, DivUp(newSize - ISize(raw), p.L.blockSize))
    ensures HeldBefore(p.L, old(p.disk[..]), file, Data(p, files[n := file], n))
    ensures LeavesAll(files[n]) <= LeavesAll(file)
    ensures ok ==> ResizedTo(p.L, raw, newSize, Inode(p, files[n := file], n))
    ensures old(Data(p, files, n)) <= Data(p, files[n := file], n)
  {
    hide *;
    LiveFacts(p, files);
    p.ShapedFacts();
    LiveFile(p, files, n);
    ghost var d, free, base := p.disk[..], p.Free(), files[n];
    LiveIsInode(p.L, p.cleared, d, free, n, base);
    FreeBlocks(p);
    SectorsFit(newSize, p.L.sectorSize);
    var blocks: nat := BlocksFor(newSize - ISize(raw), p.L.blockSize);
    GrantableIs(p.L, free, base, blocks);
    var iblock := new Word[15](i requires 0 <= i < 15 => IBlock(raw)[i]);
    assert iblock[..] == IBlock(raw);
    ok, file := AllocateBlocks(p, iblock, blocks, base);
    ghost var d1 := p.disk[..];
    LiveFactsOf(p);
    if !ok {
      file := base;
      assert files[n := base] == files;
      GrowsLocal(p.L, d, free, d1, p.Free(), n);
      SameFiles(p.L, p.cleared, d, free, files, d1, p.Free(), n);
      PrefixKept(p.L, p.cleared, d, free, d1, p.Free(), n, base, base);
      SameContents(p.L, d, d1, base);
    } else {
      GrownGrows(p.L, d, free, d1, p.Free(), base, file, iblock[..], blocks, p.cleared);
      GrownExtended(p.L, d, free, d1, p.Free(), base, file, iblock[..], blocks, p.cleared);
      CoverGrows(ISize(raw), newSize - ISize(raw), |LeavesAll(base)|, p.L.blockSize);
      var sectors: Word := DivUp(newSize, p.L.sectorSize);
      var entries: seq<Word> := iblock[..];
      WriteInode(p, n, Resized(raw, newSize, sectors, entries));
      GrowthStep(p.L, p.cleared, d, free, files, d1, p.Free(), n, file, raw, entries, newSize, sectors, blocks);
      StoreLocal(p.L, d1, p.Free(), n, Resized(raw, newSize, sectors, entries));
      ResizedIs(p.L, raw, newSize, sectors, entries);
      PrefixKept(p.L, p.cleared, d, free, p.disk[..], p.Free(), n, base, file);
      GrownContents(p.L, p.cleared, d, free, d1, p.Free(), n, base, file, Resized(raw, newSize, sectors, entries), entries, blocks);
    }
    StepKeepsLive(p.L, p.cleared, d, free, files, p.disk[..], p.Free(), files[n := file], n);
    LiveIs(p, files[n := file]);
    LiveFile(p, files[n := file], n);
  }

  /** A file whose blocks are as they were has the contents it had. */
  lemma SameContents(L: Layout, d0: seq<Block>, d1: seq<Block>, file: seq<Tree>)
    requires |d0| == |d1| && forall b :: b in BlocksAll(file) ==> b < |d0| && d1[b] == d0[b]
    ensures forall i :: 0 <= i < |LeavesAll(file)| ==> LeavesAll(file)[i] < |d1|
    ensures HeldBefore(L, d0, file, Contents(L, d1, file))
  {
    hide BlocksAll, LeavesAll;
    LeavesInBlocks(file);
    forall i | 0 <= i < |LeavesAll(file)| ensures LeavesAll(file)[i] < |d0| && d0[LeavesAll(file)[i]] == d1[LeavesAll(file)[i]] {
      assert LeavesAll(file)[i] in LeavesAll(file);
    }
    ConcatFrame(d0, d1, LeavesAll(file));
  }

  lemma HeldNow(p: Partition, files: map<nat, seq<Tree>>, n: nat)
    requires Live(p, files) && n in files
    ensures HeldBefore(p.L, p.disk[..], files[n], Data(p, files, n))
  {
    hide AllLive, Contents;
    LiveFile(p, files, n);
  }

  lemma LiveFactsOf(p: Partition)
    requires p.Valid()
    ensures p.Shaped() && p.L.Ok() && p.L.Image(p.disk[..])
  {
  }

  /**
   Shrinking. The first blocks of the file are the ones given back, although its entries keep pointing at them;
   the files stay live exactly when less than a whole block is cut off.
   */
  method ShrinkFile(p: Partition, n: nat, raw: seq<Byte>, newSize: Word, ghost files: map<nat, seq<Tree>>)
    returns (ok: bool)
    requires Live(p, files) && n in files && raw == Inode(p, files, n) && newSize < ISize(raw)
    requires p.L.blockSize > 0 && p.L.sectorSize > 0
    requires (p.cleared || |files[n]| <= 12) && Sized(files[n], DivUp(ISize(raw), p.L.blockSize))
    modifies p`groupFree, p`superFree, p.disk
    ensures ok && p.Valid() && p.L.InodesOk() && IsInode(p.L, n)
    ensures var k := (ISize(raw) - newSize) / p.L.blockSize;
            && 0 <= k <= |LeavesAll(files[n])| && p.Free() == old(p.Free()) + ToSet(LeavesAll(files[n])[..k])
            && (k == 0 ==> Live(p, files)
                           && Step(p.L, p.cleared, old(p.disk[..]), old(p.Free()), files, p.disk[..], p.Free(), files, n)
                           && Data(p, files, n) == old(Data(p, files, n)))
            && (k > 0 ==> p.Shaped() && forall file: seq<Tree> :: !FileLive(p.L, p.cleared, p.disk[..], p.Free(), n, file))
    ensures ResizedTo(p.L, raw, newSize, InodeAt(p.L, p.disk[..], n)) && IBlock(InodeAt(p.L, p.disk[..], n)) == IBlock(raw)
  {
    hide *;
    LiveFacts(p, files);
    p.ShapedFacts();
    LiveFile(p, files, n);
    ghost var d, free, file := p.disk[..], p.Free(), files[n];
    LiveIsInode(p.L, p.cleared, d, free, n, file);
    LiveEnded(p.L, p.cleared, d, free, n, file);
    LeavesFreeable(p.L, free, file);
    SectorsFit(newSize, p.L.sectorSize);
    CutFits(ISize(raw), newSize, p.L.blockSize);
    var blocks: nat := DivUp(ISize(raw), p.L.blockSize);
    var cut: nat := (ISize(raw) - newSize) / p.L.blockSize;
    SizedCount(file, blocks);
    var list: array<Word>;
    ok, list := LoadBlockList(p, IBlock(raw), blocks, file);
    ListPrefix(LeavesAll(file), blocks, cut, list[..]);
    var freed := DeallocateBlocks(p, list, cut);
    ghost var d1 := p.disk[..];
    LiveFactsOf(p);
    ok := freed == cut;
    FirstPart(LeavesAll(file), cut, free);
    var sectors: Word := DivUp(newSize, p.L.sectorSize);
    WriteInode(p, n, Resized(raw, newSize, sectors, IBlock(raw)));
    LiveFactsOf(p);
    ResizedIs(p.L, raw, newSize, sectors, IBlock(raw));
    StoreLocal(p.L, d1, p.Free(), n, Resized(raw, newSize, sectors, IBlock(raw)));
    if cut == 0 {
      CutNothing(p.L, p.cleared, d, free, files, d1, p.Free(), n, Resized(raw, newSize, sectors, IBlock(raw)));
      LiveIs(p, files);
      LiveFile(p, files, n);
    } else {
      FirstBlock(p.L, p.cleared, d, free, n, file);
      FirstFreed(LeavesAll(file), cut);
      forall other: seq<Tree> ensures !FileLive(p.L, p.cleared, p.disk[..], p.Free(), n, other) {
        NotLive(p.L, p.cleared, p.disk[..], p.Free(), n, other);
      }
    }
  }

  lemma LeavesFreeable(L: Layout, free: set<nat>, file: seq<Tree>)
    requires ApartAll(file) && Owned(L, free, file)
    ensures NoDup(LeavesAll(file)) && ToSet(LeavesAll(file)) !! free
    ensures forall k :: 0 <= k < |LeavesAll(file)| ==> L.IsBlock(LeavesAll(file)[k]) && !L.Reserved(LeavesAll(file)[k])
    ensures ToSet(LeavesAll(file)) <= BlocksAll(file)
  {
    hide Layout.Reserved, Layout.IsBlock;
    ApartAllFacts(file);
    BlocksAllSplit(file);
    forall k | 0 <= k < |LeavesAll(file)| ensures LeavesAll(file)[k] in BlocksAll(file) {
      assert LeavesAll(file)[k] in LeavesAll(file);
      assert LeavesAll(file)[k] in ToSet(LeavesAll(file));
    }
  }

  lemma ListPrefix(ls: seq<nat>, n: nat, k: nat, list: seq<Word>)
    requires k <= n <= |ls| && list == ls[..n]
    ensures k <= |list| && list[..k] == ls[..k]
    ensures forall i :: 0 <= i < |list| ==> list[i] == ls[i]
  {
    assert forall i :: 0 <= i < n ==> list[i] == ls[..n][i];
  }

  lemma FirstPart(ls: seq<nat>, k: nat, free: set<nat>)
    requires k <= |ls| && NoDup(ls) && ToSet(ls) !! free
    ensures NoDup(ls[..k]) && ToSet(ls[..k]) !! free && ToSet(ls[..k]) <= ToSet(ls)
    ensures k == 0 ==> ToSet(ls[..k]) == {}
  {
    forall b | b in ToSet(ls[..k]) ensures b in ToSet(ls) {
      var i :| 0 <= i < k && ls[..k][i] == b;
      assert ls[i] in ls;
    }
  }

  lemma FirstFreed(ls: seq<nat>, k: nat)
    requires 0 < k <= |ls|
    ensures ls[0] in ToSet(ls[..k])
  {
    assert ls[..k][0] in ls[..k];
  }

  /** A whole number of blocks cut off is no more than the file has. */
  lemma CutFits(size: nat, newSize: nat, blockSize: nat)
    requires 0 < blockSize && newSize < size
    ensures 0 <= (size - newSize) / blockSize <= DivUp(size, blockSize)
  {
    var q := (size - newSize) / blockSize;
    DivMod(size - newSize, blockSize);
    DivUpBounds(size, blockSize);
    if q > DivUp(size, blockSize) {
      MulMonotone(DivUp(size, blockSize) + 1, q, blockSize);
      MulSucc(DivUp(size, blockSize), blockSize);
    }
  }

  /** No block given back: only the size and the sectors of the inode changed. */
  lemma CutNothing(L: Layout, cleared: bool, d: seq<Block>, f: set<nat>, files: map<nat, seq<Tree>>, d1: seq<Block>,
                   f1: set<nat>,
                   n: nat, raw: seq<Byte>)
    requires AllLive(L, cleared, d, f, files) && n in files && IsInode(L, n) && |raw| == L.inodeSize && L.Image(d1)
    requires BitmapsOnly(L, d, d1) && f1 == f
    requires IBlock(raw) == IBlock(InodeAt(L, d, n)) && ISize(raw) <= ISize(InodeAt(L, d, n))
    ensures AllLive(L, cleared, StoreInode(L, d1, n, raw), f1, files)
    ensures Step(L, cleared, d, f, files, StoreInode(L, d1, n, raw), f1, files, n)
    ensures forall i :: 0 <= i < |LeavesAll(files[n])| ==> LeavesAll(files[n])[i] < |d| == |StoreInode(L, d1, n, raw)|
    ensures Contents(L, StoreInode(L, d1, n, raw), files[n]) == Contents(L, d, files[n])
  {
    hide *;
    LiveAll(L, cleared, d, f, files, n);
    var d2 := StoreInode(L, d1, n, raw);
    LiveIsInode(L, cleared, d, f, n, files[n]);
    ReleaseLocal(L, d, f, d1, f1, n, {});
    SameFiles(L, cleared, d, f, files, d1, f1, n);
    StepKeepsLive(L, cleared, d, f, files, d1, f1, files, n);
    RewriteStep(L, cleared, d1, f1, files, n, raw);
    LocalTrans(L, d, f, d1, f1, d2, f1, n, {}, {});
    StepTrans(L, cleared, d, f, files, d1, f1, files, d2, f1, files, n);
    StepKeepsLive(L, cleared, d, f, files, d2, f1, files, n);
    LiveAll(L, cleared, d2, f1, files, n);
    PrefixKept(L, cleared, d, f, d2, f1, n, files[n], files[n]);
    LiveLeaves(L, cleared, d, f, n, files[n]);
    LiveLeaves(L, cleared, d2, f1, n, files[n]);
  }

  lemma LiveAll(L: Layout, cleared: bool, d: seq<Block>, free: set<nat>, files: map<nat, seq<Tree>>, n: nat)
    requires AllLive(L, cleared, d, free, files) && n in files
    ensures L.InodesOk() && L.Image(d) && FileLive(L, cleared, d, free, n, files[n]) && IsInode(L, n)
  {
  }

  /** Files of at most 12 blocks use direct entries only; the list of all blocks of a file can be loaded. */
  lemma LiveCount(p: Partition, files: map<nat, seq<Tree>>, n: nat)
    requires Live(p, files) && n in files
    ensures |LeavesAll(files[n])| <= 12 <==> |files[n]| <= 12
    ensures Sized(files[n], |LeavesAll(files[n])|)
  {
    hide Live, Stored, Sized, Inode, Data, Partition.Shaped, Layout.InodesOk;
    LiveFile(p, files, n);
    StoredCounts(p.L, p.disk[..], IBlock(Inode(p, files, n)), files[n]);
    SizedWhole(files[n], |LeavesAll(files[n])|);
  }

  lemma StoredCounts(L: Layout, d: seq<Block>, iblock: seq<Word>, file: seq<Tree>)
    requires Stored(L, d, iblock, file) && L.Entries() > 0
    ensures |LeavesAll(file)| <= 12 <==> |file| <= 12
  {
    DirectReadable(L, d, iblock, file);
    if 12 < |file| {
      AllPrefix(d, file, 12);
      LeavesAt(file, 12);
      ShapeLeaves(L.Entries(), Height(12), file[12]);
    }
  }

  /** Every demand of ext2_resize_file on the file it is given. */
  ghost predicate Resizable(p: Partition, files: map<nat, seq<Tree>>, n: nat, newSize: Word)
    requires Live(p, files) && n in files && p.L.blockSize > 0
    reads p, p.disk
  {
    var size := ISize(Inode(p, files, n));
    && (size < newSize ==> |files[n]| <= 12)
    && (newSize < size ==> (p.cleared || |files[n]| <= 12) && Sized(files[n], DivUp(size, p.L.blockSize)))
  }

  /** ext2_resize_file: the partition stays valid; its files stay live unless a whole block or more is cut off. */
  method ResizeFile(p: Partition, n: nat, newSize: Word, ghost files: map<nat, seq<Tree>>)
    returns (ok: bool, ghost file: seq<Tree>)
    requires Live(p, files) && n in files && p.L.Entries() > 0 && p.L.blockSize > 0 && p.L.sectorSize > 0
    requires Resizable(p, files, n, newSize)
    modifies p`groupFree, p`superFree, p.disk
    ensures p.Valid() && p.L.InodesOk() && IsInode(p.L, n)
    ensures var raw := old(Inode(p, files, n)); var size := ISize(raw);
            if size < newSize then
              var blocks := DivUp(newSize - size, p.L.blockSize);
              && (ok <==> Grantable(p.L, old(p.Free()), files[n], blocks))
              && Spent(p.L.Entries(), old(p.Free()), p.Free(), |files[n]|, blocks)
              && (ok ==> Extended(p.L.Entries(), old(p.Free()), p.Free(), files[n], file, blocks)
                         && ResizedTo(p.L, raw, newSize, InodeAt(p.L, p.disk[..], n)))
              && (!ok ==> file == files[n] && InodeAt(p.L, p.disk[..], n) == raw)
            else
              var cut := (size - newSize) / p.L.blockSize;
              && ok && file == files[n] && 0 <= cut <= |LeavesAll(file)|
              && p.Free() == old(p.Free()) + ToSet(LeavesAll(file)[..cut])
              && (size == newSize ==> p.disk[..] == old(p.disk[..]))
              && (newSize < size ==> ResizedTo(p.L, raw, newSize, InodeAt(p.L, p.disk[..], n)))
    ensures LeavesAll(files[n]) <= LeavesAll(file)
    ensures if ISize(old(Inode(p, files, n))) - newSize < p.L.blockSize then
              && Live(p, files[n := file])
              && Step(p.L, p.cleared, old(p.disk[..]), old(p.Free()), files, p.disk[..], p.Free(), files[n := file], n)
              && old(Data(p, files, n)) <= Data(p, files[n := file], n)
              && HeldBefore(p.L, old(p.disk[..]), file, Data(p, files[n := file], n))
            else
              p.Shaped() && forall other: seq<Tree> :: !FileLive(p.L, p.cleared, p.disk[..], p.Free(), n, other)
  {
    hide *;
    LiveFacts(p, files);
    p.ShapedFacts();
    LiveFile(p, files, n);
    ResizableIs(p, files, n, newSize);
    HeldNow(p, files, n);
    assert files[n := files[n]] == files;
    var raw: seq<Byte> := ReadInode(p, n);
    file := files[n];
    if ISize(raw) == newSize {
      StepNothing(p.L, p.cleared, p.disk[..], p.Free(), files, n);
      CutOf(0, p.L.blockSize, LeavesAll(file));
      return true, file;
    }
    if ISize(raw) > newSize {
      CutOf(ISize(raw) - newSize, p.L.blockSize, LeavesAll(file));
      ok := ShrinkFile(p, n, raw, newSize, files);
      LiveFactsOf(p);
    } else {
      ok, file := GrowFile(p, n, raw, newSize, files);
      LiveFacts(p, files[n := file]);
      LiveFile(p, files[n := file], n);
    }
  }

  lemma CutOf(bytes: nat, blockSize: nat, ls: seq<nat>)
    requires 0 < blockSize
    ensures bytes / blockSize == 0 <==> bytes < blockSize
    ensures bytes == 0 ==> ToSet(ls[..bytes / blockSize]) == {}
  {
    DivMod(bytes, blockSize);
  }

  lemma ResizableIs(p: Partition, files: map<nat, seq<Tree>>, n: nat, newSize: Word)
    requires Live(p, files) && n in files && p.L.blockSize > 0 && Resizable(p, files, n, newSize)
    ensures var size := ISize(Inode(p, files, n));
            && (size < newSize ==> |files[n]| <= 12)
            && (newSize < size ==> (p.cleared || |files[n]| <= 12) && Sized(files[n], DivUp(size, p.L.blockSize)))
  {
  }

  /** A live file as the byte layer sees it. */
  lemma LiveWritable(p: Partition, files: map<nat, seq<Tree>>, n: nat)
    requires Live(p, files) && n in files
    ensures Writable(p, n, files[n]) && Mounted(p, n, files[n]) && FileBytes(p, n, files[n]) == Data(p, files, n)
    ensures p.L.blockSize > 0 && p.L.InodesOk()
  {
    LiveFile(p, files, n);
    LiveIsInode(p.L, p.cleared, p.disk[..], p.Free(), n, files[n]);
    WritableFacts(p, n, files[n]);
  }

  /** What the byte layer did to a live file is a step. */
  lemma WrittenLive(p: Partition, files: map<nat, seq<Tree>>, n: nat, d0: seq<Block>, groupFree: seq<nat>,
                    superFree: nat, free: set<nat>)
    requires p.Shaped() && p.L.Sound(d0, groupFree, superFree) && free == p.L.FreeSet(d0)
    requires p.groupFree == groupFree && p.superFree == superFree
    requires AllLive(p.L, p.cleared, d0, free, files) && n in files && Confined(d0, p.disk[..], LeavesAll(files[n]))
    ensures Live(p, files) && p.Free() == free && p.disk.Length == |d0|
    ensures Step(p.L, p.cleared, d0, free, files, p.disk[..], p.Free(), files, n)
    ensures IsInode(p.L, n) && Inode(p, files, n) == InodeAt(p.L, d0, n)
  {
    hide *;
    LiveAll(p.L, p.cleared, d0, free, files, n);
    LiveIsInode(p.L, p.cleared, d0, free, n, files[n]);
    OwnedFacts(p.L, free, files[n]);
    p.ShapedFacts();
    ConfinedSound(p.L, d0, p.disk[..], groupFree, superFree, files[n]);
    ValidIs(p);
    DataStep(p.L, p.cleared, d0, free, files, p.disk[..], n);
    StepKeepsLive(p.L, p.cleared, d0, free, files, p.disk[..], free, files, n);
    LiveIs(p, files);
    LiveFile(p, files, n);
  }

  lemma OwnedFacts(L: Layout, free: set<nat>, file: seq<Tree>)
    requires Owned(L, free, file)
    ensures forall b :: b in BlocksAll(file) ==> L.IsBlock(b) && !L.Reserved(b) && b !in free
  {
  }

  lemma ValidIs(p: Partition)
    requires p.Shaped()
    ensures p.Valid() <==> p.L.Sound(p.disk[..], p.groupFree, p.superFree)
    ensures p.Free() == p.L.FreeSet(p.disk[..])
    ensures p.disk.Length == p.L.blockCount
  {
  }

  /** Every demand of ext2_write_file on the file, the range and the source buffer. */
  ghost predicate WriteDomain(p: Partition, files: map<nat, seq<Tree>>, n: nat, room: nat, size: nat, skip: nat)
    requires Live(p, files) && n in files && p.L.blockSize > 0
    reads p, p.disk
  {
    var s := Remainder(skip, p.L.blockSize);
    QuotientRemainder(skip, p.L.blockSize);
    && skip + size < 0x1_0000_0000
    && (ISize(Inode(p, files, n)) < skip + size ==> |files[n]| <= 12)
    && (s == 0 || 2 * s <= p.L.blockSize)
    && Needed(p.L.blockSize, s, size, DivUp(size, p.L.blockSize)) <= room
  }

  lemma WriteDomainIs(p: Partition, files: map<nat, seq<Tree>>, n: nat, room: nat, size: nat, skip: nat)
    requires Live(p, files) && n in files && p.L.blockSize > 0 && WriteDomain(p, files, n, room, size, skip)
    ensures var s := Remainder(skip, p.L.blockSize);
            && s < p.L.blockSize
            && skip + size < 0x1_0000_0000
            && (ISize(Inode(p, files, n)) < skip + size ==> |files[n]| <= 12)
            && (s == 0 || 2 * s <= p.L.blockSize)
            && Needed(p.L.blockSize, s, size, DivUp(size, p.L.blockSize)) <= room
  {
    QuotientRemainder(skip, p.L.blockSize);
  }

  lemma InDomain(p: Partition, files: map<nat, seq<Tree>>, n: nat, room: nat, size: nat, skip: nat)
    requires Live(p, files) && n in files && p.L.blockSize > 0
    requires var s := Remainder(skip, p.L.blockSize);
             && s < p.L.blockSize
             && skip + size < 0x1_0000_0000
             && (ISize(Inode(p, files, n)) < skip + size ==> |files[n]| <= 12)
             && (s == 0 || 2 * s <= p.L.blockSize)
             && Needed(p.L.blockSize, s, size, DivUp(size, p.L.blockSize)) <= room
    ensures WriteDomain(p, files, n, room, size, skip)
  {
  }

  lemma EmptySize(p: Partition, files: map<nat, seq<Tree>>, n: nat)
    requires Live(p, files) && n in files && files[n] == []
    ensures ISize(Inode(p, files, n)) == 0
  {
  }

  /** Whether a transfer of bytes is carried out, and moves any. */
  ghost predicate Transfers(blockSize: nat, skip: nat, size: nat)
    requires blockSize > 0
  {
    var k, s, blocks := Quotient(skip, blockSize), Remainder(skip, blockSize), DivUp(size, blockSize);
    Reach(blockSize, k, s, size, blocks) && Extent(blockSize, s, size, blocks) > 0
  }

  /** The data of a file after a write, carried out or given up, given its data once the file was long enough. */
  ghost predicate DataWritten(blockSize: nat, skip: nat, size: nat, source: seq<Byte>, grown: seq<Byte>,
                              data: seq<Byte>)
  {
    && 0 < blockSize
    && (var k, s, blocks := Quotient(skip, blockSize), Remainder(skip, blockSize), DivUp(size, blockSize);
        WriteFacts(blockSize, skip, s, size, blocks);
        && (s == 0 || 2 * s <= blockSize)
        && skip + Extent(blockSize, s, size, blocks) <= |grown| && Needed(blockSize, s, size, blocks) <= |source|
        && data == WriteOutcome(grown, skip, source, blockSize, k, s, size, blocks))
  }

  /** What a write makes of the inode and the data of its file, given the free blocks it finds. */
  ghost predicate WriteResult(L: Layout, free: set<nat>, file: seq<Tree>, source: seq<Byte>, size: nat, skip: nat,
                              ok: bool,
                              raw: seq<Byte>, data: seq<Byte>, raw': seq<Byte>, data': seq<Byte>, grown: seq<Byte>)
    requires |raw| >= 128 && |raw'| >= 128 && 0 < L.sectorSize && 0 < L.blockSize && 0 < L.Entries()
  {
    var size0 := ISize(raw);
    var granted := size0 < skip + size ==> Grantable(L, free, file, DivUp(skip + size - size0, L.blockSize));
    && skip + size < 0x1_0000_0000
    && (ok <==> !IsDirectory(raw) && granted && Transfers(L.blockSize, skip, size))
    && data <= grown && (skip + size <= size0 ==> grown == data)
    && if !IsDirectory(raw) && granted then
         && DataWritten(L.blockSize, skip, size, source, grown, data')
         && if size0 < skip + size then ResizedTo(L, raw, skip + size, raw') else raw' == raw
       else
         raw' == raw && data' == data
  }

  lemma WriteResultIs(L: Layout, free: set<nat>, file: seq<Tree>, source: seq<Byte>, size: nat, skip: nat, ok: bool,
                         raw: seq<Byte>, data: seq<Byte>, raw': seq<Byte>, data': seq<Byte>, grown: seq<Byte>)
    requires |raw| >= 128 && |raw'| >= 128 && 0 < L.sectorSize && 0 < L.blockSize && 0 < L.Entries() && skip + size < 0x1_0000_0000
    requires data <= grown && (skip + size <= ISize(raw) ==> grown == data)
    requires var granted := ISize(raw) < skip + size ==> Grantable(L, free, file, DivUp(skip + size - ISize(raw), L.blockSize));
             && (ok <==> !IsDirectory(raw) && granted && Transfers(L.blockSize, skip, size))
             && (!IsDirectory(raw) && granted ==> DataWritten(L.blockSize, skip, size, source, grown, data'))
             && (!(!IsDirectory(raw) && granted) ==> data' == data)
             && (IsDirectory(raw) || !granted || skip + size <= ISize(raw) ==> raw' == raw)
             && (!IsDirectory(raw) && granted && ISize(raw) < skip + size ==> ResizedTo(L, raw, skip + size, raw'))
    ensures WriteResult(L, free, file, source, size, skip, ok, raw, data, raw', data', grown)
  {
  }

  /** The same, clause by clause. */
  lemma WriteResultFacts(L: Layout, free: set<nat>, file: seq<Tree>, source: seq<Byte>, size: nat, skip: nat, ok: bool,
                         raw: seq<Byte>, data: seq<Byte>, raw': seq<Byte>, data': seq<Byte>, grown: seq<Byte>)
    requires |raw| >= 128 && |raw'| >= 128 && 0 < L.sectorSize && 0 < L.blockSize && 0 < L.Entries()
    requires WriteResult(L, free, file, source, size, skip, ok, raw, data, raw', data', grown)
    ensures skip + size < 0x1_0000_0000
    ensures data <= grown && (skip + size <= ISize(raw) ==> grown == data)
    ensures var granted := ISize(raw) < skip + size ==> Grantable(L, free, file, DivUp(skip + size - ISize(raw), L.blockSize));
             && (ok <==> !IsDirectory(raw) && granted && Transfers(L.blockSize, skip, size))
             && (!IsDirectory(raw) && granted ==> DataWritten(L.blockSize, skip, size, source, grown, data'))
             && (!(!IsDirectory(raw) && granted) ==> data' == data)
             && (IsDirectory(raw) || !granted || skip + size <= ISize(raw) ==> raw' == raw)
             && (!IsDirectory(raw) && granted && ISize(raw) < skip + size ==> ResizedTo(L, raw, skip + size, raw'))
  {
  }

  /** The transfer of a write to a file that is long enough. */
  method WriteData(p: Partition, n: nat, source: seq<Byte>, size: nat, skip: nat, ghost files: map<nat, seq<Tree>>)
    returns (ok: bool)
    requires Live(p, files) && n in files && p.L.blockSize > 0
    requires WriteDomain(p, files, n, |source|, size, skip) && skip + size <= ISize(Inode(p, files, n))
    modifies p.disk
    ensures Live(p, files) && p.Free() == old(p.Free())
    ensures Step(p.L, p.cleared, old(p.disk[..]), old(p.Free()), files, p.disk[..], p.Free(), files, n)
    ensures Inode(p, files, n) == old(Inode(p, files, n))
    ensures DataWritten(p.L.blockSize, skip, size, source, old(Data(p, files, n)), Data(p, files, n))
    ensures ok <==> Transfers(p.L.blockSize, skip, size)
  {
    hide *;
    LiveFacts(p, files);
    LiveFile(p, files, n);
    LiveWritable(p, files, n);
    WriteDomainIs(p, files, n, |source|, size, skip);
    ValidIs(p);
    ghost var d0, f0, g0, s0, data := p.disk[..], p.Free(), p.groupFree, p.superFree, Data(p, files, n);
    var r := WriteInodeBytes(p, n, source, size, skip, files[n]);
    WritableFacts(p, n, files[n]);
    WrittenLive(p, files, n, d0, g0, s0, f0);
    LiveWritable(p, files, n);
    LiveFile(p, files, n);
    TransferOutcome(p.L.blockSize, skip, size, source, data, Data(p, files, n), r);
    ok := r.Done? && r.count > 0;
  }

  /**
   ext2_write_file, once the path is resolved. The file is first made long enough; a failure there changes no file.
   `grown` is the data of the file at that point.
   */
  method WriteFile(p: Partition, n: nat, source: seq<Byte>, size: nat, skip: nat, ghost files: map<nat, seq<Tree>>)
    returns (ok: bool, ghost file: seq<Tree>, ghost grown: seq<Byte>)
    requires Live(p, files) && n in files && p.L.Entries() > 0 && p.L.blockSize > 0 && p.L.sectorSize > 0
    requires WriteDomain(p, files, n, |source|, size, skip)
    modifies p`groupFree, p`superFree, p.disk
    ensures Live(p, files[n := file])
    ensures Step(p.L, p.cleared, old(p.disk[..]), old(p.Free()), files, p.disk[..], p.Free(), files[n := file], n)
    ensures WriteResult(p.L, old(p.Free()), files[n], source, size, skip, ok, old(Inode(p, files, n)), old(Data(p, files, n)),
                        Inode(p, files[n := file], n), Data(p, files[n := file], n), grown)
    ensures |grown| == |Data(p, files[n := file], n)| && HeldBefore(p.L, old(p.disk[..]), file, grown)
    ensures var size0 := ISize(old(Inode(p, files, n)));
            if !IsDirectory(old(Inode(p, files, n))) && size0 < skip + size then
              Spent(p.L.Entries(), old(p.Free()), p.Free(), |files[n]|, DivUp(skip + size - size0, p.L.blockSize))
            else p.Free() == old(p.Free())
    ensures var size0, size1 := ISize(old(Inode(p, files, n))), ISize(Inode(p, files[n := file], n));
            && size0 <= size1 && |LeavesAll(file)| == |LeavesAll(files[n])| + DivUp(size1 - size0, p.L.blockSize)
            && (size1 == size0 ==> file == files[n])
  {
    hide *;
    LiveFacts(p, files);
    LiveFile(p, files, n);
    WriteDomainIs(p, files, n, |source|, size, skip);
    assert files[n := files[n]] == files;
    ghost var d0, f0 := p.disk[..], p.Free();
    ghost var data := Data(p, files, n);
    file, grown := files[n], data;
    HeldNow(p, files, n);
    NoBlocks(p.L.blockSize);
    StepNothing(p.L, p.cleared, d0, f0, files, n);
    var raw: seq<Byte> := ReadInode(p, n);
    if IsDirectory(raw) {
      WriteResultIs(p.L, f0, files[n], source, size, skip, false, raw, data, raw, data, grown);
      return false, file, grown;
    }
    if skip + size > ISize(raw) {
      var newSize: Word := skip + size;
      ResizableGrowth(p, files, n, newSize);
      ok, file := ResizeFile(p, n, newSize, files);
      LiveFile(p, files[n := file], n);
      grown := Data(p, files[n := file], n);
      if !ok {
        SameLength(data, grown);
        WriteResultIs(p.L, f0, files[n], source, size, skip, false, raw, data, Inode(p, files[n := file], n), grown, grown);
        return false, file, grown;
      }
      ResizedSize(p.L, raw, newSize, Inode(p, files[n := file], n));
      ExtendedLeaves(p.L.Entries(), f0, p.Free(), files[n], file, DivUp(newSize - ISize(raw), p.L.blockSize));
    }
    ghost var files1 := files[n := file];
    assert files1[n] == file;
    ghost var d1, f1 := p.disk[..], p.Free();
    LiveFacts(p, files1);
    LiveFile(p, files1, n);
    InDomain(p, files1, n, |source|, size, skip);
    ok := WriteData(p, n, source, size, skip, files1);
    LiveFile(p, files1, n);
    StepTrans(p.L, p.cleared, d0, f0, files, d1, f1, files1, p.disk[..], p.Free(), files1, n);
    WriteResultIs(p.L, f0, files[n], source, size, skip, ok, raw, data, Inode(p, files1, n), Data(p, files1, n), grown);
  }

  lemma NoBlocks(size: nat)
    requires 0 < size
    ensures DivUp(0, size) == 0
  {
  }

  lemma ResizableGrowth(p: Partition, files: map<nat, seq<Tree>>, n: nat, newSize: Word)
    requires Live(p, files) && n in files && p.L.blockSize > 0
    requires ISize(Inode(p, files, n)) <= newSize && (ISize(Inode(p, files, n)) < newSize ==> |files[n]| <= 12)
    ensures Resizable(p, files, n, newSize)
  {
  }

  lemma SameLength(s: seq<Byte>, t: seq<Byte>)
    requires s <= t
    ensures |s| == |t| ==> s == t
  {
  }

  lemma TransferOutcome(blockSize: nat, skip: nat, size: nat, source: seq<Byte>, grown: seq<Byte>, data: seq<Byte>,
                        r: IoResult)
    requires 0 < blockSize
    requires var k, s, blocks := Quotient(skip, blockSize), Remainder(skip, blockSize), DivUp(size, blockSize);
             && (WriteFacts(blockSize, skip, s, size, blocks); true)
             && (s == 0 || 2 * s <= blockSize)
             && (WriteFacts(blockSize, skip, s, size, blocks); Needed(blockSize, s, size, blocks) <= |source|)
             && skip + Extent(blockSize, s, size, blocks) <= |grown|
             && r == (if Reach(blockSize, k, s, size, blocks) then Done(Extent(blockSize, s, size, blocks)) else Failed)
             && (WriteFacts(blockSize, skip, s, size, blocks);
                 data == WriteOutcome(grown, skip, source, blockSize, k, s, size, blocks))
    ensures r.Done? && r.count > 0 <==> Transfers(blockSize, skip, size)
    ensures DataWritten(blockSize, skip, size, source, grown, data)
  {
    hide WriteOutcome, DivUp, Quotient, Remainder, Needed, Reach;
  }

  /** Every demand of ext2_read_file on the buffer: room for whole blocks where the read runs over its range. */
  ghost predicate ReadDomain(p: Partition, files: map<nat, seq<Tree>>, n: nat, room: nat, size: nat, skip: nat)
    requires Live(p, files) && n in files && p.L.blockSize > 0
    reads p, p.disk
  {
    !IsDirectory(Inode(p, files, n)) && skip + size <= ISize(Inode(p, files, n)) ==>
      Extent(p.L.blockSize, Remainder(skip, p.L.blockSize), size, DivUp(size, p.L.blockSize)) <= room
  }

  lemma ReadDomainIs(p: Partition, files: map<nat, seq<Tree>>, n: nat, room: nat, size: nat, skip: nat)
    requires Live(p, files) && n in files && p.L.blockSize > 0
    ensures ReadDomain(p, files, n, room, size, skip) <==>
            (!IsDirectory(Inode(p, files, n)) && skip + size <= ISize(Inode(p, files, n)) ==>
               Extent(p.L.blockSize, Remainder(skip, p.L.blockSize), size, DivUp(size, p.L.blockSize)) <= room)
  {
  }

  /** ext2_read_file, once the path is resolved. */
  method ReadFile(p: Partition, n: nat, buffer: array<Byte>, size: nat, skip: nat, ghost files: map<nat, seq<Tree>>)
    returns (ok: bool)
    requires Live(p, files) && n in files && p.L.blockSize > 0
    requires ReadDomain(p, files, n, buffer.Length, size, skip)
    requires skip + size < 0x1_0000_0000_0000_0000
    modifies buffer
    ensures ok <==> !IsDirectory(Inode(p, files, n)) && skip + size <= ISize(Inode(p, files, n)) && Transfers(p.L.blockSize, skip, size)
    ensures ok ==> size <= buffer.Length && skip + size <= |Data(p, files, n)|
                   && buffer[..size] == Data(p, files, n)[skip..skip + size]
  {
    hide *;
    LiveFacts(p, files);
    LiveFile(p, files, n);
    LiveWritable(p, files, n);
    ReadDomainIs(p, files, n, buffer.Length, size, skip);
    var raw: seq<Byte> := ReadInode(p, n);
    if IsDirectory(raw) {
      return false;
    }
    if skip + size > ISize(raw) {
      return false;
    }
    ghost var before := buffer[..];
    ghost var s, blocks := Remainder(skip, p.L.blockSize), DivUp(size, p.L.blockSize);
    var r := ReadInodeBytes(p, n, buffer, 0, size, skip, files[n]);
    TransfersIs(p.L.blockSize, skip, size);
    if r.Done? {
      ExtentCovers(p.L.blockSize, s, size, blocks, skip);
      ReadPrefix(before, Data(p, files, n), skip, size, r.count);
    }
    ok := r.Done? && r.count > 0;
  }

  lemma TransfersIs(blockSize: nat, skip: nat, size: nat)
    requires blockSize > 0
    ensures Transfers(blockSize, skip, size) <==>
            && Reach(blockSize, Quotient(skip, blockSize), Remainder(skip, blockSize), size, DivUp(size, blockSize))
            && Extent(blockSize, Remainder(skip, blockSize), size, DivUp(size, blockSize)) > 0
  {
  }

  lemma ExtentCovers(blockSize: nat, s: nat, size: nat, blocks: nat, skip: nat)
    requires 0 < blockSize && s == Remainder(skip, blockSize) && blocks == DivUp(size, blockSize)
    ensures size <= Extent(blockSize, s, size, blocks)
  {
    QuotientRemainder(skip, blockSize);
  }

  lemma ReadPrefix(before: seq<Byte>, data: seq<Byte>, skip: nat, size: nat, count: nat)
    requires size <= count <= |before| && skip + count <= |data|
    ensures Splice(before, 0, data[skip..skip + count])[..size] == data[skip..skip + size]
  {
  }

  /** ext2_initialize_inode and ext2_write_inode for an inode number that was handed out. */
  method CreateInode(p: Partition, n: nat, mode: int, uid: int, gid: int, now: Word, unique: Word,
                     ghost files: map<nat, seq<Tree>>)
    requires Live(p, files) && p.L.InodesOk() && IsInode(p.L, n) && n !in files
    requires 0 <= mode < 0x1_0000 && 0 <= uid < 0x1_0000 && 0 <= gid < 0x1_0000
    modifies p.disk
    ensures Live(p, files[n := []])
    ensures Step(p.L, p.cleared, old(p.disk[..]), old(p.Free()), files, p.disk[..], p.Free(), files[n := []], n)
    ensures p.Free() == old(p.Free())
    ensures Inode(p, files[n := []], n) == Fresh(old(InodeAt(p.L, p.disk[..], n)), mode, uid, gid, now, unique)
    ensures FreshInode(Inode(p, files[n := []], n), mode, uid, gid, now, unique)
    ensures p.Shaped() && p.disk[..] == StoreInode(p.L, old(p.disk[..]), n, Inode(p, files[n := []], n))
    ensures var raw := Inode(p, files[n := []], n);
            IMode(raw) == mode && ISize(raw) == 0 && ISectors(raw) == 0 && IBlock(raw) == seq(15, _ => 0)
    ensures Data(p, files[n := []], n) == []
  {
    hide Live, Layout.Ok, Layout.InodesOk, Layout.Image, Layout.Sound, Layout.FreeSet, FileLive, AllLive, Step, Fresh, IBlock, InodeAt,
         FreshInode, HoldsInode, KeepsOthers, StoreInode, IsInode, FileShape, Maps, Contents;
    LiveFacts(p, files);
    ghost var d0, f0 := p.disk[..], p.Free();
    var raw: seq<Byte> := ReadInode(p, n);
    var empty: seq<Byte> := Fresh(raw, mode, uid, gid, now, unique);
    FreshFields(raw, mode, uid, gid, now, unique);
    WriteInode(p, n, empty);
    FreshStep(p.L, p.cleared, d0, f0, files, n, empty);
    StoreLocal(p.L, d0, f0, n, empty);
    StepKeepsLive(p.L, p.cleared, d0, f0, files, p.disk[..], p.Free(), files[n := []], n);
    LiveIs(p, files[n := []]);
    LiveFile(p, files[n := []], n);
  }

  /** ext2_delete_file_blocks: every block that the size of the file calls for is given back. */
  method DeleteFileBlocks(p: Partition, n: nat, ghost files: map<nat, seq<Tree>>) returns (ok: bool)
    requires Live(p, files) && n in files && p.L.blockSize > 0
    requires (p.cleared || |files[n]| <= 12) && Sized(files[n], DivUp(ISize(Inode(p, files, n)), p.L.blockSize))
    modifies p`groupFree, p`superFree, p.disk
    ensures ok && p.Valid() && BitmapsOnly(p.L, old(p.disk[..]), p.disk[..])
    ensures var blocks := DivUp(ISize(old(Inode(p, files, n))), p.L.blockSize);
            blocks <= |LeavesAll(files[n])| && p.Free() == old(p.Free()) + ToSet(LeavesAll(files[n])[..blocks])
    ensures p.Free() <= old(p.Free()) + BlocksAll(files[n])
  {
    hide *;
    LiveFacts(p, files);
    p.ShapedFacts();
    LiveFile(p, files, n);
    ghost var d, free, file := p.disk[..], p.Free(), files[n];
    LiveIsInode(p.L, p.cleared, d, free, n, file);
    LiveEnded(p.L, p.cleared, d, free, n, file);
    LeavesFreeable(p.L, free, file);
    var raw: seq<Byte> := ReadInode(p, n);
    var blocks: nat := DivUp(ISize(raw), p.L.blockSize);
    SizedCount(file, blocks);
    var list: array<Word>;
    ok, list := LoadBlockList(p, IBlock(raw), blocks, file);
    ListPrefix(LeavesAll(file), blocks, blocks, list[..]);
    var freed := DeallocateBlocks(p, list, blocks);
    FirstPart(LeavesAll(file), blocks, free);
    ok := freed == blocks;
  }

  /** ext2_delete_file, once the path is resolved and up to the directory entry: the data blocks, then the inode. */
  method DeleteFile(p: Partition, n: nat, now: Word, ghost files: map<nat, seq<Tree>>) returns (ok: bool)
    requires Live(p, files) && n in files && p.L.blockSize > 0
    requires (p.cleared || |files[n]| <= 12) && Sized(files[n], DivUp(ISize(Inode(p, files, n)), p.L.blockSize))
    modifies p`groupFree, p`superFree, p.disk
    ensures ok && Live(p, files - {n})
    ensures Step(p.L, p.cleared, old(p.disk[..]), old(p.Free()), files, p.disk[..], p.Free(), files - {n}, n)
    ensures var blocks := DivUp(ISize(old(Inode(p, files, n))), p.L.blockSize);
            blocks <= |LeavesAll(files[n])| && p.Free() == old(p.Free()) + ToSet(LeavesAll(files[n])[..blocks])
    ensures p.Shaped() && p.L.InodesOk() && IsInode(p.L, n) && InodeAt(p.L, p.disk[..], n) == Dead(old(Inode(p, files, n)), now)
  {
    hide *;
    LiveFacts(p, files);
    LiveFile(p, files, n);
    ghost var d, free := p.disk[..], p.Free();
    ok := DeleteFileBlocks(p, n, files);
    ghost var d1 := p.disk[..];
    LiveFactsOf(p);
    ReleaseLocal(p.L, d, free, d1, p.Free(), n, BlocksAll(files[n]));
    var raw: seq<Byte> := ReadInode(p, n);
    WriteInode(p, n, Dead(raw, now));
    LiveFactsOf(p);
    StoreLocal(p.L, d1, p.Free(), n, Dead(raw, now));
    GoneStep(p.L, p.cleared, d, free, files, d1, p.Free(), n, Dead(raw, now));
    StepKeepsLive(p.L, p.cleared, d, free, files, p.disk[..], p.Free(), files - {n}, n);
    LiveIs(p, files - {n});
  }
}
