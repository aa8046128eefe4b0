/** How growth, inode writes, data writes and block releases are steps of the whole machine. */
module Steps {
  import opened Codec
  import opened Layouts
  import opened Trees
  import opened Builder
  import opened Files
  import opened FileWalks
  import opened Inodes
  import opened Volumes
  import opened Writing
  import opened BlockList
  import opened ByteWrite
  import opened Walks

  lemma LocalTrans(L: Layout, d0: seq<Block>, f0: set<nat>, d1: seq<Block>, f1: set<nat>, d2: seq<Block>, f2: set<nat>,
                   n: nat, mine: set<nat>, more: set<nat>)
    requires Local(L, d0, f0, d1, f1, n, mine) && Local(L, d1, f1, d2, f2, n, more) && more <= f0 + mine
    ensures Local(L, d0, f0, d2, f2, n, mine)
  {
    hide InodeAt, Layout.Ok, Layout.Reserved;
  }

  lemma LocalWider(L: Layout, d0: seq<Block>, f0: set<nat>, d1: seq<Block>, f1: set<nat>, n: nat, mine: set<nat>,
                   more: set<nat>)
    requires Local(L, d0, f0, d1, f1, n, mine) && mine <= more
    ensures Local(L, d0, f0, d1, f1, n, more)
  {
    hide InodeAt, Layout.Ok, Layout.Reserved;
  }

  /** Growth touches bitmaps and blocks it took from the free set, no inode. */
  lemma GrowsLocal(L: Layout, d0: seq<Block>, f0: set<nat>, d1: seq<Block>, f1: set<nat>, n: nat)
    requires L.InodesOk() && L.Image(d0) && L.Image(d1) && Grows(L, d0, f0, d1, f1)
    requires forall b :: b in f0 ==> !L.Reserved(b)
    ensures Local(L, d0, f0, d1, f1, n, {})
    ensures forall m :: IsInode(L, m) ==> InodeAt(L, d1, m) == InodeAt(L, d0, m)
  {
    forall m | IsInode(L, m) ensures InodeAt(L, d1, m) == InodeAt(L, d0, m) {
      SlotInside(L, m);
    }
  }

  /** An inode write touches that inode's slot. */
  lemma StoreLocal(L: Layout, d: seq<Block>, f: set<nat>, n: nat, raw: seq<Byte>)
    requires L.InodesOk() && L.Image(d) && IsInode(L, n) && |raw| == L.inodeSize
    ensures Local(L, d, f, StoreInode(L, d, n, raw), f, n, {})
    ensures InodeAt(L, StoreInode(L, d, n, raw), n) == raw
    ensures forall b :: 0 <= b < |d| && !L.Reserved(b) ==> StoreInode(L, d, n, raw)[b] == d[b]
  {
    SlotInside(L, n);
    forall m | IsInode(L, m) ensures InodeAt(L, StoreInode(L, d, n, raw), m) == if m == n then raw else InodeAt(L, d, m) {
      InodeRoundTrip(L, d, n, raw, m);
    }
  }

  /** A data write touches leaves. */
  lemma ConfinedLocal(L: Layout, d0: seq<Block>, f: set<nat>, d1: seq<Block>, n: nat, file: seq<Tree>)
    requires L.InodesOk() && L.Image(d0) && L.Image(d1) && Confined(d0, d1, LeavesAll(file))
    requires forall b :: b in BlocksAll(file) ==> !L.Reserved(b)
    ensures Local(L, d0, f, d1, f, n, BlocksAll(file))
    ensures forall m :: IsInode(L, m) ==> InodeAt(L, d1, m) == InodeAt(L, d0, m)
  {
    LeavesInBlocks(file);
    forall m | IsInode(L, m) ensures InodeAt(L, d1, m) == InodeAt(L, d0, m) {
      SlotInside(L, m);
    }
  }

  /** Freeing blocks touches bitmaps. */
  lemma ReleaseLocal(L: Layout, d0: seq<Block>, f0: set<nat>, d1: seq<Block>, f1: set<nat>, n: nat, mine: set<nat>)
    requires L.InodesOk() && L.Image(d0) && L.Image(d1) && BitmapsOnly(L, d0, d1) && f1 <= f0 + mine
    ensures Local(L, d0, f0, d1, f1, n, mine)
    ensures forall m :: IsInode(L, m) ==> InodeAt(L, d1, m) == InodeAt(L, d0, m)
  {
    forall m | IsInode(L, m) ensures InodeAt(L, d1, m) == InodeAt(L, d0, m) {
      SlotInside(L, m);
    }
  }

  /** The step that changes nothing about the files themselves. */
  lemma SameFiles(L: Layout, cleared: bool, d0: seq<Block>, f0: set<nat>, files: map<nat, seq<Tree>>, d1: seq<Block>,
                  f1: set<nat>, n: nat)
    requires AllLive(L, cleared, d0, f0, files) && n in files
    requires Local(L, d0, f0, d1, f1, n, {}) && InodeAt(L, d1, n) == InodeAt(L, d0, n)
    ensures Step(L, cleared, d0, f0, files, d1, f1, files, n)
    ensures FileLive(L, cleared, d1, f1, n, files[n])
    ensures forall b :: b in BlocksAll(files[n]) ==> b < |d0| && d1[b] == d0[b]
  {
    hide FileShape, ApartAll, Maps, EndedAll;
    LocalWider(L, d0, f0, d1, f1, n, {}, Mine(files, n));
    assert FileLive(L, cleared, d0, f0, n, files[n]);
    FileFrame(L, cleared, d0, f0, d1, f1, n, files[n]);
    assert files.Keys + {n} == files.Keys;
  }

  /** Grown trees outside the inode tables are still there after an inode write. */
  lemma GrownStored(L: Layout, cleared: bool, d1: seq<Block>, d2: seq<Block>, iblock: seq<Word>, file: seq<Tree>)
    requires |d1| == |d2| && Maps(d1, iblock, file) && (cleared ==> EndedAll(d1, file))
    requires forall b :: 0 <= b < |d1| && !L.Reserved(b) ==> d2[b] == d1[b]
    requires forall b :: b in BlocksAll(file) ==> !L.Reserved(b)
    ensures Maps(d2, iblock, file) && (cleared ==> EndedAll(d2, file))
  {
    hide Layout.Reserved;
    BlocksAllSplit(file);
    RepAllFrame(d1, d2, file);
  }

  /** Growth that succeeded, once the inode with the new size and entries is written. */
  lemma GrownLive(L: Layout, cleared: bool, d0: seq<Block>, f0: set<nat>, d1: seq<Block>, f1: set<nat>, n: nat,
                  base: seq<Tree>, file: seq<Tree>, raw: seq<Byte>, iblock: seq<Word>, size: Word, sectors: Word,
                  blocks: nat)
    requires L.InodesOk() && L.Image(d0) && L.Image(d1) && FileLive(L, cleared, d0, f0, n, base)
    requires Grown(L, L.Entries(), cleared, d0, f0, d1, f1, base, file, iblock, blocks)
    requires forall b :: b in f0 ==> L.IsBlock(b) && !L.Reserved(b)
    requires |raw| == L.inodeSize && |iblock| == 15 && size <= |LeavesAll(file)| * L.blockSize
    ensures FileLive(L, cleared, StoreInode(L, d1, n, Resized(raw, size, sectors, iblock)), f1, n, file)
    ensures BlocksAll(file) <= BlocksAll(base) + f0
  {
    hide FileShape, ApartAll, RepAll, EndedAll, BlocksAll, Layout.Ok, Layout.Reserved, Layout.IsBlock, InodeAt, StoreInode, Resized, Local;
    var raw' := Resized(raw, size, sectors, iblock);
    var d2 := StoreInode(L, d1, n, raw');
    ResizedFields(raw, size, sectors, iblock);
    StoreLocal(L, d1, f1, n, raw');
    assert Owned(L, f1, file);
    GrownStored(L, cleared, d1, d2, iblock, file);
  }

  /** Growth and the inode write together are one step. */
  lemma GrowthStep(L: Layout, cleared: bool, d0: seq<Block>, f0: set<nat>, files: map<nat, seq<Tree>>,
                   d1: seq<Block>, f1: set<nat>,
                   n: nat, file: seq<Tree>, raw: seq<Byte>, iblock: seq<Word>, size: Word, sectors: Word, blocks: nat)
    requires AllLive(L, cleared, d0, f0, files) && n in files && L.Image(d1)
    requires Grown(L, L.Entries(), cleared, d0, f0, d1, f1, files[n], file, iblock, blocks)
    requires forall b :: b in f0 ==> L.IsBlock(b) && !L.Reserved(b)
    requires |raw| == L.inodeSize && |iblock| == 15 && size <= |LeavesAll(file)| * L.blockSize
    ensures IsInode(L, n)
    ensures Step(L, cleared, d0, f0, files, StoreInode(L, d1, n, Resized(raw, size, sectors, iblock)), f1, files[n := file], n)
    ensures FileLive(L, cleared, StoreInode(L, d1, n, Resized(raw, size, sectors, iblock)), f1, n, file)
    ensures Local(L, d0, f0, StoreInode(L, d1, n, Resized(raw, size, sectors, iblock)), f1, n, {})
  {
    hide FileLive, Grown, InodeAt, StoreInode, Layout.Ok, Layout.Reserved;
    var raw' := Resized(raw, size, sectors, iblock);
    LiveIsInode(L, cleared, d0, f0, n, files[n]);
    GrownLive(L, cleared, d0, f0, d1, f1, n, files[n], file, raw, iblock, size, sectors, blocks);
    GrownGrows(L, d0, f0, d1, f1, files[n], file, iblock, blocks, cleared);
    GrowsLocal(L, d0, f0, d1, f1, n);
    StoreLocal(L, d1, f1, n, raw');
    LocalTrans(L, d0, f0, d1, f1, StoreInode(L, d1, n, raw'), f1, n, {}, {});
    LocalWider(L, d0, f0, StoreInode(L, d1, n, raw'), f1, n, {}, Mine(files, n));
  }

  lemma LiveIsInode(L: Layout, cleared: bool, d: seq<Block>, free: set<nat>, n: nat, file: seq<Tree>)
    requires L.InodesOk() && L.Image(d) && FileLive(L, cleared, d, free, n, file)
    ensures IsInode(L, n)
    ensures |file| <= 15 && FileShape(L.Entries(), file) && ApartAll(file) && Owned(L, free, file)
    ensures Maps(d, IBlock(InodeAt(L, d, n)), file)
    ensures ISize(InodeAt(L, d, n)) <= |LeavesAll(file)| * L.blockSize
  {
  }

  /** The file took `blocks` more data blocks, and the pointer blocks these call for, out of the free set. */
  ghost predicate Extended(e: nat, f0: set<nat>, f1: set<nat>, base: seq<Tree>, file: seq<Tree>, blocks: nat)
    requires e > 0
  {
    && f1 <= f0 && BlocksAll(file) == BlocksAll(base) + (f0 - f1) && Lowest(f0, f1) && Continues(base, file, f0, f1)
    && LeavesAll(base) <= LeavesAll(file) && |LeavesAll(file)| == |LeavesAll(base)| + blocks
    && NodeCountAll(file) == NodeCountAll(base) + FileMeta(e, |base|, blocks)
  }

  lemma GrownExtended(L: Layout, d0: seq<Block>, f0: set<nat>, d1: seq<Block>, f1: set<nat>, base: seq<Tree>,
                      file: seq<Tree>,
                      iblock: seq<Word>, blocks: nat, cleared: bool)
    requires L.Entries() > 0 && Grown(L, L.Entries(), cleared, d0, f0, d1, f1, base, file, iblock, blocks)
    requires NodeCountAll(file) == NodeCountAll(base) + FileMeta(L.Entries(), |base|, blocks)
    ensures Extended(L.Entries(), f0, f1, base, file, blocks)
  {
  }

  /** The data are what the blocks of the file held in the image d. */
  ghost predicate HeldBefore(L: Layout, d: seq<Block>, file: seq<Tree>, data: seq<Byte>) {
    (forall i :: 0 <= i < |LeavesAll(file)| ==> LeavesAll(file)[i] < |d|) && data == Contents(L, d, file)
  }

  /** The blocks that growth adds to a file keep what they held: they are not cleared. */
  lemma GrownContents(L: Layout, cleared: bool, d0: seq<Block>, f0: set<nat>, d1: seq<Block>, f1: set<nat>, n: nat,
                      base: seq<Tree>, file: seq<Tree>, raw: seq<Byte>, iblock: seq<Word>, blocks: nat)
    requires L.InodesOk() && L.Image(d1) && IsInode(L, n) && |raw| == L.inodeSize
    requires Grown(L, L.Entries(), cleared, d0, f0, d1, f1, base, file, iblock, blocks)
    requires FileLive(L, cleared, StoreInode(L, d1, n, raw), f1, n, file)
    ensures forall i :: 0 <= i < |LeavesAll(file)| ==> LeavesAll(file)[i] < |StoreInode(L, d1, n, raw)|
    ensures HeldBefore(L, d0, file, Contents(L, StoreInode(L, d1, n, raw), file))
  {
    hide FileShape, ApartAll, Maps, EndedAll, Layout.Ok, Layout.Reserved, BlocksAll, LeavesAll, InodeAt, StoreInode, Continues, Grows;
    var d2 := StoreInode(L, d1, n, raw);
    StoreLocal(L, d1, f1, n, raw);
    LeavesInBlocks(file);
    ConcatFrame(d0, d2, LeavesAll(file));
  }

  /** Writing an inode leaves what the blocks of a file held. */
  lemma HeldEarlier(L: Layout, cleared: bool, d: seq<Block>, f: set<nat>, d2: seq<Block>, f2: set<nat>, n: nat,
                    raw: seq<Byte>, file: seq<Tree>, data: seq<Byte>)
    requires L.InodesOk() && L.Image(d) && IsInode(L, n) && |raw| == L.inodeSize
    requires L.Image(d2) && FileLive(L, cleared, d2, f2, n, file) && HeldBefore(L, StoreInode(L, d, n, raw), file, data)
    ensures HeldBefore(L, d, file, data)
  {
    hide FileShape, ApartAll, Maps, EndedAll, Layout.Ok, Layout.Reserved, BlocksAll, LeavesAll, InodeAt, StoreInode;
    StoreLocal(L, d, f, n, raw);
    LeavesInBlocks(file);
    ConcatFrame(d, StoreInode(L, d, n, raw), LeavesAll(file));
  }

  /** A step on one inode leaves the records of all others. */
  lemma StepInode(L: Layout, cleared: bool, d0: seq<Block>, f0: set<nat>, files: map<nat, seq<Tree>>,
                  d1: seq<Block>, f1: set<nat>, files': map<nat, seq<Tree>>, n: nat, m: nat)
    requires Step(L, cleared, d0, f0, files, d1, f1, files', n) && m != n
    ensures L.InodesOk() && L.Image(d0) && L.Image(d1)
    ensures IsInode(L, m) ==> InodeAt(L, d1, m) == InodeAt(L, d0, m)
  {
    hide InodeAt, Layout.Ok, FileLive;
  }

  lemma ExtendedLeaves(e: nat, f0: set<nat>, f1: set<nat>, base: seq<Tree>, file: seq<Tree>, blocks: nat)
    requires e > 0 && Extended(e, f0, f1, base, file, blocks)
    ensures LeavesAll(base) <= LeavesAll(file) && |LeavesAll(file)| == |LeavesAll(base)| + blocks
  {
  }

  lemma GrownGrows(L: Layout, d0: seq<Block>, f0: set<nat>, d1: seq<Block>, f1: set<nat>, base: seq<Tree>,
                   file: seq<Tree>,
                   iblock: seq<Word>, blocks: nat, cleared: bool)
    requires Grown(L, L.Entries(), cleared, d0, f0, d1, f1, base, file, iblock, blocks)
    ensures Grows(L, d0, f0, d1, f1)
    ensures LeavesAll(base) <= LeavesAll(file) && |LeavesAll(file)| == |LeavesAll(base)| + blocks
    ensures |iblock| == 15 && |file| <= 15
    ensures BlocksAll(file) == BlocksAll(base) + (f0 - f1)
  {
  }

  /**
   The blocks that a live file had are untouched by growth and by inode writes, so its contents are a prefix of the
   new ones.
   */
  lemma PrefixKept(L: Layout, cleared: bool, d0: seq<Block>, f0: set<nat>, d1: seq<Block>, f1: set<nat>, n: nat,
                   base: seq<Tree>, file: seq<Tree>)
    requires L.InodesOk() && L.Image(d0) && FileLive(L, cleared, d0, f0, n, base)
    requires Local(L, d0, f0, d1, f1, n, {}) && FileLive(L, cleared, d1, f1, n, file) && LeavesAll(base) <= LeavesAll(file)
    ensures forall i :: 0 <= i < |LeavesAll(base)| ==> LeavesAll(base)[i] < |d0|
    ensures forall i :: 0 <= i < |LeavesAll(file)| ==> LeavesAll(file)[i] < |d1|
    ensures Contents(L, d0, base) <= Contents(L, d1, file)
  {
    hide FileShape, ApartAll, Maps, EndedAll, Layout.Ok;
    LiveLeaves(L, cleared, d0, f0, n, base);
    LiveLeaves(L, cleared, d1, f1, n, file);
    LeavesInBlocks(base);
    ConcatFrame(d0, d1, LeavesAll(base));
    var rest := LeavesAll(file)[|LeavesAll(base)|..];
    assert LeavesAll(file) == LeavesAll(base) + rest;
    ConcatSplit(d1, LeavesAll(base), rest);
  }

  /** A data write to a live file is a step. */
  lemma DataStep(L: Layout, cleared: bool, d0: seq<Block>, f: set<nat>, files: map<nat, seq<Tree>>, d1: seq<Block>,
                 n: nat)
    requires AllLive(L, cleared, d0, f, files) && n in files && L.Image(d1) && Confined(d0, d1, LeavesAll(files[n]))
    ensures Step(L, cleared, d0, f, files, d1, f, files, n)
    ensures FileLive(L, cleared, d1, f, n, files[n]) && InodeAt(L, d1, n) == InodeAt(L, d0, n)
  {
    hide FileShape, ApartAll, RepAll, EndedAll, Layout.Ok, Layout.Reserved, InodeAt, Confined, Local, BlocksAll;
    var file := files[n];
    LiveEntries(L, cleared, d0, f, n, file);
    ConfinedLocal(L, d0, f, d1, n, file);
    NodesKept(d0, d1, file);
    assert files.Keys + {n} == files.Keys;
  }

  lemma LiveEntries(L: Layout, cleared: bool, d: seq<Block>, free: set<nat>, n: nat, file: seq<Tree>)
    requires L.InodesOk() && L.Image(d) && FileLive(L, cleared, d, free, n, file)
    ensures IsInode(L, n) && ApartAll(file) && forall b :: b in BlocksAll(file) ==> !L.Reserved(b)
  {
  }

  /** Writes to the leaves leave the pointer blocks. */
  lemma NodesKept(d0: seq<Block>, d1: seq<Block>, file: seq<Tree>)
    requires ApartAll(file) && Confined(d0, d1, LeavesAll(file))
    ensures RepAll(d0, file) ==> RepAll(d1, file)
    ensures EndedAll(d0, file) ==> EndedAll(d1, file)
  {
    ApartAllFacts(file);
    forall b | b in NodesAll(file) && b < |d0| ensures d0[b] == d1[b] {
      assert b !in ToSet(LeavesAll(file));
    }
    RepAllFrame(d0, d1, file);
  }

  /** Two steps on the same inode are one. */
  lemma StepTrans(L: Layout, cleared: bool, d0: seq<Block>, f0: set<nat>, files: map<nat, seq<Tree>>,
                  d1: seq<Block>, f1: set<nat>, files1: map<nat, seq<Tree>>,
                  d2: seq<Block>, f2: set<nat>, files2: map<nat, seq<Tree>>, n: nat)
    requires Step(L, cleared, d0, f0, files, d1, f1, files1, n) && Step(L, cleared, d1, f1, files1, d2, f2, files2, n)
    ensures Step(L, cleared, d0, f0, files, d2, f2, files2, n)
  {
    hide FileLive, Layout.Ok, InodeAt, Local;
    LocalFree(L, d0, f0, d1, f1, n, Mine(files, n));
    LocalTrans(L, d0, f0, d1, f1, d2, f2, n, Mine(files, n), Mine(files1, n));
    forall m | m in files && m != n ensures files2[m] == files[m] && m in files2 {
      assert m in files1.Keys + {n};
      assert m in files2.Keys + {n};
    }
  }

  lemma LocalFree(L: Layout, d0: seq<Block>, f0: set<nat>, d1: seq<Block>, f1: set<nat>, n: nat, mine: set<nat>)
    requires Local(L, d0, f0, d1, f1, n, mine)
    ensures f1 <= f0 + mine
  {
  }

  /** An inode rewritten with the same entries and a size that its blocks still cover. */
  lemma RewriteStep(L: Layout, cleared: bool, d: seq<Block>, f: set<nat>, files: map<nat, seq<Tree>>, n: nat,
                    raw: seq<Byte>)
    requires AllLive(L, cleared, d, f, files) && n in files && |raw| == L.inodeSize
    requires IsInode(L, n) && IBlock(raw) == IBlock(InodeAt(L, d, n)) && ISize(raw) <= |LeavesAll(files[n])| * L.blockSize
    ensures Step(L, cleared, d, f, files, StoreInode(L, d, n, raw), f, files, n)
    ensures Local(L, d, f, StoreInode(L, d, n, raw), f, n, {})
  {
    hide FileShape, ApartAll, Layout.Ok, Layout.Reserved, StoreInode, InodeAt;
    var file := files[n];
    var d1 := StoreInode(L, d, n, raw);
    assert FileLive(L, cleared, d, f, n, file);
    StoreLocal(L, d, f, n, raw);
    LocalWider(L, d, f, d1, f, n, {}, Mine(files, n));
    GrownStored(L, cleared, d, d1, IBlock(raw), file);
    assert files.Keys + {n} == files.Keys;
  }

  /** A file that starts with a free block is not live. */
  lemma NotLive(L: Layout, cleared: bool, d: seq<Block>, free: set<nat>, n: nat, file: seq<Tree>)
    requires L.InodesOk() && L.Image(d) && IsInode(L, n)
    requires IBlock(InodeAt(L, d, n))[0] != 0 && IBlock(InodeAt(L, d, n))[0] as nat in free
    ensures !FileLive(L, cleared, d, free, n, file)
  {
    if FileLive(L, cleared, d, free, n, file) {
      FirstOwned(L, cleared, d, free, n, file);
    }
  }

  lemma FirstOwned(L: Layout, cleared: bool, d: seq<Block>, free: set<nat>, n: nat, file: seq<Tree>)
    requires L.InodesOk() && L.Image(d) && FileLive(L, cleared, d, free, n, file)
    ensures IBlock(InodeAt(L, d, n))[0] != 0 ==> IBlock(InodeAt(L, d, n))[0] as nat !in free
  {
    if file != [] {
      AllAt(d, file, 0);
      assert file[0].block in Blocks(file[0]);
    }
  }

  /** The first data block of a file with data is its first entry. */
  lemma FirstBlock(L: Layout, cleared: bool, d: seq<Block>, free: set<nat>, n: nat, file: seq<Tree>)
    requires L.InodesOk() && L.Image(d) && FileLive(L, cleared, d, free, n, file) && LeavesAll(file) != []
    ensures IBlock(InodeAt(L, d, n))[0] == LeavesAll(file)[0] != 0
  {
    LeavesAt(file, 0);
    assert file[..0] == [];
    assert file[0].Leaf?;
    AllAt(d, file, 0);
    assert file[0].block in Blocks(file[0]);
  }

  /** Writes to data blocks keep bitmaps and counters. */
  lemma ConfinedSound(L: Layout, d0: seq<Block>, d1: seq<Block>, groupFree: seq<nat>, superFree: nat, file: seq<Tree>)
    requires L.Sound(d0, groupFree, superFree) && L.Image(d1) && Confined(d0, d1, LeavesAll(file))
    requires forall b :: b in BlocksAll(file) ==> !L.Reserved(b)
    ensures L.Sound(d1, groupFree, superFree) && L.FreeSet(d1) == L.FreeSet(d0)
  {
    hide Layout.FreeSet;
    LeavesInBlocks(file);
    assert L.SameBitmaps(d0, d1);
    L.FreeSetFrame(d0, d1);
  }

  /** With cleared memory, or without indirect blocks, nothing but the file hangs below its inode. */
  lemma LiveEnded(L: Layout, cleared: bool, d: seq<Block>, free: set<nat>, n: nat, file: seq<Tree>)
    requires L.InodesOk() && L.Image(d) && FileLive(L, cleared, d, free, n, file) && (cleared || |file| <= 12)
    ensures Stored(L, d, IBlock(InodeAt(L, d, n)), file) && FileEnded(d, IBlock(InodeAt(L, d, n)), file)
  {
    if !cleared {
      LeafEnded(d, file);
    }
  }

  lemma {:induction false} LeafEnded(d: seq<Block>, ts: seq<Tree>)
    requires forall i :: 0 <= i < |ts| ==> ts[i].Leaf?
    ensures EndedAll(d, ts)
    decreases |ts|
  {
    if ts != [] {
      LeafEnded(d, ts[..|ts| - 1]);
    }
  }

  /** An unused inode made empty is a step. */
  lemma FreshStep(L: Layout, cleared: bool, d: seq<Block>, f: set<nat>, files: map<nat, seq<Tree>>, n: nat,
                  raw: seq<Byte>)
    requires AllLive(L, cleared, d, f, files) && n !in files && |raw| == L.inodeSize && IsInode(L, n)
    requires IBlock(raw) == seq(15, _ => 0) && ISize(raw) == 0
    ensures Step(L, cleared, d, f, files, StoreInode(L, d, n, raw), f, files[n := []], n)
  {
    hide Layout.Ok, Layout.Reserved, StoreInode, InodeAt;
    StoreLocal(L, d, f, n, raw);
    assert FileLive(L, cleared, StoreInode(L, d, n, raw), f, n, []);
  }

  /** A file given up is a step. */
  lemma GoneStep(L: Layout, cleared: bool, d: seq<Block>, f: set<nat>, files: map<nat, seq<Tree>>,
                 d1: seq<Block>, f1: set<nat>, n: nat, raw: seq<Byte>)
    requires AllLive(L, cleared, d, f, files) && n in files && |raw| == L.inodeSize && IsInode(L, n) && L.Image(d1)
    requires BitmapsOnly(L, d, d1) && f1 <= f + BlocksAll(files[n])
    ensures Step(L, cleared, d, f, files, StoreInode(L, d1, n, raw), f1, files - {n}, n)
  {
    hide Layout.Ok, Layout.Reserved, StoreInode, InodeAt, FileLive;
    ReleaseLocal(L, d, f, d1, f1, n, BlocksAll(files[n]));
    StoreLocal(L, d1, f1, n, raw);
    LocalTrans(L, d, f, d1, f1, StoreInode(L, d1, n, raw), f1, n, BlocksAll(files[n]), {});
  }

  lemma StepNothing(L: Layout, cleared: bool, d: seq<Block>, f: set<nat>, files: map<nat, seq<Tree>>, n: nat)
    requires AllLive(L, cleared, d, f, files)
    ensures Step(L, cleared, d, f, files, d, f, files, n)
  {
    hide FileLive;
  }
}
