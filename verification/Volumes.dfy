/** The live files of a partition together, and what one operation on one file may do to the rest. */
module Volumes {
  import opened Codec
  import opened Layouts
  import opened Partitions
  import opened Trees
  import opened Files
  import opened Walks
  import opened FileWalks
  import opened Inodes
  import ByteWrite

  /** Inode n maps exactly the given file: its blocks are its own, in use, and cover its size. */
  ghost predicate FileLive(L: Layout, cleared: bool, d: seq<Block>, free: set<nat>, n: nat, file: seq<Tree>)
    requires L.InodesOk() && L.Image(d)
  {
    && IsInode(L, n)
    && Maps(d, IBlock(InodeAt(L, d, n)), file)
    && FileShape(L.Entries(), file) && ApartAll(file) && Owned(L, free, file)
    && (cleared ==> EndedAll(d, file))
    && ISize(InodeAt(L, d, n)) <= |LeavesAll(file)| * L.blockSize
  }

  /** Every file is live, and no two files share a block. */
  ghost predicate AllLive(L: Layout, cleared: bool, d: seq<Block>, free: set<nat>, files: map<nat, seq<Tree>>) {
    && L.InodesOk() && L.Image(d)
    && (forall n :: n in files ==> FileLive(L, cleared, d, free, n, files[n]))
    && (forall m, n :: m in files && n in files && m != n ==> BlocksAll(files[m]) !! BlocksAll(files[n]))
  }

  /** The invariant of the whole machine. */
  ghost predicate Live(p: Partition, files: map<nat, seq<Tree>>)
    reads p, p.disk
  {
    p.Valid() && AllLive(p.L, p.cleared, p.disk[..], p.Free(), files)
  }

  /** The blocks an operation on inode n starts with. */
  ghost function Mine(files: map<nat, seq<Tree>>, n: nat): set<nat> {
    if n in files then BlocksAll(files[n]) else {}
  }

  /** Only bitmaps, inode n, the given blocks and formerly free blocks may have changed. */
  ghost predicate Local(L: Layout, d0: seq<Block>, f0: set<nat>, d1: seq<Block>, f1: set<nat>, n: nat, mine: set<nat>) {
    && L.InodesOk() && L.Image(d0) && L.Image(d1)
    && (forall b :: 0 <= b < |d0| && !L.Reserved(b) && b !in f0 && b !in mine ==> d1[b] == d0[b])
    && (forall m :: IsInode(L, m) && m != n ==> InodeAt(L, d1, m) == InodeAt(L, d0, m))
    && f1 <= f0 + mine
  }

  /** One step of the machine: an operation on inode n, which ends with the file g, or with none. */
  ghost predicate Step(L: Layout, cleared: bool, d0: seq<Block>, f0: set<nat>, files: map<nat, seq<Tree>>,
                       d1: seq<Block>, f1: set<nat>, files': map<nat, seq<Tree>>, n: nat)
  {
    && Local(L, d0, f0, d1, f1, n, Mine(files, n))
    && files'.Keys + {n} == files.Keys + {n}
    && (forall m :: m in files && m != n ==> files'[m] == files[m])
    && (n in files' ==> FileLive(L, cleared, d1, f1, n, files'[n]) && BlocksAll(files'[n]) <= Mine(files, n) + f0)
  }

  lemma LiveFacts(p: Partition, files: map<nat, seq<Tree>>)
    requires Live(p, files)
    ensures p.Valid() && p.Shaped() && p.L.InodesOk() && p.L.Ok() && p.L.Image(p.disk[..])
    ensures p.L.blockSize > 0 && p.L.sectorSize > 0 && p.L.inodeSize >= 128
    ensures AllLive(p.L, p.cleared, p.disk[..], p.Free(), files)
  {
  }

  /** A live file stays live while nothing that it consists of changes. */
  lemma FileFrame(L: Layout, cleared: bool, d0: seq<Block>, f0: set<nat>, d1: seq<Block>, f1: set<nat>, n: nat,
                  file: seq<Tree>)
    requires L.InodesOk() && L.Image(d0) && L.Image(d1) && FileLive(L, cleared, d0, f0, n, file)
    requires InodeAt(L, d1, n) == InodeAt(L, d0, n)
    requires forall b :: b in BlocksAll(file) ==> b !in f1 && (b < |d0| ==> d1[b] == d0[b])
    ensures FileLive(L, cleared, d1, f1, n, file)
  {
    BlocksAllSplit(file);
    RepAllFrame(d0, d1, file);
  }

  /** A step on one inode leaves every other file as it is: its inode, its blocks, their contents. */
  lemma OthersKept(L: Layout, cleared: bool, d0: seq<Block>, f0: set<nat>, files: map<nat, seq<Tree>>,
                   d1: seq<Block>, f1: set<nat>, files': map<nat, seq<Tree>>, n: nat, m: nat)
    requires AllLive(L, cleared, d0, f0, files) && Step(L, cleared, d0, f0, files, d1, f1, files', n)
    requires m in files && m != n
    ensures m in files' && files'[m] == files[m]
    ensures IsInode(L, m) && L.Image(d1) && InodeAt(L, d1, m) == InodeAt(L, d0, m)
    ensures FileLive(L, cleared, d1, f1, m, files[m])
    ensures forall b :: b in BlocksAll(files[m]) ==> b < |d0| == |d1| && d1[b] == d0[b] && b !in f0 && b !in Mine(files, n)
  {
    hide FileShape, ApartAll, Maps, EndedAll;
    assert m in files.Keys + {n};
    assert FileLive(L, cleared, d0, f0, m, files[m]);
    forall b | b in BlocksAll(files[m]) ensures b < |d0| && d1[b] == d0[b] && b !in f0 && b !in Mine(files, n) && b !in f1 {
      assert n in files ==> BlocksAll(files[m]) !! BlocksAll(files[n]);
    }
    FileFrame(L, cleared, d0, f0, d1, f1, m, files[m]);
  }

  /** Every step keeps the invariant of all files. */
  lemma StepKeepsLive(L: Layout, cleared: bool, d0: seq<Block>, f0: set<nat>, files: map<nat, seq<Tree>>,
                      d1: seq<Block>, f1: set<nat>, files': map<nat, seq<Tree>>, n: nat)
    requires AllLive(L, cleared, d0, f0, files) && Step(L, cleared, d0, f0, files, d1, f1, files', n)
    ensures AllLive(L, cleared, d1, f1, files')
  {
    hide FileLive;
    forall m | m in files' ensures FileLive(L, cleared, d1, f1, m, files'[m]) {
      assert m in files.Keys + {n};
      if m != n {
        OthersKept(L, cleared, d0, f0, files, d1, f1, files', n, m);
      }
    }
    forall m, k | m in files' && k in files' && m != k ensures BlocksAll(files'[m]) !! BlocksAll(files'[k]) {
      assert m in files.Keys + {n} && k in files.Keys + {n};
      if m != n {
        OthersKept(L, cleared, d0, f0, files, d1, f1, files', n, m);
      }
      if k != n {
        OthersKept(L, cleared, d0, f0, files, d1, f1, files', n, k);
      }
    }
  }

  /** All bytes below the leaves of a live file: its contents, padded to whole blocks. */
  ghost function Contents(L: Layout, d: seq<Block>, file: seq<Tree>): (s: seq<Byte>)
    requires forall i :: 0 <= i < |LeavesAll(file)| ==> LeavesAll(file)[i] < |d|
  {
    Concat(d, LeavesAll(file))
  }

  lemma LiveLeaves(L: Layout, cleared: bool, d: seq<Block>, free: set<nat>, n: nat, file: seq<Tree>)
    requires L.InodesOk() && L.Image(d) && FileLive(L, cleared, d, free, n, file)
    ensures Stored(L, d, IBlock(InodeAt(L, d, n)), file)
    ensures forall i :: 0 <= i < |LeavesAll(file)| ==> LeavesAll(file)[i] < |d|
    ensures |Contents(L, d, file)| == |LeavesAll(file)| * L.blockSize >= ISize(InodeAt(L, d, n))
  {
    StoredLeaves(L, d, IBlock(InodeAt(L, d, n)), file);
    ConcatLength(d, LeavesAll(file), L.blockSize);
  }

  /** A step on one inode leaves the contents of every other file. */
  lemma StepKeepsContents(L: Layout, cleared: bool, d0: seq<Block>, f0: set<nat>, files: map<nat, seq<Tree>>,
                          d1: seq<Block>, f1: set<nat>, files': map<nat, seq<Tree>>, n: nat, m: nat)
    requires AllLive(L, cleared, d0, f0, files) && Step(L, cleared, d0, f0, files, d1, f1, files', n)
    requires m in files && m != n
    ensures forall i :: 0 <= i < |LeavesAll(files[m])| ==> LeavesAll(files[m])[i] < |d0| == |d1|
    ensures Contents(L, d1, files[m]) == Contents(L, d0, files[m])
  {
    hide FileLive;
    OthersKept(L, cleared, d0, f0, files, d1, f1, files', n, m);
    LiveLeaves(L, cleared, d0, f0, m, files[m]);
    ByteWrite.LeavesInBlocks(files[m]);
    ConcatFrame(d0, d1, LeavesAll(files[m]));
  }

  lemma LiveIs(p: Partition, files: map<nat, seq<Tree>>)
    requires p.Valid() && AllLive(p.L, p.cleared, p.disk[..], p.Free(), files)
    ensures Live(p, files)
  {
  }

  lemma FreeBlocks(p: Partition)
    requires p.Valid()
    ensures p.Shaped() && forall b :: b in p.Free() ==> p.L.IsBlock(b) && !p.L.Reserved(b)
  {
    forall b | b in p.Free() ensures p.L.IsBlock(b) {
      p.L.FreeSetMember(p.disk[..], b);
    }
  }

  /** The inode of a live file. */
  ghost function Inode(p: Partition, files: map<nat, seq<Tree>>, n: nat): (raw: seq<Byte>)
    requires Live(p, files) && n in files
    ensures |raw| >= 128
    reads p, p.disk
  {
    InodeAt(p.L, p.disk[..], n)
  }

  /** The contents of a live file, padded to whole blocks. */
  ghost function Data(p: Partition, files: map<nat, seq<Tree>>, n: nat): seq<Byte>
    requires Live(p, files) && n in files
    reads p, p.disk
  {
    LiveLeaves(p.L, p.cleared, p.disk[..], p.Free(), n, files[n]);
    Contents(p.L, p.disk[..], files[n])
  }

  lemma LiveFile(p: Partition, files: map<nat, seq<Tree>>, n: nat)
    requires Live(p, files) && n in files
    ensures p.Shaped() && p.L.InodesOk() && IsInode(p.L, n)
    ensures Inode(p, files, n) == InodeAt(p.L, p.disk[..], n) && |Inode(p, files, n)| == p.L.inodeSize >= 128
    ensures FileLive(p.L, p.cleared, p.disk[..], p.Free(), n, files[n])
    ensures forall i :: 0 <= i < |LeavesAll(files[n])| ==> LeavesAll(files[n])[i] < p.disk.Length
    ensures Data(p, files, n) == Contents(p.L, p.disk[..], files[n])
    ensures |Data(p, files, n)| == |LeavesAll(files[n])| * p.L.blockSize
    ensures ISize(Inode(p, files, n)) <= |Data(p, files, n)|
    ensures Stored(p.L, p.disk[..], IBlock(Inode(p, files, n)), files[n])
  {
    LiveLeaves(p.L, p.cleared, p.disk[..], p.Free(), n, files[n]);
  }
}
