/** Creating and deleting a file together with its directory entry. */
module NamedFiles {
  import opened Codec
  import opened Arith
  import opened Layouts
  import opened Partitions
  import opened Trees
  import opened Files
  import opened Inodes
  import opened Volumes
  import opened Steps
  import opened Ext2
  import opened BlockList
  import opened Chains
  import opened Dentries
  import opened Lookups
  import opened Names
  import opened Removal
  import opened Directories
  import opened DirectoryRuns
  import RoundTrips

  /** From one state to the next, file m kept its inode, its blocks and its contents. */
  ghost predicate Kept(L: Layout, d0: seq<Block>, files0: map<nat, seq<Tree>>, d1: seq<Block>,
                       files1: map<nat, seq<Tree>>, m: nat)
    requires m in files0
  {
    && L.InodesOk() && L.Image(d0) && L.Image(d1) && IsInode(L, m)
    && m in files1 && files1[m] == files0[m]
    && InodeAt(L, d1, m) == InodeAt(L, d0, m)
    && (forall i :: 0 <= i < |LeavesAll(files0[m])| ==> LeavesAll(files0[m])[i] < |d0| && LeavesAll(files0[m])[i] < |d1|)
    && Contents(L, d1, files1[m]) == Contents(L, d0, files0[m])
  }

  lemma KeptStep(L: Layout, cleared: bool, start: seq<Block>, begun: map<nat, seq<Tree>>,
                 d0: seq<Block>, f0: set<nat>, files: map<nat, seq<Tree>>,
                 d1: seq<Block>, f1: set<nat>, files': map<nat, seq<Tree>>, n: nat, m: nat)
    requires AllLive(L, cleared, d0, f0, files) && Step(L, cleared, d0, f0, files, d1, f1, files', n)
    requires m in begun && m != n && Kept(L, start, begun, d0, files, m)
    ensures Kept(L, start, begun, d1, files', m)
  {
    hide AllLive, Step, FileLive, Layout.InodesOk, Layout.Image;
    OthersKept(L, cleared, d0, f0, files, d1, f1, files', n, m);
    StepKeepsContents(L, cleared, d0, f0, files, d1, f1, files', n, m);
  }

  /** A kept directory has kept its records. */
  lemma KeptRecords(p: Partition, d0: seq<Block>, f0: set<nat>, files: map<nat, seq<Tree>>,
                    files': map<nat, seq<Tree>>, m: nat,
                    raw: seq<Byte>, data: seq<Byte>)
    requires Live(p, files') && m in files && Kept(p.L, d0, files, p.disk[..], files', m)
    requires raw == InodeAt(p.L, d0, m) && data == Contents(p.L, d0, files[m])
    ensures m in files' && files'[m] == files[m]
    ensures Inode(p, files', m) == raw && Data(p, files', m) == data
  {
    LiveFile(p, files', m);
  }

  /** Steps on inode n, in a row, keep every other file. */
  lemma KeptByStep(L: Layout, cleared: bool, d0: seq<Block>, f0: set<nat>, files: map<nat, seq<Tree>>,
                   d1: seq<Block>, f1: set<nat>, files': map<nat, seq<Tree>>, n: nat)
    requires AllLive(L, cleared, d0, f0, files) && Step(L, cleared, d0, f0, files, d1, f1, files', n)
    ensures forall m :: m in files && m != n ==> Kept(L, d0, files, d1, files', m)
  {
    hide FileLive, Step, Kept, Layout.InodesOk, Layout.Image;
    forall m | m in files && m != n ensures Kept(L, d0, files, d1, files', m) {
      KeptSame(L, cleared, d0, f0, files, m);
      KeptStep(L, cleared, d0, files, d0, f0, files, d1, f1, files', n, m);
    }
  }

  lemma KeptSame(L: Layout, cleared: bool, d: seq<Block>, f: set<nat>, files: map<nat, seq<Tree>>, m: nat)
    requires AllLive(L, cleared, d, f, files) && m in files
    ensures Kept(L, d, files, d, files, m)
  {
    hide Layout.InodesOk, Layout.Image;
    LiveAll(L, cleared, d, f, files, m);
    LiveLeaves(L, cleared, d, f, m, files[m]);
  }

  lemma KeptTwice(L: Layout, d0: seq<Block>, files0: map<nat, seq<Tree>>, d1: seq<Block>, files1: map<nat, seq<Tree>>,
                  d2: seq<Block>, files2: map<nat, seq<Tree>>, m: nat)
    requires m in files0 && Kept(L, d0, files0, d1, files1, m) && m in files1 && Kept(L, d1, files1, d2, files2, m)
    ensures Kept(L, d0, files0, d2, files2, m)
  {
  }

  /** A directory's bytes with the two records of a blank directory written over what was there. */
  ghost predicate Initialized(data: seq<Byte>, n: Word, parent: Word) {
    DIRECTORY_BYTES <= |data| && exists all :: |all| == |data| && data == Initial(all, n, parent)
  }

  lemma InitializedIs(all: seq<Byte>, n: Word, parent: Word)
    requires DIRECTORY_BYTES <= |all|
    ensures Initialized(Initial(all, n, parent), n, parent)
  {
  }

  /**
   A new inode and its file: the record `blank` and no data, or, for a directory that gets its block, one that is resized
   to a block, with the lowest free block as its data, over which the two records are written.
   */
  ghost predicate Made(L: Layout, d0: seq<Block>, f0: set<nat>, blank: seq<Byte>, n: Word, parent: Word,
                       directory: bool,
                       file: seq<Tree>, raw: seq<Byte>, data: seq<Byte>, f1: set<nat>)
    requires 0 < L.Entries() && 0 < L.blockSize < 0x1_0000_0000 && 0 < L.sectorSize && |raw| >= 128 && |blank| >= 128
  {
    if directory && f0 != {} then
      && Spent(L.Entries(), f0, f1, 0, 1) && ResizedTo(L, blank, L.blockSize, raw)
      && (forall i :: 0 <= i < |LeavesAll(file)| ==> LeavesAll(file)[i] < |d0|)
      && DIRECTORY_BYTES <= |Contents(L, d0, file)| && data == Initial(Contents(L, d0, file), n, parent)
    else
      file == [] && raw == blank && data == [] && f1 == f0
  }

  lemma MadeDirectory(L: Layout, d0: seq<Block>, f0: set<nat>, blank: seq<Byte>, n: Word, parent: Word,
                      file: seq<Tree>, raw: seq<Byte>, all: seq<Byte>, data: seq<Byte>, f1: set<nat>)
    requires 0 < L.Entries() && 0 < L.blockSize < 0x1_0000_0000 && 0 < L.sectorSize && |raw| >= 128 && |blank| >= 128
    requires f0 != {} && Spent(L.Entries(), f0, f1, 0, 1) && ResizedTo(L, blank, L.blockSize, raw)
    requires HeldBefore(L, d0, file, all) && DIRECTORY_BYTES <= |all| && data == Initial(all, n, parent)
    ensures Made(L, d0, f0, blank, n, parent, true, file, raw, data, f1)
  {
  }

  lemma MadeEmpty(L: Layout, d0: seq<Block>, f0: set<nat>, blank: seq<Byte>, n: Word, parent: Word, directory: bool,
                  data: seq<Byte>)
    requires 0 < L.Entries() && 0 < L.blockSize < 0x1_0000_0000 && 0 < L.sectorSize && |blank| >= 128
    requires (directory ==> f0 == {}) && data == []
    ensures Made(L, d0, f0, blank, n, parent, directory, [], blank, data, f0)
  {
  }

  lemma NothingSpent(e: nat, f0: set<nat>, f1: set<nat>, n: nat)
    requires e > 0 && Spent(e, f0, f1, 0, n) && f0 == {}
    ensures f1 == {}
  {
  }

  lemma NoData(p: Partition, files: map<nat, seq<Tree>>, n: nat)
    requires Live(p, files) && n in files && files[n] == []
    ensures Data(p, files, n) == []
  {
  }

  /**
   The inode, empty or with its first block and its two records: the part of ext2_create_file before the directory
   entry.
   */
  method MakeInode(p: Partition, parent: Word, n: Word, mode: int, directory: bool, uid: int, gid: int, now: Word,
                   unique: Word,
                   ghost files: map<nat, seq<Tree>>)
    returns (ok: bool, ghost file: seq<Tree>)
    requires Live(p, files) && p.L.InodesOk() && IsInode(p.L, n) && n as nat !in files
    requires p.L.Entries() > 0 && DIRECTORY_BYTES <= p.L.blockSize < 0x1_0000_0000 && p.L.sectorSize > 0
    requires 0 <= mode < 0x1_0000 && 0 <= uid < 0x1_0000 && 0 <= gid < 0x1_0000
    requires directory ==> (mode / INODE_TYPE_DIR) % 2 == 1
    modifies p`groupFree, p`superFree, p.disk
    ensures Live(p, files[n as nat := file])
    ensures Step(p.L, p.cleared, old(p.disk[..]), old(p.Free()), files, p.disk[..], p.Free(), files[n as nat := file], n)
    ensures ok <==> !directory || old(p.Free()) != {}
    ensures FreshInode(Fresh(old(InodeAt(p.L, p.disk[..], n)), mode, uid, gid, now, unique), mode, uid, gid, now, unique)
    ensures Made(p.L, old(p.disk[..]), old(p.Free()),
                 Fresh(old(InodeAt(p.L, p.disk[..], n)), mode, uid, gid, now, unique), n, parent, directory, file,
                 Inode(p, files[n as nat := file], n), Data(p, files[n as nat := file], n), p.Free())
    ensures !directory ==> file == [] && p.Free() == old(p.Free())
    ensures ok ==> var raw := Inode(p, files[n as nat := file], n);
                   IMode(raw) == mode && ISize(raw) == if directory then p.L.blockSize else 0
    ensures ok && directory && p.L.blockSize == DIRECTORY_BYTES ==>
              && Chained(p, files[n as nat := file], n)
              && Records(p, files[n as nat := file], n) == [Dot(n), DotDot(parent)]
    ensures ok && directory ==> Initialized(Data(p, files[n as nat := file], n), n, parent)
    ensures ok && directory ==> |Data(p, files[n as nat := file], n)| == p.L.blockSize
  {
    hide *;
    LiveFacts(p, files);
    p.ShapedFacts();
    ghost var d0, f0 := p.disk[..], p.Free();
    CreateInode(p, n, mode, uid, gid, now, unique, files);
    file := [];
    ghost var files1 := files[n as nat := []];
    assert files1[n as nat] == [];
    ghost var blank := Inode(p, files1, n);
    if !directory {
      MadeEmpty(p.L, d0, f0, blank, n, parent, false, Data(p, files1, n));
      return true, [];
    }
    LiveFacts(p, files1);
    ghost var d1, f1 := p.disk[..], p.Free();
    LiveFile(p, files1, n);
    ResizableGrowth(p, files1, n, p.L.blockSize);
    OneBlock(p.L, f1);
    ghost var grown: seq<Tree>;
    ok, grown := ResizeFile(p, n, p.L.blockSize, files1);
    ghost var files2 := files1[n as nat := grown];
    assert files2 == files[n as nat := grown];
    file := grown;
    LiveFacts(p, files2);
    LiveFile(p, files2, n);
    StepTrans(p.L, p.cleared, d0, f0, files, d1, f1, files1, p.disk[..], p.Free(), files2, n);
    DivUpUnique(p.L.blockSize, p.L.blockSize, 1);
    if !ok {
      NothingSpent(p.L.Entries(), f0, p.Free(), 1);
      NoData(p, files2, n);
      MadeEmpty(p.L, d0, f0, blank, n, parent, true, Data(p, files2, n));
      return;
    }
    ghost var d2, f2 := p.disk[..], p.Free();
    ghost var all, resized := Data(p, files2, n), Inode(p, files2, n);
    HeldEarlier(p.L, p.cleared, d0, f0, d2, f2, n, blank, grown, all);
    OneLeaf(p.L.Entries(), f1, f2, grown, p.L.blockSize);
    ResizedSize(p.L, InodeAt(p.L, d1, n), p.L.blockSize, Inode(p, files2, n));
    DirectoryMode(Inode(p, files2, n));
    LoadsIs(p, files2, n);
    InitializedIs(Data(p, files2, n), n, parent);
    InitializeDirectory(p, n, parent, files2);
    LiveFacts(p, files2);
    MadeDirectory(p.L, d0, f0, blank, n, parent, grown, resized, all, Data(p, files2, n), p.Free());
    StepTrans(p.L, p.cleared, d0, f0, files, d2, f2, files2, p.disk[..], p.Free(), files2, n);
  }

  lemma OneLeaf(e: nat, f0: set<nat>, f1: set<nat>, file: seq<Tree>, blockSize: nat)
    requires 0 < e && 0 < blockSize && Extended(e, f0, f1, [], file, DivUp(blockSize, blockSize))
    ensures |LeavesAll(file)| == 1 && 1 * blockSize == blockSize
  {
    DivUpUnique(blockSize, blockSize, 1);
    ExtendedLeaves(e, f0, f1, [], file, 1);
  }

  lemma DirectoryMode(raw: seq<Byte>)
    requires |raw| >= 128
    ensures IsDirectory(raw) <==> (IMode(raw) / INODE_TYPE_DIR) % 2 == 1
  {
  }

  lemma OneBlock(L: Layout, free: set<nat>)
    requires L.Entries() > 0 && 0 < L.blockSize
    ensures Grantable(L, free, [], DivUp(L.blockSize, L.blockSize)) <==> free != {}
  {
    DivUpUnique(L.blockSize, L.blockSize, 1);
    RoundTrips.DirectGrant(L, free, L.blockSize);
    if |free| == 0 {
      assert free == {};
    }
  }

  /**
   ext2_create_file, once the parent is found and an inode number is handed out. It succeeds exactly when the parent is a
   directory with room for the entry and a new directory gets its block. Every file but the new one and its parent is as
   before; the parent has one more entry, or is as before when something failed.
   */
  method CreateFile(p: Partition, parent: Word, n: Word, mode: int, directory: bool, fileType: Byte, name: seq<Byte>,
                    uid: int, gid: int, now: Word, unique: Word, ghost files: map<nat, seq<Tree>>)
    returns (ok: bool, ghost files': map<nat, seq<Tree>>)
    requires Live(p, files) && p.L.InodesOk() && IsInode(p.L, n) && n as nat !in files && parent as nat in files
    requires Loads(p, files, parent) ==> Chained(p, files, parent)
    requires p.L.Entries() > 0 && DIRECTORY_BYTES <= p.L.blockSize < 0x1_0000_0000 && p.L.sectorSize > 0
    requires 0 <= mode < 0x1_0000 && 0 <= uid < 0x1_0000 && 0 <= gid < 0x1_0000
    requires directory ==> (mode / INODE_TYPE_DIR) % 2 == 1
    modifies p`groupFree, p`superFree, p.disk
    ensures Live(p, files') && parent as nat in files'
    ensures forall m :: m in files && m != parent as nat ==> Kept(p.L, old(p.disk[..]), files, p.disk[..], files', m)
    ensures Inode(p, files', parent) == old(Inode(p, files, parent))
    ensures ok <==> old(Loads(p, files, parent) && HasRoom(Data(p, files, parent), ISize(Inode(p, files, parent)), |Short(name)|)
                        && (directory ==> p.Free() != {}))
    ensures if IsDirectory(old(Inode(p, files, parent))) then
              && n as nat in files'
              && Made(p.L, old(p.disk[..]), old(p.Free()),
                      Fresh(old(InodeAt(p.L, p.disk[..], n)), mode, uid, gid, now, unique), n, parent, directory,
                      files'[n as nat], Inode(p, files', n), Data(p, files', n), p.Free())
            else files' == files && p.disk[..] == old(p.disk[..])
    ensures n as nat in files' || files' == files
    ensures files'.Keys <= files.Keys + {n as nat}
    ensures !ok ==> Data(p, files', parent) == old(Data(p, files, parent))
    ensures ok ==> var s, size := old(Data(p, files, parent)), ISize(old(Inode(p, files, parent)));
                   HasRoom(s, size, |Short(name)|) && Data(p, files', parent) == WithEntry(s, size, n, fileType, Short(name))
    ensures IsDirectory(old(Inode(p, files, parent))) && !directory ==> files' == files[n as nat := []] && p.Free() == old(p.Free())
    ensures ok ==> n as nat in files' && IMode(Inode(p, files', n)) == mode
                   && ISize(Inode(p, files', n)) == (if directory then p.L.blockSize else 0)
    ensures ok && directory ==> Initialized(Data(p, files', n), n, parent)
    ensures ok ==> old(Loads(p, files, parent)) && Chained(p, files', parent)
                   && Records(p, files', parent) == Added(old(Records(p, files, parent)), n, fileType, Short(name))
                   && |Records(p, files', parent)| > |old(Records(p, files, parent))|
    ensures ok && directory && p.L.blockSize == DIRECTORY_BYTES ==>
              Chained(p, files', n) && Records(p, files', n) == [Dot(n), DotDot(parent)]
  {
    hide *;
    LiveFacts(p, files);
    LiveFile(p, files, parent);
    ghost var d0, f0, raw0, data0 := p.disk[..], p.Free(), Inode(p, files, parent), Data(p, files, parent);
    ChainedIs(p, files, parent);
    LoadsIs(p, files, parent);
    files' := files;
    StepNothing(p.L, p.cleared, d0, f0, files, n);
    KeptByStep(p.L, p.cleared, d0, f0, files, d0, f0, files, n);
    var raw: seq<Byte> := ReadInode(p, parent);
    if !IsDirectory(raw) {
      return false, files;
    }
    ghost var file: seq<Tree>;
    ok, file := MakeInode(p, parent, n, mode, directory, uid, gid, now, unique, files);
    files' := files[n as nat := file];
    LiveFacts(p, files');
    ghost var d1, f1 := p.disk[..], p.Free();
    KeptByStep(p.L, p.cleared, d0, f0, files, d1, f1, files', n);
    KeptRecords(p, d0, f0, files, files', parent, raw0, data0);
    if !ok {
      return;
    }
    ChainedIs(p, files', parent);
    LoadsIs(p, files', parent);
    LiveFile(p, files', n);
    LiveFile(p, files', parent);
    ghost var raw1, data1 := Inode(p, files', n), Data(p, files', n);
    ChainedIs(p, files', n);
    ok := CreateDirectoryEntry(p, parent, n, fileType, name, files');
    LiveFacts(p, files');
    KeptByStep(p.L, p.cleared, d1, f1, files', p.disk[..], p.Free(), files', parent);
    KeptRecords(p, d1, f1, files', files', n, raw1, data1);
    ChainedIs(p, files', n);
    forall m | m in files && m != parent as nat ensures Kept(p.L, d0, files, p.disk[..], files', m) {
      KeptTwice(p.L, d0, files, d1, files', p.disk[..], files', m);
    }
    LiveFile(p, files', parent);
  }

  /** ext2_delete_file, once the paths are resolved: the blocks, the inode, then the directory entry. */
  method RemoveFile(p: Partition, parent: Word, n: Word, now: Word, ghost files: map<nat, seq<Tree>>) returns (ok: bool)
    requires Live(p, files) && n as nat in files && parent as nat in files && parent != n && p.L.blockSize > 0
    requires (p.cleared || |files[n as nat]| <= 12) && Sized(files[n as nat], DivUp(ISize(Inode(p, files, n)), p.L.blockSize))
    requires Loads(p, files, parent) ==> Chained(p, files, parent) && ISize(Inode(p, files, parent)) < 0x1_0000
    modifies p`groupFree, p`superFree, p.disk
    ensures var blocks := DivUp(ISize(old(Inode(p, files, n))), p.L.blockSize);
            blocks <= |LeavesAll(files[n as nat])|
            && p.Shaped() && p.Free() == old(p.Free()) + ToSet(LeavesAll(files[n as nat])[..blocks])
    ensures Live(p, files - {n as nat}) && parent as nat in files - {n as nat}
    ensures p.L.InodesOk() && IsInode(p.L, n) && InodeAt(p.L, p.disk[..], n) == Dead(old(Inode(p, files, n)), now)
    ensures forall m :: m in files && m != parent as nat && m != n as nat ==>
                          Kept(p.L, old(p.disk[..]), files, p.disk[..], files - {n as nat}, m)
    ensures var es := if old(Loads(p, files, parent)) then old(Records(p, files, parent)) else [];
            && (ok <==> Index(es, n) < |es|)
            && (ok && Index(es, n) > 0 && SafeToRemove(es, Index(es, n)) ==>
                  Chained(p, files - {n as nat}, parent) && Records(p, files - {n as nat}, parent) == Removed(es, n))
    ensures Inode(p, files - {n as nat}, parent) == old(Inode(p, files, parent))
    ensures !ok ==> Data(p, files - {n as nat}, parent) == old(Data(p, files, parent))
    ensures ok ==> var s, size, t := old(Data(p, files, parent)), ISize(old(Inode(p, files, parent))), Data(p, files - {n as nat}, parent);
                   && LooksUpDeleted(s, t, size, n)
                   && (Tiled(s, 0, size) && Quiet(s, 0, size) && Index(Parse(s, 0, size), n) > 0 ==>
                         Tiled(t, 0, size) && Quiet(t, 0, size) && Parse(t, 0, size) == Removed(Parse(s, 0, size), n))
  {
    hide *;
    LiveFacts(p, files);
    LiveFile(p, files, parent);
    ghost var d0, f0, raw0, data0 := p.disk[..], p.Free(), Inode(p, files, parent), Data(p, files, parent);
    ghost var rest := files - {n as nat};
    ChainedIs(p, files, parent);
    LoadsIs(p, files, parent);
    var deleted := DeleteFile(p, n, now, files);
    LiveFacts(p, rest);
    ghost var d1, f1 := p.disk[..], p.Free();
    KeptByStep(p.L, p.cleared, d0, f0, files, d1, f1, rest, n);
    KeptRecords(p, d0, f0, files, rest, parent, raw0, data0);
    ChainedIs(p, rest, parent);
    LoadsIs(p, rest, parent);
    EmptyIndex(n);
    ok := DeleteDentry(p, parent, n, rest);
    LiveFacts(p, rest);
    StepInode(p.L, p.cleared, d1, f1, rest, p.disk[..], p.Free(), rest, parent, n);
    KeptByStep(p.L, p.cleared, d1, f1, rest, p.disk[..], p.Free(), rest, parent);
    forall m | m in files && m != parent as nat && m != n as nat ensures Kept(p.L, d0, files, p.disk[..], rest, m) {
      KeptTwice(p.L, d0, files, d1, rest, p.disk[..], rest, m);
    }
  }

  lemma EmptyIndex(n: Word)
    ensures Index([], n) == 0
  {
  }

  /**
   A regular file that was created under an inode number new to the directory and is then deleted leaves files,
   records and free blocks as they were.
   */
  method CreateThenRemove(p: Partition, parent: Word, n: Word, mode: int, fileType: Byte, name: seq<Byte>,
                          uid: int, gid: int, now: Word, unique: Word, ghost files: map<nat, seq<Tree>>)
    returns (created: bool, removed: bool)
    requires Live(p, files) && p.L.InodesOk() && IsInode(p.L, n) && n as nat !in files && parent as nat in files
    requires Loads(p, files, parent) && Chained(p, files, parent) && ISize(Inode(p, files, parent)) < 0x1_0000
    requires Index(Records(p, files, parent), n) == |Records(p, files, parent)|
    requires p.L.Entries() > 0 && DIRECTORY_BYTES <= p.L.blockSize < 0x1_0000_0000 && p.L.sectorSize > 0
    requires 0 <= mode < 0x1_0000 && 0 <= uid < 0x1_0000 && 0 <= gid < 0x1_0000
    modifies p`groupFree, p`superFree, p.disk
    ensures created ==> removed && Live(p, files) && p.Free() == old(p.Free())
    ensures created ==> Chained(p, files, parent) && Records(p, files, parent) == old(Records(p, files, parent))
    ensures created ==> forall m :: m in files && m != parent as nat ==> Kept(p.L, old(p.disk[..]), files, p.disk[..], files, m)
  {
    hide *;
    LiveFacts(p, files);
    ghost var d0, es, raw := p.disk[..], Records(p, files, parent), Inode(p, files, parent);
    LoadsIs(p, files, parent);
    ghost var files1: map<nat, seq<Tree>>;
    created, files1 := CreateFile(p, parent, n, mode, false, fileType, name, uid, gid, now, unique, files);
    removed := false;
    if created {
      ghost var d1 := p.disk[..];
      assert files1[n as nat] == [] && files1 - {n as nat} == files;
      LiveFacts(p, files1);
      LiveFile(p, files1, n);
      LoadsIs(p, files1, parent);
      AddThenRemove(es, n, fileType, Short(name));
      NewIsLast(es, n, fileType, Short(name));
      NothingToFree(p.L.blockSize);
      removed := RemoveFile(p, parent, n, now, files1);
      forall m | m in files && m != parent as nat ensures Kept(p.L, d0, files, p.disk[..], files, m) {
        KeptTwice(p.L, d0, files, d1, files1, p.disk[..], files, m);
      }
    }
  }

  lemma NothingToFree(blockSize: nat)
    requires 0 < blockSize
    ensures DivUp(0, blockSize) == 0 && Sized([], 0) && |LeavesAll([])| == 0 && ToSet(LeavesAll([])[..0]) == {}
  {
  }

  /** An entry just added is the last one, so removing it is safe. */
  lemma NewIsLast(es: seq<Dirent>, inode: Word, fileType: Byte, name: seq<Byte>)
    requires Index(es, inode) == |es| && |Added(es, inode, fileType, name)| > |es|
    ensures var after := Added(es, inode, fileType, name);
            0 < Index(after, inode) == |after| - 1 && SafeToRemove(after, Index(after, inode))
  {
    var after := Added(es, inode, fileType, name);
    IndexIs(after, inode, |es|);
  }
}
