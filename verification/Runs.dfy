/** Whole runs of the machine: any list of requests, served one after another. */
module Runs {
  import opened Codec
  import opened Arith
  import opened Layouts
  import opened Partitions
  import opened Trees
  import opened Files
  import opened Inodes
  import opened Volumes
  import opened BlockList
  import opened ByteWrite
  import opened Ext2
  import opened Chains
  import opened Dentries
  import opened Removal
  import opened Names
  import opened DirectoryRuns
  import opened Directories
  import opened Histories
  import Steps

  /** The live inodes, each with its number of data blocks. */
  ghost predicate Known(known: map<nat, nat>, files: map<nat, seq<Tree>>) {
    known.Keys == files.Keys && forall n :: n in files ==> known[n] == |LeavesAll(files[n])|
  }

  lemma KnownAt(p: Partition, known: map<nat, nat>, files: map<nat, seq<Tree>>, n: nat)
    requires Live(p, files) && Known(known, files)
    ensures n in known <==> n in files
    ensures n in files ==> known[n] == |LeavesAll(files[n])| && Sized(files[n], known[n]) && (known[n] <= 12 <==> |files[n]| <= 12)
  {
    hide Live, Sized;
    if n in files {
      LiveCount(p, files, n);
    }
  }

  lemma KnownPut(known: map<nat, nat>, files: map<nat, seq<Tree>>, n: nat, file: seq<Tree>, count: nat)
    requires Known(known, files) && count == |LeavesAll(file)|
    ensures Known(known[n := count], files[n := file])
  {
  }

  lemma KnownCut(known: map<nat, nat>, files: map<nat, seq<Tree>>, n: nat)
    requires Known(known, files)
    ensures Known(known - {n}, files - {n})
  {
  }

  lemma KnownKeys(known: map<nat, nat>, files: map<nat, seq<Tree>>, n: nat)
    requires Known(known, files)
    ensures n in known <==> n in files
  {
  }

  ghost function StateOf(p: Partition, files: map<nat, seq<Tree>>): State
    requires p.Shaped()
    reads p, p.disk
  {
    State(p.disk[..], p.Free(), files)
  }

  lemma StateIs(p: Partition, files: map<nat, seq<Tree>>)
    requires Live(p, files)
    ensures p.Shaped() && StateOf(p, files) == State(p.disk[..], p.Free(), files)
    ensures Sane(p.L, p.cleared, StateOf(p, files)) && 0 < p.L.Entries() && 0 < p.L.blockSize && 0 < p.L.sectorSize
  {
  }

  lemma SeenPresent(p: Partition, files: map<nat, seq<Tree>>, n: nat)
    requires Live(p, files)
    ensures p.Shaped() && Sane(p.L, p.cleared, StateOf(p, files))
    ensures n in files ==> Seen(p.L, p.cleared, StateOf(p, files), n) == Present(Inode(p, files, n), Data(p, files, n))
                           && IsFile(Seen(p.L, p.cleared, StateOf(p, files), n))
    ensures n !in files ==> Seen(p.L, p.cleared, StateOf(p, files), n) == Absent
  {
    if n in files {
      LiveFile(p, files, n);
    }
  }

  /** Only creation is for inodes that are not in use. */
  lemma NotAdmitted(p: Partition, files: map<nat, seq<Tree>>, r: Request)
    requires Live(p, files) && !r.Create? && r.ino !in files
    ensures p.Shaped() && Sane(p.L, p.cleared, StateOf(p, files)) && 0 < p.L.Entries() && 0 < p.L.blockSize
    ensures !Admitted(p.L, p.cleared, r, StateOf(p, files))
  {
    hide Live, Sane, Seen, Listable, HasRoom, Tiled;
    StateIs(p, files);
    SeenPresent(p, files, r.ino);
  }

  /** Admission, in terms of the partition. */
  lemma AdmittedIs(p: Partition, files: map<nat, seq<Tree>>, r: Request)
    requires Live(p, files) && p.Shaped() && Sane(p.L, p.cleared, StateOf(p, files)) && 0 < p.L.Entries() && 0 < p.L.blockSize
    requires p.L.InodesOk()
    ensures r.Create? ==>
              (Admitted(p.L, p.cleared, r, StateOf(p, files)) <==>
               r.ino !in files && IsInode(p.L, r.ino) && 0 <= r.mode < 0x1_0000 && 0 <= r.uid < 0x1_0000 && 0 <= r.gid < 0x1_0000)
    ensures r.ino in files ==>
              var raw, data := Inode(p, files, r.ino), Data(p, files, r.ino); var size, leaves := ISize(raw), |LeavesAll(files[r.ino])|;
              && (r.Resize? ==>
                    (Admitted(p.L, p.cleared, r, StateOf(p, files)) <==>
                     && (size < r.size ==> leaves <= 12 && Grantable(p.L, p.Free(), files[r.ino], DivUp(r.size - size, p.L.blockSize)))
                     && (r.size < size ==> size - r.size < p.L.blockSize && CanList(p.cleared, leaves, DivUp(size, p.L.blockSize)))))
              && (r.Write? ==>
                    (Admitted(p.L, p.cleared, r, StateOf(p, files)) <==>
                     && !IsDirectory(raw)
                     && (size < r.skip + r.count ==>
                           leaves <= 12 && Grantable(p.L, p.Free(), files[r.ino], DivUp(r.skip + r.count - size, p.L.blockSize)))
                     && Writes(p.L.blockSize, |r.source|, r.count, r.skip)))
              && (r.Delete? ==>
                    (Admitted(p.L, p.cleared, r, StateOf(p, files)) <==> CanList(p.cleared, leaves, DivUp(size, p.L.blockSize))))
              && (r.Initialize? ==>
                    (Admitted(p.L, p.cleared, r, StateOf(p, files)) <==>
                     r.ino < 0x1_0000_0000 && IsDirectory(raw) && DIRECTORY_BYTES <= size <= p.L.blockSize))
              && (r.Link? ==>
                    (Admitted(p.L, p.cleared, r, StateOf(p, files)) <==>
                     IsDirectory(raw) && size <= 12 * p.L.blockSize && Tiled(data, 0, size) && HasRoom(data, size, |Short(r.name)|)))
              && (r.Unlink? ==>
                    (Admitted(p.L, p.cleared, r, StateOf(p, files)) <==>
                     && IsDirectory(raw) && size <= 12 * p.L.blockSize && Tiled(data, 0, size) && size < 0x1_0000
                     && Index(Parse(data, 0, size), r.target) < |Parse(data, 0, size)|))
  {
    hide Live, Sane, Seen, Grantable, DivUp, Writes, Transfers, LeavesAll, Inode, Data, HasRoom, Tiled, Parse, Index, IsDirectory;
    SeenPresent(p, files, r.ino);
  }

  /** Whether the first blocks of a file with so many data blocks can be listed. */
  predicate CanList(cleared: bool, leaves: nat, blocks: nat) {
    blocks <= leaves && (leaves <= 12 || (cleared && (blocks <= 12 || blocks == leaves)))
  }

  lemma CanListSized(p: Partition, files: map<nat, seq<Tree>>, n: nat, blocks: nat)
    requires Live(p, files) && n in files && CanList(p.cleared, |LeavesAll(files[n])|, blocks)
    ensures Sized(files[n], blocks) && (p.cleared || |files[n]| <= 12)
  {
    hide Live, LeavesAll;
    LiveCount(p, files, n);
  }

  lemma ResizableIf(p: Partition, files: map<nat, seq<Tree>>, n: nat, newSize: Word)
    requires Live(p, files) && n in files && p.L.blockSize > 0
    requires ISize(Inode(p, files, n)) < newSize ==> |files[n]| <= 12
    requires newSize < ISize(Inode(p, files, n)) ==>
               (p.cleared || |files[n]| <= 12) && Sized(files[n], DivUp(ISize(Inode(p, files, n)), p.L.blockSize))
    ensures Resizable(p, files, n, newSize)
  {
  }

  /** A step on one inode leaves what is to be seen of the others. */
  lemma StepSeen(L: Layout, cleared: bool, s: State, t: State, n: nat)
    requires Sane(L, cleared, s) && Step(L, cleared, s.disk, s.free, s.files, t.disk, t.free, t.files, n)
    ensures Sane(L, cleared, t) && forall m :: m != n ==> Seen(L, cleared, t, m) == Seen(L, cleared, s, m)
  {
    StepKeepsLive(L, cleared, s.disk, s.free, s.files, t.disk, t.free, t.files, n);
    forall m | m != n ensures Seen(L, cleared, t, m) == Seen(L, cleared, s, m) {
      SeenElsewhere(L, cleared, s, t, n, m);
    }
  }

  lemma SeenElsewhere(L: Layout, cleared: bool, s: State, t: State, n: nat, m: nat)
    requires Sane(L, cleared, s) && Sane(L, cleared, t) && m != n
    requires Step(L, cleared, s.disk, s.free, s.files, t.disk, t.free, t.files, n)
    ensures Seen(L, cleared, t, m) == Seen(L, cleared, s, m)
  {
    hide AllLive, FileLive, Layout.InodesOk, Layout.Image, Local;
    assert m in s.files.Keys + {n} <==> m in t.files.Keys + {n};
    if m in s.files {
      OthersKept(L, cleared, s.disk, s.free, s.files, t.disk, t.free, t.files, n, m);
      StepKeepsContents(L, cleared, s.disk, s.free, s.files, t.disk, t.free, t.files, n, m);
    }
  }

  lemma FollowsIs(L: Layout, cleared: bool, r: Request, ok: bool, s: State, t: State)
    requires Sane(L, cleared, s) && Step(L, cleared, s.disk, s.free, s.files, t.disk, t.free, t.files, r.ino)
    requires 0 < L.Entries() && 0 < L.blockSize && 0 < L.sectorSize && (ok <==> Accepted(L, cleared, r, s))
    requires Sane(L, cleared, t)
    requires Effect(L, r, Admitted(L, cleared, r, s), Seen(L, cleared, s, r.ino), Seen(L, cleared, t, r.ino))
    requires Spends(L, cleared, r, s, t.free) && Buried(L, cleared, r, s, t.disk)
    ensures Follows(L, cleared, r, ok, s, t)
  {
    hide Sane, Seen, Effect, Accepted, Admitted, Step, Spends, Buried;
    StepSeen(L, cleared, s, t, r.ino);
  }

  /** A request that is not admitted, and does not try to make its file grow, changes nothing. */
  lemma FollowsNothing(L: Layout, cleared: bool, r: Request, s: State)
    requires Sane(L, cleared, s) && 0 < L.Entries() && 0 < L.blockSize && 0 < L.sectorSize
    ensures !Admitted(L, cleared, r, s) && Missing(L, cleared, r, s) == 0 ==> Follows(L, cleared, r, false, s, s)
  {
    hide Sane, Seen, Admitted, Missing;
  }

  lemma BuriedIs(L: Layout, cleared: bool, r: Request, s: State, d: seq<Block>)
    requires Sane(L, cleared, s) && 0 < L.Entries() && 0 < L.blockSize
    ensures !r.Delete? ==> Buried(L, cleared, r, s, d)
    ensures (r.Delete? && IsFile(Seen(L, cleared, s, r.ino)) && L.InodesOk() && IsInode(L, r.ino) && L.Image(d)
             && InodeAt(L, d, r.ino) == Dead(Seen(L, cleared, s, r.ino).inode, r.now)) ==> Buried(L, cleared, r, s, d)
  {
    hide Sane, Seen, Admitted, InodeAt, Dead;
  }

  /** What a request leaves of the free blocks, case by case. */
  lemma SpendsIs(L: Layout, cleared: bool, r: Request, s: State, free: set<nat>)
    requires Sane(L, cleared, s) && 0 < L.Entries() && 0 < L.blockSize
    ensures Missing(L, cleared, r, s) > 0 ==> r.ino in s.files && IsFile(Seen(L, cleared, s, r.ino)) && (r.Resize? || r.Write?)
    ensures r.ino in s.files && IsFile(Seen(L, cleared, s, r.ino)) ==>
              var raw, leaves := Seen(L, cleared, s, r.ino).inode, |LeavesAll(s.files[r.ino])|; var size := ISize(raw);
              && (r.Resize? ==> Missing(L, cleared, r, s) == if leaves <= 12 && size < r.size then r.size - size else 0)
              && (r.Write? ==> Missing(L, cleared, r, s) ==
                               if leaves <= 12 && !IsDirectory(raw) && Writes(L.blockSize, |r.source|, r.count, r.skip)
                                  && size < r.skip + r.count then r.skip + r.count - size else 0)
              && (r.Delete? && Admitted(L, cleared, r, s) ==>
                    var blocks := DivUp(size, L.blockSize);
                    blocks <= leaves && free == s.free + ToSet(LeavesAll(s.files[r.ino])[..blocks]) ==>
                      Spends(L, cleared, r, s, free))
    ensures var more := Missing(L, cleared, r, s);
            && (more > 0 && Spent(L.Entries(), s.free, free, |s.files[r.ino]|, DivUp(more, L.blockSize)) ==>
                  Spends(L, cleared, r, s, free))
            && (more == 0 && !r.Delete? && free == s.free ==> Spends(L, cleared, r, s, free))
  {
    hide Sane, Seen, Admitted, Spent, DivUp, LeavesAll, Writes, IsDirectory, ISize, ToSet;
  }

  lemma AcceptedIs(L: Layout, cleared: bool, r: Request, s: State)
    requires Sane(L, cleared, s) && 0 < L.Entries() && 0 < L.blockSize
    ensures Accepted(L, cleared, r, s) <==> Admitted(L, cleared, r, s) && (r.Write? ==> Transfers(L.blockSize, r.skip, r.count))
  {
  }

  // ----- Serving requests -----

  lemma SlotExists(L: Layout, n: nat)
    requires L.InodesOk()
    ensures 0 < L.inodesPerGroup && (IsInode(L, n) <==> 1 <= n && (n - 1) / L.inodesPerGroup < |L.bitmaps|)
  {
    if 1 <= n {
      QuotientIsDivision(n - 1, L.inodesPerGroup);
    }
  }

  lemma EmptyFile()
    ensures |LeavesAll([])| == 0
  {
  }

  lemma CreateEffect(L: Layout, r: Request, v: View, w: View)
    requires r.Create? && 0 < L.blockSize && 0 < L.sectorSize
    requires v.Absent? && IsFile(w) && IMode(w.inode) == r.mode && ISize(w.inode) == 0 && w.data == []
    requires FreshInode(w.inode, r.mode, r.uid, r.gid, r.now, r.unique)
    ensures Effect(L, r, true, v, w)
  {
  }

  /** Creation, for an inode number that names a slot and is not in use. */
  method ServeCreate(p: Partition, r: Request, known: map<nat, nat>, ghost files: map<nat, seq<Tree>>)
    returns (ok: bool, known': map<nat, nat>, ghost files': map<nat, seq<Tree>>)
    requires r.Create? && Live(p, files) && Known(known, files)
    modifies p`groupFree, p`superFree, p.disk
    ensures Live(p, files') && Known(known', files')
    ensures Follows(p.L, p.cleared, r, ok, old(StateOf(p, files)), StateOf(p, files'))
  {
    hide *;
    ok, known', files' := false, known, files;
    LiveFacts(p, files);
    p.ShapedFacts();
    StateIs(p, files);
    FollowsNothing(p.L, p.cleared, r, StateOf(p, files));
    AcceptedIs(p.L, p.cleared, r, StateOf(p, files));
    AdmittedIs(p, files, r);
    SpendsIs(p.L, p.cleared, r, StateOf(p, files), p.Free());
    KnownKeys(known, files, r.ino);
    SlotExists(p.L, r.ino);
    if r.ino == 0 || r.ino in known {
      return;
    }
    if (r.ino - 1) / p.L.inodesPerGroup >= |p.L.bitmaps| {
      return;
    }
    if 0 <= r.mode < 0x1_0000 && 0 <= r.uid < 0x1_0000 && 0 <= r.gid < 0x1_0000 {
      SeenPresent(p, files, r.ino);
      ghost var s := StateOf(p, files);
      CreateInode(p, r.ino, r.mode, r.uid, r.gid, r.now, r.unique, files);
      files' := files[r.ino := []];
      EmptyFile();
      KnownPut(known, files, r.ino, [], 0);
      ok, known' := true, known[r.ino := 0];
      StateIs(p, files');
      SeenPresent(p, files', r.ino);
      CreateEffect(p.L, r, Seen(p.L, p.cleared, s, r.ino), Seen(p.L, p.cleared, StateOf(p, files'), r.ino));
      BuriedIs(p.L, p.cleared, r, s, p.disk[..]);
      FollowsIs(p.L, p.cleared, r, true, s, StateOf(p, files'));
    }
  }

  lemma ResizeEffect(L: Layout, r: Request, ok: bool, v: View, w: View, before: nat, after: nat)
    requires r.Resize? && 0 < L.blockSize && 0 < L.sectorSize && IsFile(v) && IsFile(w)
    requires ok ==> if ISize(v.inode) == r.size then w.inode == v.inode else ResizedTo(L, v.inode, r.size, w.inode)
    requires v.data <= w.data && (!ok ==> w.inode == v.inode && |w.data| == |v.data|)
    requires |v.data| == before * L.blockSize && |w.data| == after * L.blockSize
    requires ok ==> after == before + if ISize(v.inode) < r.size then DivUp(r.size - ISize(v.inode), L.blockSize) else 0
    ensures Effect(L, r, ok, v, w)
  {
    hide DivUp;
    MulDistributes(before, after - before, L.blockSize);
  }

  /** Resizing: growth of files that so far use direct blocks only, and shrinking within the last block. */
  method ServeResize(p: Partition, r: Request, known: map<nat, nat>, ghost files: map<nat, seq<Tree>>)
    returns (ok: bool, known': map<nat, nat>, ghost files': map<nat, seq<Tree>>)
    requires r.Resize? && Live(p, files) && Known(known, files)
    modifies p`groupFree, p`superFree, p.disk
    ensures Live(p, files') && Known(known', files')
    ensures Follows(p.L, p.cleared, r, ok, old(StateOf(p, files)), StateOf(p, files'))
  {
    hide *;
    ok, known', files' := false, known, files;
    LiveFacts(p, files);
    p.ShapedFacts();
    StateIs(p, files);
    FollowsNothing(p.L, p.cleared, r, StateOf(p, files));
    AcceptedIs(p.L, p.cleared, r, StateOf(p, files));
    AdmittedIs(p, files, r);
    SpendsIs(p.L, p.cleared, r, StateOf(p, files), p.Free());
    KnownAt(p, known, files, r.ino);
    if r.ino !in known {
      NotAdmitted(p, files, r);
      return;
    }
    LiveFile(p, files, r.ino);
    SeenPresent(p, files, r.ino);
    var raw: seq<Byte> := ReadInode(p, r.ino);
    if ISize(raw) < r.size && known[r.ino] > 12 {
      return;
    }
    if r.size < ISize(raw) {
      var blocks: nat := DivUp(ISize(raw), p.L.blockSize);
      if ISize(raw) - r.size >= p.L.blockSize || !CanList(p.cleared, known[r.ino], blocks) {
        return;
      }
      CanListSized(p, files, r.ino, blocks);
      CutOf(ISize(raw) - r.size, p.L.blockSize, LeavesAll(files[r.ino]));
    }
    CutOf(0, p.L.blockSize, LeavesAll(files[r.ino]));
    ResizableIf(p, files, r.ino, r.size);
    ghost var s, f0 := StateOf(p, files), p.Free();
    ghost var file: seq<Tree>;
    ok, file := ResizeFile(p, r.ino, r.size, files);
    files' := files[r.ino := file];
    LiveFacts(p, files');
    LiveFile(p, files', r.ino);
    var more: nat := 0;
    if ok && ISize(raw) < r.size {
      more := DivUp(r.size - ISize(raw), p.L.blockSize);
      Steps.ExtendedLeaves(p.L.Entries(), f0, p.Free(), files[r.ino], file, more);
    }
    KnownPut(known, files, r.ino, file, known[r.ino] + more);
    known' := known[r.ino := known[r.ino] + more];
    StateIs(p, files');
    SeenPresent(p, files', r.ino);
    ResizeEffect(p.L, r, ok, Seen(p.L, p.cleared, s, r.ino), Seen(p.L, p.cleared, StateOf(p, files'), r.ino), known[r.ino], known'[r.ino]);
    ResizeSpends(p.L, p.cleared, r, s, p.Free());
    BuriedIs(p.L, p.cleared, r, s, p.disk[..]);
    FollowsIs(p.L, p.cleared, r, ok, s, StateOf(p, files'));
  }

  /** What the wrapper checks of a write, and what is then up to the operation. */
  predicate Checked(blockSize: nat, r: Request, size: nat, leaves: nat)
    requires r.Write? && 0 < blockSize
  {
    Writes(blockSize, |r.source|, r.count, r.skip) && (size < r.skip + r.count ==> leaves <= 12)
  }

  lemma AdmittedWrite(p: Partition, files: map<nat, seq<Tree>>, r: Request)
    requires Live(p, files) && p.Shaped() && Sane(p.L, p.cleared, StateOf(p, files)) && 0 < p.L.Entries() && 0 < p.L.blockSize
    requires r.Write? && r.ino in files
    ensures var raw := Inode(p, files, r.ino); var checked := Checked(p.L.blockSize, r, ISize(raw), |LeavesAll(files[r.ino])|);
            && (!checked ==> !Admitted(p.L, p.cleared, r, StateOf(p, files)) && Missing(p.L, p.cleared, r, StateOf(p, files)) == 0)
            && (checked ==>
                  (Admitted(p.L, p.cleared, r, StateOf(p, files)) <==>
                   && !IsDirectory(raw)
                   && (ISize(raw) < r.skip + r.count ==>
                         Grantable(p.L, p.Free(), files[r.ino], DivUp(r.skip + r.count - ISize(raw), p.L.blockSize)))))
  {
    hide Live, Sane, Seen, Grantable, DivUp, Writes, LeavesAll, Inode, Data, Admitted, Missing, Spends, IsDirectory, ISize, ToSet;
    LiveFacts(p, files);
    SeenPresent(p, files, r.ino);
    SpendsIs(p.L, p.cleared, r, StateOf(p, files), {});
    AdmittedIs(p, files, r);
  }

  lemma CheckedDomain(p: Partition, files: map<nat, seq<Tree>>, r: Request)
    requires Live(p, files) && 0 < p.L.blockSize && r.Write? && r.ino in files
    requires Checked(p.L.blockSize, r, ISize(Inode(p, files, r.ino)), |LeavesAll(files[r.ino])|)
    ensures WriteDomain(p, files, r.ino, |r.source|, r.count, r.skip)
  {
    hide Live, Sane, LeavesAll, Inode, Data, Needed, Remainder, DivUp;
    LiveCount(p, files, r.ino);
    InDomain(p, files, r.ino, |r.source|, r.count, r.skip);
  }

  lemma WriteEffect(L: Layout, r: Request, free: set<nat>, file: seq<Tree>, ok: bool, admitted: bool, v: View,
                    w: View, grown: seq<Byte>)
    requires r.Write? && 0 < L.blockSize && 0 < L.sectorSize && 0 < L.Entries() && IsFile(v) && IsFile(w)
    requires WriteResult(L, free, file, r.source, r.count, r.skip, ok, v.inode, v.data, w.inode, w.data, grown)
    requires admitted <==>
             && !IsDirectory(v.inode)
             && (ISize(v.inode) < r.skip + r.count ==> Grantable(L, free, file, DivUp(r.skip + r.count - ISize(v.inode), L.blockSize)))
    ensures Effect(L, r, admitted, v, w) && (ok <==> admitted && Transfers(L.blockSize, r.skip, r.count))
  {
    hide DataWritten, ResizedTo, Transfers, Grantable, DivUp;
  }

  lemma WriteSpends(L: Layout, cleared: bool, r: Request, s: State, free: set<nat>)
    requires Sane(L, cleared, s) && 0 < L.Entries() && 0 < L.blockSize && r.Write?
    requires r.ino in s.files && IsFile(Seen(L, cleared, s, r.ino))
    requires var raw := Seen(L, cleared, s, r.ino).inode;
             && Checked(L.blockSize, r, ISize(raw), |LeavesAll(s.files[r.ino])|)
             && if !IsDirectory(raw) && ISize(raw) < r.skip + r.count then
                  Spent(L.Entries(), s.free, free, |s.files[r.ino]|, DivUp(r.skip + r.count - ISize(raw), L.blockSize))
                else free == s.free
    ensures Spends(L, cleared, r, s, free)
  {
    hide Sane, Seen, Spent, DivUp, LeavesAll, Writes, IsDirectory, ISize, ToSet, Missing, Spends;
    SpendsIs(L, cleared, r, s, free);
  }

  lemma ResizeSpends(L: Layout, cleared: bool, r: Request, s: State, free: set<nat>)
    requires Sane(L, cleared, s) && 0 < L.Entries() && 0 < L.blockSize && r.Resize?
    requires r.ino in s.files && IsFile(Seen(L, cleared, s, r.ino))
    requires var size := ISize(Seen(L, cleared, s, r.ino).inode);
             if size < r.size then
               && |LeavesAll(s.files[r.ino])| <= 12
               && Spent(L.Entries(), s.free, free, |s.files[r.ino]|, DivUp(r.size - size, L.blockSize))
             else free == s.free
    ensures Spends(L, cleared, r, s, free)
  {
    hide Sane, Seen, Spent, DivUp, LeavesAll, Writes, IsDirectory, ISize, ToSet, Missing, Spends;
    SpendsIs(L, cleared, r, s, free);
  }

  /** Writing within the domain of ext2_write_file. */
  method ServeWrite(p: Partition, r: Request, known: map<nat, nat>, ghost files: map<nat, seq<Tree>>)
    returns (ok: bool, known': map<nat, nat>, ghost files': map<nat, seq<Tree>>)
    requires r.Write? && Live(p, files) && Known(known, files)
    modifies p`groupFree, p`superFree, p.disk
    ensures Live(p, files') && Known(known', files')
    ensures Follows(p.L, p.cleared, r, ok, old(StateOf(p, files)), StateOf(p, files'))
  {
    hide *;
    ok, known', files' := false, known, files;
    LiveFacts(p, files);
    p.ShapedFacts();
    StateIs(p, files);
    FollowsNothing(p.L, p.cleared, r, StateOf(p, files));
    SpendsIs(p.L, p.cleared, r, StateOf(p, files), p.Free());
    KnownAt(p, known, files, r.ino);
    if r.ino !in known {
      NotAdmitted(p, files, r);
      return;
    }
    LiveFile(p, files, r.ino);
    SeenPresent(p, files, r.ino);
    var raw: seq<Byte> := ReadInode(p, r.ino);
    AdmittedWrite(p, files, r);
    QuotientRemainder(r.skip, p.L.blockSize);
    if !Checked(p.L.blockSize, r, ISize(raw), known[r.ino]) {
      return;
    }
    CheckedDomain(p, files, r);
    SeenPresent(p, files, r.ino);
    ghost var before := StateOf(p, files);
    ghost var admitted, free, v := Admitted(p.L, p.cleared, r, before), p.Free(), Seen(p.L, p.cleared, before, r.ino);
    AcceptedIs(p.L, p.cleared, r, before);
    ghost var file: seq<Tree>, grown: seq<Byte>;
    ok, file, grown := WriteFile(p, r.ino, r.source, r.count, r.skip, files);
    files' := files[r.ino := file];
    LiveFacts(p, files');
    LiveFile(p, files', r.ino);
    var raw': seq<Byte> := ReadInode(p, r.ino);
    var count: nat := known[r.ino] + DivUp(ISize(raw') - ISize(raw), p.L.blockSize);
    KnownPut(known, files, r.ino, file, count);
    known' := known[r.ino := count];
    StateIs(p, files');
    SeenPresent(p, files', r.ino);
    WriteEffect(p.L, r, free, files[r.ino], ok, admitted, v, Seen(p.L, p.cleared, StateOf(p, files'), r.ino), grown);
    WriteSpends(p.L, p.cleared, r, before, p.Free());
    BuriedIs(p.L, p.cleared, r, before, p.disk[..]);
    FollowsIs(p.L, p.cleared, r, ok, before, StateOf(p, files'));
  }

  lemma DeleteEffect(L: Layout, r: Request, v: View, w: View)
    requires r.Delete? && 0 < L.blockSize && 0 < L.sectorSize && IsFile(v) && w.Absent?
    ensures Effect(L, r, true, v, w)
  {
  }

  /** Deleting a file whose blocks can be listed. */
  method ServeDelete(p: Partition, r: Request, known: map<nat, nat>, ghost files: map<nat, seq<Tree>>)
    returns (ok: bool, known': map<nat, nat>, ghost files': map<nat, seq<Tree>>)
    requires r.Delete? && Live(p, files) && Known(known, files)
    modifies p`groupFree, p`superFree, p.disk
    ensures Live(p, files') && Known(known', files')
    ensures Follows(p.L, p.cleared, r, ok, old(StateOf(p, files)), StateOf(p, files'))
  {
    hide *;
    ok, known', files' := false, known, files;
    LiveFacts(p, files);
    p.ShapedFacts();
    StateIs(p, files);
    FollowsNothing(p.L, p.cleared, r, StateOf(p, files));
    AcceptedIs(p.L, p.cleared, r, StateOf(p, files));
    AdmittedIs(p, files, r);
    SpendsIs(p.L, p.cleared, r, StateOf(p, files), p.Free());
    KnownAt(p, known, files, r.ino);
    if r.ino !in known {
      NotAdmitted(p, files, r);
      return;
    }
    LiveFile(p, files, r.ino);
    SeenPresent(p, files, r.ino);
    var raw: seq<Byte> := ReadInode(p, r.ino);
    var blocks: nat := DivUp(ISize(raw), p.L.blockSize);
    if CanList(p.cleared, known[r.ino], blocks) {
      CanListSized(p, files, r.ino, blocks);
      ghost var s := StateOf(p, files);
      ok := DeleteFile(p, r.ino, r.now, files);
      KnownCut(known, files, r.ino);
      known', files' := known - {r.ino}, files - {r.ino};
      StateIs(p, files');
      assert r.ino !in files';
      SeenPresent(p, files', r.ino);
      DeleteEffect(p.L, r, Seen(p.L, p.cleared, s, r.ino), Seen(p.L, p.cleared, StateOf(p, files'), r.ino));
      SpendsIs(p.L, p.cleared, r, s, p.Free());
      BuriedIs(p.L, p.cleared, r, s, p.disk[..]);
      FollowsIs(p.L, p.cleared, r, ok, s, StateOf(p, files'));
    }
  }

  // ----- Requests for directories -----

  lemma InitializeEffect(L: Layout, r: Request, v: View, w: View)
    requires r.Initialize? && 0 < L.blockSize && 0 < L.sectorSize && SameInode(v, w) && r.ino < 0x1_0000_0000
    requires DIRECTORY_BYTES <= |v.data| && w.data == Initial(v.data, r.ino, r.parent)
    ensures Effect(L, r, true, v, w)
  {
  }

  lemma DirectoryFits(size: nat, blockSize: nat)
    requires size <= blockSize
    ensures size <= 12 * blockSize
  {
  }

  /** The two records of a fresh directory of at most one block. */
  method ServeInitialize(p: Partition, r: Request, known: map<nat, nat>, ghost files: map<nat, seq<Tree>>)
    returns (ok: bool, known': map<nat, nat>, ghost files': map<nat, seq<Tree>>)
    requires r.Initialize? && Live(p, files) && Known(known, files)
    modifies p`groupFree, p`superFree, p.disk
    ensures Live(p, files') && Known(known', files')
    ensures Follows(p.L, p.cleared, r, ok, old(StateOf(p, files)), StateOf(p, files'))
  {
    hide *;
    ok, known', files' := false, known, files;
    LiveFacts(p, files);
    p.ShapedFacts();
    StateIs(p, files);
    FollowsNothing(p.L, p.cleared, r, StateOf(p, files));
    AcceptedIs(p.L, p.cleared, r, StateOf(p, files));
    AdmittedIs(p, files, r);
    SpendsIs(p.L, p.cleared, r, StateOf(p, files), p.Free());
    KnownAt(p, known, files, r.ino);
    if r.ino !in known {
      NotAdmitted(p, files, r);
      return;
    }
    LiveFile(p, files, r.ino);
    SeenPresent(p, files, r.ino);
    var raw: seq<Byte> := ReadInode(p, r.ino);
    LoadsIs(p, files, r.ino);
    if r.ino < 0x1_0000_0000 && IsDirectory(raw) && DIRECTORY_BYTES <= ISize(raw) <= p.L.blockSize {
      DirectoryFits(ISize(raw), p.L.blockSize);
      ghost var s := StateOf(p, files);
      InitializeDirectory(p, r.ino, r.parent, files);
      ok := true;
      StateIs(p, files);
      SeenPresent(p, files, r.ino);
      SameInodeIs(Seen(p.L, p.cleared, s, r.ino), Seen(p.L, p.cleared, StateOf(p, files), r.ino));
      InitializeEffect(p.L, r, Seen(p.L, p.cleared, s, r.ino), Seen(p.L, p.cleared, StateOf(p, files), r.ino));
      BuriedIs(p.L, p.cleared, r, s, p.disk[..]);
      FollowsIs(p.L, p.cleared, r, true, s, StateOf(p, files));
    }
  }

  lemma SameInodeIs(v: View, w: View)
    requires IsFile(v) && IsFile(w) && v.inode == w.inode
    ensures SameInode(v, w)
  {
  }

  lemma LinkEffect(L: Layout, r: Request, v: View, w: View)
    requires r.Link? && 0 < L.blockSize && 0 < L.sectorSize && SameInode(v, w)
    requires HasRoom(v.data, ISize(v.inode), |Short(r.name)|)
    requires w.data == WithEntry(v.data, ISize(v.inode), r.child, r.fileType, Short(r.name))
    ensures Effect(L, r, true, v, w)
  {
  }

  /** A new directory entry, for a directory whose records tile it. */
  method ServeLink(p: Partition, r: Request, known: map<nat, nat>, ghost files: map<nat, seq<Tree>>)
    returns (ok: bool, known': map<nat, nat>, ghost files': map<nat, seq<Tree>>)
    requires r.Link? && Live(p, files) && Known(known, files)
    modifies p`groupFree, p`superFree, p.disk
    ensures Live(p, files') && Known(known', files')
    ensures Follows(p.L, p.cleared, r, ok, old(StateOf(p, files)), StateOf(p, files'))
  {
    hide *;
    ok, known', files' := false, known, files;
    LiveFacts(p, files);
    p.ShapedFacts();
    StateIs(p, files);
    FollowsNothing(p.L, p.cleared, r, StateOf(p, files));
    AcceptedIs(p.L, p.cleared, r, StateOf(p, files));
    AdmittedIs(p, files, r);
    SpendsIs(p.L, p.cleared, r, StateOf(p, files), p.Free());
    KnownAt(p, known, files, r.ino);
    if r.ino !in known {
      NotAdmitted(p, files, r);
      return;
    }
    LiveFile(p, files, r.ino);
    SeenPresent(p, files, r.ino);
    LoadsIs(p, files, r.ino);
    ChainedIs(p, files, r.ino);
    var directory, loaded, buffer, size := LoadDirectory(p, r.ino, 0, files);
    if !loaded {
      return;
    }
    SameChain(Data(p, files, r.ino), buffer[..], size);
    if !Tiled(buffer[..], 0, size) {
      return;
    }
    ghost var s := StateOf(p, files);
    ok := CreateDirectoryEntry(p, r.ino, r.child, r.fileType, r.name, files);
    StateIs(p, files);
    if ok {
      SeenPresent(p, files, r.ino);
      SameInodeIs(Seen(p.L, p.cleared, s, r.ino), Seen(p.L, p.cleared, StateOf(p, files), r.ino));
      LinkEffect(p.L, r, Seen(p.L, p.cleared, s, r.ino), Seen(p.L, p.cleared, StateOf(p, files), r.ino));
      BuriedIs(p.L, p.cleared, r, s, p.disk[..]);
      FollowsIs(p.L, p.cleared, r, true, s, StateOf(p, files));
    }
  }

  lemma UnlinkEffect(L: Layout, r: Request, v: View, w: View)
    requires r.Unlink? && 0 < L.blockSize && 0 < L.sectorSize && SameInode(v, w)
    requires Unlinked(v.data, w.data, ISize(v.inode), r.target)
    ensures Effect(L, r, true, v, w)
  {
  }

  lemma UnlinkedIs(s: seq<Byte>, t: seq<Byte>, size: nat, target: Word)
    requires Tiled(s, 0, size) && size <= |s| && size <= |t| && t[size..] == s[size..]
    requires var es := Parse(s, 0, size); var i := Index(es, target);
             && i < |es| && (Tiled(t, 0, size) <==> i > 0)
             && (i > 0 ==> (SafeToRemove(es, i) <==> Parse(t, 0, size) == Removed(es, target)))
    requires LooksUpDeleted(s, t, size, target)
    ensures Unlinked(s, t, size, target)
  {
  }

  /** The first entry for an inode goes, in a directory whose records tile it. */
  method ServeUnlink(p: Partition, r: Request, known: map<nat, nat>, ghost files: map<nat, seq<Tree>>)
    returns (ok: bool, known': map<nat, nat>, ghost files': map<nat, seq<Tree>>)
    requires r.Unlink? && Live(p, files) && Known(known, files)
    modifies p`groupFree, p`superFree, p.disk
    ensures Live(p, files') && Known(known', files')
    ensures Follows(p.L, p.cleared, r, ok, old(StateOf(p, files)), StateOf(p, files'))
  {
    hide *;
    ok, known', files' := false, known, files;
    LiveFacts(p, files);
    p.ShapedFacts();
    StateIs(p, files);
    FollowsNothing(p.L, p.cleared, r, StateOf(p, files));
    AcceptedIs(p.L, p.cleared, r, StateOf(p, files));
    AdmittedIs(p, files, r);
    SpendsIs(p.L, p.cleared, r, StateOf(p, files), p.Free());
    KnownAt(p, known, files, r.ino);
    if r.ino !in known {
      NotAdmitted(p, files, r);
      return;
    }
    LiveFile(p, files, r.ino);
    SeenPresent(p, files, r.ino);
    LoadsIs(p, files, r.ino);
    ChainedIs(p, files, r.ino);
    var directory, loaded, buffer, size := LoadDirectory(p, r.ino, 0, files);
    if !loaded {
      return;
    }
    SameChain(Data(p, files, r.ino), buffer[..], size);
    if !Tiled(buffer[..], 0, size) || size >= 0x1_0000 {
      return;
    }
    ghost var s, data := StateOf(p, files), Data(p, files, r.ino);
    ok := DeleteDentry(p, r.ino, r.target, files);
    StateIs(p, files);
    if ok {
      SeenPresent(p, files, r.ino);
      ChainedIs(p, files, r.ino);
      UnlinkedIs(data, Data(p, files, r.ino), size, r.target);
      SameInodeIs(Seen(p.L, p.cleared, s, r.ino), Seen(p.L, p.cleared, StateOf(p, files), r.ino));
      UnlinkEffect(p.L, r, Seen(p.L, p.cleared, s, r.ino), Seen(p.L, p.cleared, StateOf(p, files), r.ino));
      BuriedIs(p.L, p.cleared, r, s, p.disk[..]);
      FollowsIs(p.L, p.cleared, r, true, s, StateOf(p, files));
    }
  }

  /** One request; requests outside the domain of the operations are refused. */
  method Serve(p: Partition, r: Request, known: map<nat, nat>, ghost files: map<nat, seq<Tree>>)
    returns (ok: bool, known': map<nat, nat>, ghost files': map<nat, seq<Tree>>)
    requires Live(p, files) && Known(known, files)
    modifies p`groupFree, p`superFree, p.disk
    ensures Live(p, files') && Known(known', files')
    ensures Follows(p.L, p.cleared, r, ok, old(StateOf(p, files)), StateOf(p, files'))
  {
    hide *;
    match r {
      case Create(_, _, _, _, _, _) => ok, known', files' := ServeCreate(p, r, known, files);
      case Resize(_, _) => ok, known', files' := ServeResize(p, r, known, files);
      case Write(_, _, _, _) => ok, known', files' := ServeWrite(p, r, known, files);
      case Delete(_, _) => ok, known', files' := ServeDelete(p, r, known, files);
      case Initialize(_, _) => ok, known', files' := ServeInitialize(p, r, known, files);
      case Link(_, _, _, _) => ok, known', files' := ServeLink(p, r, known, files);
      case Unlink(_, _) => ok, known', files' := ServeUnlink(p, r, known, files);
    }
  }

  /**
   Any run. The files stay live after every request, so bitmaps and counters stay sound and no block is ever shared,
   and the run is a history of the simple store that maps inode numbers to what is to be seen of their files.
   */
  method Run(p: Partition, requests: seq<Request>, known: map<nat, nat>, ghost files: map<nat, seq<Tree>>)
    returns (answers: seq<bool>, known': map<nat, nat>, ghost files': map<nat, seq<Tree>>, ghost trace: seq<State>)
    requires Live(p, files) && Known(known, files)
    modifies p`groupFree, p`superFree, p.disk
    ensures Live(p, files') && Known(known', files')
    ensures History(p.L, p.cleared, requests, answers, trace)
    ensures trace[0] == old(StateOf(p, files)) && trace[|requests|] == StateOf(p, files')
  {
    hide *;
    known', files', answers := known, files, [];
    StateIs(p, files);
    trace := [StateOf(p, files)];
    EmptyHistory(p.L, p.cleared, trace);
    var i: nat := 0;
    assert requests[..0] == [];
    while i < |requests|
      invariant i <= |requests| && |trace| == i + 1
      invariant Live(p, files') && Known(known', files') && p.Shaped()
      invariant History(p.L, p.cleared, requests[..i], answers, trace)
      invariant trace[0] == old(StateOf(p, files)) && trace[i] == StateOf(p, files')
    {
      StateIs(p, files');
      ghost var s := StateOf(p, files');
      var ok: bool;
      ok, known', files' := Serve(p, requests[i], known', files');
      StateIs(p, files');
      LongerHistory(p.L, p.cleared, requests, answers, trace, i, ok, StateOf(p, files'));
      answers, trace := answers + [ok], trace + [StateOf(p, files')];
      i := i + 1;
    }
    assert requests[..|requests|] == requests;
  }

  lemma EmptyHistory(L: Layout, cleared: bool, trace: seq<State>)
    requires |trace| == 1
    ensures History(L, cleared, [], [], trace)
  {
  }

  lemma LongerHistory(L: Layout, cleared: bool, requests: seq<Request>, answers: seq<bool>, trace: seq<State>,
                      i: nat, ok: bool, t: State)
    requires i < |requests| && History(L, cleared, requests[..i], answers, trace)
    requires |trace| == i + 1 && Follows(L, cleared, requests[i], ok, trace[i], t)
    ensures History(L, cleared, requests[..i + 1], answers + [ok], trace + [t])
  {
    hide Follows;
    var rs, os, ts := requests[..i + 1], answers + [ok], trace + [t];
    forall j | 0 <= j < i + 1 ensures Follows(L, cleared, rs[j], os[j], ts[j], ts[j + 1]) {
      if j < i {
        assert Follows(L, cleared, requests[..i][j], answers[j], trace[j], trace[j + 1]);
      }
    }
  }
}
