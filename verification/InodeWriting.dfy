/** Writing the blocks of an inode. */
module InodeWriting {
  import opened Codec
  import opened Layouts
  import opened Partitions
  import opened Trees
  import opened Files
  import opened Walks
  import opened FileWalks
  import opened Writing
  import opened Inodes
  import opened BlockMap

  lemma StoredFrame(L: Layout, d0: seq<Block>, d1: seq<Block>, iblock: seq<Word>, file: seq<Tree>)
    requires Stored(L, d0, iblock, file) && ApartAll(file) && Confined(d0, d1, LeavesAll(file))
    ensures Stored(L, d1, iblock, file)
    ensures |iblock| == 15 && (FileEnded(d0, iblock, file) ==> FileEnded(d1, iblock, file))
  {
    hide FileShape, ApartAll, BlocksAll;
    ApartAllFacts(file);
    forall b | b in NodesAll(file) && b < |d0| ensures d0[b] == d1[b] {
      assert b !in ToSet(LeavesAll(file));
    }
    RepAllFrame(d0, d1, file);
  }

  lemma StoredEmpty(L: Layout, d: seq<Block>, iblock: seq<Word>)
    requires |iblock| == 15
    ensures Stored(L, d, iblock, [])
  {
  }

  lemma EntryApart(file: seq<Tree>, i: nat)
    requires ApartAll(file)
    ensures ApartAll(Entry(file, i)) && NoDup(LeavesAll(Entry(file, i))) && NoDup(LeavesAll(file))
  {
    if i < |file| {
      AllAt([], file, i);
      Append([], [], file[i]);
      assert [] + [file[i]] == [file[i]];
    }
    ApartAllFacts(Entry(file, i));
    ApartAllFacts(file);
  }

  lemma DirectApart(file: seq<Tree>)
    requires ApartAll(file)
    ensures NoDup(LeavesAll(Direct(file)))
  {
    if |file| > 12 {
      AllPrefix([], file, 12);
    }
    ApartAllFacts(Direct(file));
  }

  /** A stretch at the front of a list is a stretch of the list. */
  lemma WrittenWider(d0: seq<Block>, d1: seq<Block>, ls: seq<nat>, front: seq<nat>, skip: nat, n: nat,
                     source: seq<Byte>, at: nat, size: nat)
    requires forall i :: 0 <= i < |ls| ==> ls[i] < |d0|
    requires forall i :: 0 <= i < |front| ==> front[i] < |d0|
    requires |front| <= |ls| && ls[0..|front|] == front && Written(d0, d1, front, skip, n, source, at, size)
    ensures Written(d0, d1, ls, skip, n, source, at, size)
  {
    assert front[skip..skip + n] == ls[skip..skip + n];
  }

  /** The direct entries. */
  method WriteFirst(p: Partition, iblock: seq<Word>, source: seq<Byte>, at: nat, count: nat, skip: nat,
                    ghost file: seq<Tree>)
    returns (r: IoResult, left: nat)
    requires p.Shaped() && 0 < count && After(at, count, p.L.blockSize) <= |source|
    requires Stored(p.L, p.disk[..], iblock, file) && ApartAll(file)
    modifies p.disk
    ensures p.Shaped()
    ensures skip >= 12 ==> r == Done(0) && p.disk[..] == old(p.disk[..])
    ensures Walked(p.L.Entries(), 0, 12, FileEnded(old(p.disk[..]), iblock, file), Direct(file), count, skip, r, left)
    ensures InFile(file, skip, count) ==>
              (StoredLeaves(p.L, old(p.disk[..]), iblock, file);
               r.Done? && Written(old(p.disk[..]), p.disk[..], LeavesAll(file), skip, r.count, source, at, p.L.blockSize))
    ensures InFile(file, skip, count) || FileEnded(old(p.disk[..]), iblock, file) ==>
              Confined(old(p.disk[..]), p.disk[..], LeavesAll(file))
  {
    hide Written, After, RepAll, FileShape, FullAll, EndedAll, BlocksAll, ApartAll, Confined;
    ghost var d := p.disk[..];
    StoredLeaves(p.L, d, iblock, file);
    DirectReadable(p.L, d, iblock, file);
    DirectApart(file);
    ReadableLeaves(p.L, d, 0, iblock[..12], Direct(file));
    r, left := WriteDirect(p, iblock[..12], source, at, count, skip, LeavesAll(Direct(file)));
    ghost var ended := FileEnded(d, iblock, file);
    FileWalkStart(p.L, d, iblock, file, ended, count, skip, r, left);
    if InFile(file, skip, count) {
      WrittenWider(d, p.disk[..], LeavesAll(file), LeavesAll(Direct(file)), skip, r.count, source, at, p.L.blockSize);
      WrittenConfined(d, p.disk[..], LeavesAll(file), skip, r.count, source, at, p.L.blockSize);
    } else if ended {
      DirectLeaves(file);
      ConfinedRefl(d, LeavesAll(file));
      ConfinedJoin(d, d, p.disk[..], LeavesAll(file), LeavesAll(Direct(file)), 0);
    }
  }

  lemma DirectLeaves(file: seq<Tree>)
    ensures |LeavesAll(Direct(file))| <= |LeavesAll(file)| && LeavesAll(file)[0..|LeavesAll(Direct(file))|] == LeavesAll(Direct(file))
  {
    if |file| > 12 {
      AllPrefix([], file, 12);
    }
  }

  lemma EntryLeaves(file: seq<Tree>, i: nat)
    ensures var o := if i < |file| then |LeavesAll(file[..i])| else 0;
            && o + |LeavesAll(Entry(file, i))| <= |LeavesAll(file)|
            && LeavesAll(file)[o..o + |LeavesAll(Entry(file, i))|] == LeavesAll(Entry(file, i))
  {
    if i < |file| {
      LeavesAt(file, i);
      assert [file[i]][..0] == [];
    }
  }

  /** One of the single, double and triple indirect entries. */
  method WriteEntry(p: Partition, iblock: seq<Word>, i: nat, source: seq<Byte>, pos: nat, count: nat,
                    ghost file: seq<Tree>,
                    ghost at: nat, ghost skip: nat, n: nat, ghost d: seq<Block>, ghost ended: bool)
    returns (r: IoResult)
    requires p.Shaped() && p.L.Image(d) && n < count && 0 < n && After(at, count, p.L.blockSize) <= |source|
    requires Stored(p.L, d, iblock, file) && Stored(p.L, p.disk[..], iblock, file) && ApartAll(file) && 12 <= i < 15
    requires ended ==> FileEnded(p.disk[..], iblock, file)
    requires InFile(file, skip, count) || ended || file == []
    requires FileWalking(file, ended, count, skip, i, n)
    requires InFile(file, skip, count) ==>
               (StoredLeaves(p.L, d, iblock, file); Written(d, p.disk[..], LeavesAll(file), skip, n, source, at, p.L.blockSize))
    requires file != [] || ended ==> Confined(d, p.disk[..], LeavesAll(file))
    requires pos == After(at, n, p.L.blockSize)
    modifies p.disk
    ensures p.Shaped() && Stored(p.L, p.disk[..], iblock, file)
    ensures ended ==> FileEnded(p.disk[..], iblock, file)
    ensures r == Failed || r == Done(0) ==> !InFile(file, skip, count)
    ensures r.Done? && r.count > 0 ==> n + r.count <= count && FileWalking(file, ended, count, skip, i + 1, n + r.count)
    ensures InFile(file, skip, count) ==>
               (StoredLeaves(p.L, d, iblock, file);
                r.Done? && Written(d, p.disk[..], LeavesAll(file), skip, n + r.count, source, at, p.L.blockSize))
    ensures file != [] || ended ==> Confined(d, p.disk[..], LeavesAll(file))
  {
    hide *;
    ghost var now := p.disk[..];
    p.ShapedFacts();
    StoredLeaves(p.L, d, iblock, file);
    StoredLeaves(p.L, now, iblock, file);
    EntryReadable(p.L, now, iblock, file, i);
    EntryApart(file, i);
    EntryLeaves(file, i);
    ReadableLeaves(p.L, now, Height(i), [iblock[i]], Entry(file, i));
    AfterMore(at, n, count - n, p.L.blockSize);
    var left: nat;
    HeightPositive(i);
    r, left := WriteLevel(p, i - 11, [iblock[i]], source, pos, count - n, 0, Entry(file, i));
    p.ShapedFacts();
    WalkedWeaker(p.L.Entries(), Height(i), 1, Terminated(now, [iblock[i]], Entry(file, i)), ended, Entry(file, i), count - n, 0, r, left);
    FileWalkStep(p.L, now, iblock, file, ended, count, skip, i, n, r, left);
    StoredEmpty(p.L, p.disk[..], iblock);
    if file != [] || ended {
      ghost var o := if i < |file| then |LeavesAll(file[..i])| else 0;
      ConfinedJoin(d, now, p.disk[..], LeavesAll(file), LeavesAll(Entry(file, i)), o);
      ConfinedRefl(now, LeavesAll(file));
      ConfinedJoin(now, now, p.disk[..], LeavesAll(file), LeavesAll(Entry(file, i)), o);
      StoredFrame(p.L, now, p.disk[..], iblock, file);
    }
    if InFile(file, skip, count) {
      WrittenJoin(d, now, p.disk[..], p.L.blockSize, LeavesAll(file), LeavesAll(Entry(file, i)), |LeavesAll(file[..i])|,
                  skip, n, 0, r.count, source, at);
    }
  }

  /** ext2_write_inode_blocks once the inode has been read. */
  method WriteBlocks(p: Partition, iblock: seq<Word>, source: seq<Byte>, at: nat, count: nat, skip: nat,
                     ghost file: seq<Tree>)
    returns (r: IoResult)
    requires p.Shaped() && After(at, count, p.L.blockSize) <= |source|
    requires Stored(p.L, p.disk[..], iblock, file) && ApartAll(file)
    modifies p.disk
    ensures p.Shaped()
    ensures count == 0 || skip >= 12 ==> r == Done(0) && p.disk[..] == old(p.disk[..])
    ensures 0 < count && InFile(file, skip, count) ==>
              (StoredLeaves(p.L, old(p.disk[..]), iblock, file);
               && r == Done(count)
               && Written(old(p.disk[..]), p.disk[..], LeavesAll(file), skip, count, source, at, p.L.blockSize))
    ensures 0 < count && InFile(file, skip, count) ==>
              && 4 <= p.L.blockSize && |iblock| == 15
              && Deposited(old(p.disk[..]), p.disk[..], p.L.blockSize, iblock, skip, count, source, at)
    ensures 0 < count && FileEnded(old(p.disk[..]), iblock, file) ==>
              && Confined(old(p.disk[..]), p.disk[..], LeavesAll(file))
              && (r == Done(count) ==> InFile(file, skip, count))
  {
    hide *;
    if count == 0 {
      return Done(0);
    }
    p.ShapedFacts();
    ghost var d := p.disk[..];
    StoredLeaves(p.L, d, iblock, file);
    // A request that runs into unknown pointers may write anywhere: nothing is tracked for it.
    ghost var good := InFile(file, skip, count) || FileEnded(d, iblock, file);
    ghost var known, ended := if good then file else [], good && FileEnded(d, iblock, file);
    KnownPart(p.L, d, iblock, file, known, good, skip, count);
    StoredLeaves(p.L, d, iblock, known);
    var left: nat;
    r, left := WriteFirst(p, iblock, source, at, count, skip, known);
    p.ShapedFacts();
    WalkedWeaker(p.L.Entries(), 0, 12, FileEnded(d, iblock, known), ended, Direct(known), count, skip, r, left);
    FileWalkStart(p.L, d, iblock, known, ended, count, skip, r, left);
    if r == Failed || r == Done(0) {
      return;
    }
    StoredEmpty(p.L, p.disk[..], iblock);
    if known != [] || ended {
      StoredFrame(p.L, d, p.disk[..], iblock, known);
    }
    var n: nat, i: nat := r.count, 12;
    while i < 15 && n < count
      invariant p.Shaped() && 12 <= i <= 15 && 0 < n <= count
      invariant Stored(p.L, p.disk[..], iblock, known) && (ended ==> FileEnded(p.disk[..], iblock, known))
      invariant FileWalking(known, ended, count, skip, i, n)
      invariant InFile(known, skip, count) ==> Written(d, p.disk[..], LeavesAll(known), skip, n, source, at, p.L.blockSize)
      invariant known != [] || ended ==> Confined(d, p.disk[..], LeavesAll(known))
    {
      r := WriteEntry(p, iblock, i, source, After(at, n, p.L.blockSize), count, known, at, skip, n, d, ended);
      if r == Failed || r == Done(0) {
        return;
      }
      n := n + r.count;
      i := i + 1;
    }
    FileWalkEnd(known, ended, count, skip, i, n);
    if InFile(known, skip, count) {
      p.ShapedFacts();
      WrittenIs(p.L, d, p.disk[..], iblock, known, skip, count, source, at);
    }
    return if n >= count then Done(n) else Failed;
  }

  lemma KnownPart(L: Layout, d: seq<Block>, iblock: seq<Word>, file: seq<Tree>, known: seq<Tree>, good: bool,
                  skip: nat, count: nat)
    requires Stored(L, d, iblock, file) && ApartAll(file) && 0 < count
    requires good <==> InFile(file, skip, count) || FileEnded(d, iblock, file)
    requires known == if good then file else []
    ensures |iblock| == 15 && Stored(L, d, iblock, known) && ApartAll(known)
    ensures InFile(known, skip, count) <==> InFile(file, skip, count)
    ensures InFile(known, skip, count) || (good && FileEnded(d, iblock, file)) || known == []
  {
  }

  method WriteInodeBlocks(p: Partition, ino: nat, source: seq<Byte>, at: nat, count: nat, skip: nat,
                          ghost file: seq<Tree>)
    returns (r: IoResult)
    requires p.Shaped() && p.L.InodesOk() && IsInode(p.L, ino) && After(at, count, p.L.blockSize) <= |source|
    requires Stored(p.L, p.disk[..], IBlock(InodeAt(p.L, p.disk[..], ino)), file) && ApartAll(file)
    modifies p.disk
    ensures p.Shaped()
    ensures count == 0 || skip >= 12 ==> r == Done(0) && p.disk[..] == old(p.disk[..])
    ensures 0 < count && InFile(file, skip, count) ==>
              (StoredLeaves(p.L, old(p.disk[..]), IBlock(InodeAt(p.L, old(p.disk[..]), ino)), file);
               && r == Done(count)
               && Written(old(p.disk[..]), p.disk[..], LeavesAll(file), skip, count, source, at, p.L.blockSize))
    ensures 0 < count && InFile(file, skip, count) ==>
              && 4 <= p.L.blockSize
              && Deposited(old(p.disk[..]), p.disk[..], p.L.blockSize, IBlock(InodeAt(p.L, old(p.disk[..]), ino)), skip,
                           count, source, at)
    ensures 0 < count && FileEnded(old(p.disk[..]), IBlock(InodeAt(p.L, old(p.disk[..]), ino)), file) ==>
              && Confined(old(p.disk[..]), p.disk[..], LeavesAll(file))
              && (r == Done(count) ==> InFile(file, skip, count))
  {
    hide Written, Deposited, Confined, Stored, FileEnded, After, InodeAt;
    if count == 0 {
      return Done(0);
    }
    var raw := ReadInode(p, ino);
    r := WriteBlocks(p, IBlock(raw), source, at, count, skip, file);
  }
}
