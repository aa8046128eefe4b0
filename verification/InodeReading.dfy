/** Reading the blocks of an inode. */
module InodeReading {
  import opened Codec
  import opened Partitions
  import opened Trees
  import opened Files
  import opened Walks
  import opened FileWalks
  import opened Reading
  import opened Inodes
  import opened BlockMap

  /** The direct entries. */
  method ReadFirst(p: Partition, iblock: seq<Word>, buffer: array<Byte>, at: nat, count: nat, skip: nat,
                   ghost file: seq<Tree>)
    returns (r: IoResult, left: nat)
    requires p.Shaped() && 0 < count && After(at, count, p.L.blockSize) <= buffer.Length
    requires Stored(p.L, p.disk[..], iblock, file)
    modifies buffer
    ensures skip >= 12 ==> r == Done(0) && buffer[..] == old(buffer[..])
    ensures Walked(p.L.Entries(), 0, 12, FileEnded(p.disk[..], iblock, file), Direct(file), count, skip, r, left)
    ensures InFile(file, skip, count) ==>
              (StoredLeaves(p.L, p.disk[..], iblock, file);
               r.Done? && Filled(p.disk[..], LeavesAll(file), skip, r.count, old(buffer[..]), at, buffer[..]))
  {
    hide Filled, After, Splice, RepAll, FileShape, FullAll, EndedAll, BlocksAll;
    ghost var d, before := p.disk[..], buffer[..];
    StoredLeaves(p.L, d, iblock, file);
    DirectReadable(p.L, d, iblock, file);
    ReadableLeaves(p.L, d, 0, iblock[..12], Direct(file));
    r, left := ReadDirect(p, iblock[..12], buffer, at, count, skip, LeavesAll(Direct(file)));
    FileWalkStart(p.L, d, iblock, file, FileEnded(d, iblock, file), count, skip, r, left);
    if InFile(file, skip, count) {
      FilledWider(d, LeavesAll(file), LeavesAll(Direct(file)), skip, r.count, before, at, buffer[..]);
    }
  }

  /** A stretch at the front of a list is a stretch of the list. */
  lemma FilledWider(d: seq<Block>, ls: seq<nat>, front: seq<nat>, skip: nat, n: nat, before: seq<Byte>, at: nat,
                    after: seq<Byte>)
    requires forall i :: 0 <= i < |ls| ==> ls[i] < |d|
    requires forall i :: 0 <= i < |front| ==> front[i] < |d|
    requires |front| <= |ls| && ls[0..|front|] == front
    requires Filled(d, front, skip, n, before, at, after)
    ensures Filled(d, ls, skip, n, before, at, after)
  {
    assert front[skip..skip + n] == ls[skip..skip + n];
  }

  /** One of the single, double and triple indirect entries. */
  method ReadEntry(p: Partition, iblock: seq<Word>, i: nat, buffer: array<Byte>, pos: nat, count: nat,
                   ghost file: seq<Tree>,
                   ghost at: nat, ghost skip: nat, n: nat, ghost before: seq<Byte>)
    returns (r: IoResult)
    requires p.Shaped() && n < count && 0 < n && After(at, count, p.L.blockSize) <= buffer.Length
    requires Stored(p.L, p.disk[..], iblock, file) && 12 <= i < 15
    requires FileWalking(file, FileEnded(p.disk[..], iblock, file), count, skip, i, n)
    requires InFile(file, skip, count) ==>
               (StoredLeaves(p.L, p.disk[..], iblock, file);
                Filled(p.disk[..], LeavesAll(file), skip, n, before, at, buffer[..]))
    requires pos == After(at, n, p.L.blockSize)
    modifies buffer
    ensures r == Failed || r == Done(0) ==> !InFile(file, skip, count)
    ensures r.Done? && r.count > 0 ==>
              n + r.count <= count && FileWalking(file, FileEnded(p.disk[..], iblock, file), count, skip, i + 1, n + r.count)
    ensures InFile(file, skip, count) ==>
              (StoredLeaves(p.L, p.disk[..], iblock, file);
               r.Done? && Filled(p.disk[..], LeavesAll(file), skip, n + r.count, before, at, buffer[..]))
  {
    hide *;
    p.ShapedFacts();
    StoredLeaves(p.L, p.disk[..], iblock, file);
    ghost var d, now, ended := p.disk[..], buffer[..], FileEnded(p.disk[..], iblock, file);
    EntryReadable(p.L, d, iblock, file, i);
    ReadableLeaves(p.L, d, Height(i), [iblock[i]], Entry(file, i));
    AfterMore(at, n, count - n, p.L.blockSize);
    var left: nat;
    HeightPositive(i);
    r, left := ReadLevel(p, i - 11, [iblock[i]], buffer, pos, count - n, 0, Entry(file, i));
    WalkedWeaker(p.L.Entries(), Height(i), 1, Terminated(d, [iblock[i]], Entry(file, i)), ended, Entry(file, i), count - n, 0, r, left);
    FileWalkStep(p.L, d, iblock, file, ended, count, skip, i, n, r, left);
    if InFile(file, skip, count) {
      FilledJoin(d, p.L.blockSize, LeavesAll(file), LeavesAll(Entry(file, i)), |LeavesAll(file[..i])|, skip, n, 0, r.count,
                 before, at, now, buffer[..]);
    }
  }

  /** ext2_read_inode_blocks once the inode has been read. */
  method ReadBlocks(p: Partition, iblock: seq<Word>, buffer: array<Byte>, at: nat, count: nat, skip: nat,
                    ghost file: seq<Tree>)
    returns (r: IoResult)
    requires p.Shaped() && After(at, count, p.L.blockSize) <= buffer.Length
    requires Stored(p.L, p.disk[..], iblock, file)
    modifies buffer
    ensures count == 0 || skip >= 12 ==> r == Done(0) && buffer[..] == old(buffer[..])
    ensures 0 < count && InFile(file, skip, count) ==>
              (StoredLeaves(p.L, p.disk[..], iblock, file);
               r == Done(count) && Filled(p.disk[..], LeavesAll(file), skip, count, old(buffer[..]), at, buffer[..]))
    ensures 0 < count && InFile(file, skip, count) ==>
              && 4 <= p.L.blockSize && |iblock| == 15
              && Delivered(p.disk[..], p.L.blockSize, iblock, skip, count, old(buffer[..]), at, buffer[..])
    ensures 0 < count && FileEnded(p.disk[..], iblock, file) && r == Done(count) ==> InFile(file, skip, count)
  {
    hide *;
    if count == 0 {
      return Done(0);
    }
    p.ShapedFacts();
    StoredLeaves(p.L, p.disk[..], iblock, file);
    ghost var d, before, ended := p.disk[..], buffer[..], FileEnded(p.disk[..], iblock, file);
    var left: nat;
    r, left := ReadFirst(p, iblock, buffer, at, count, skip, file);
    FileWalkStart(p.L, d, iblock, file, ended, count, skip, r, left);
    if r == Failed || r == Done(0) {
      return;
    }
    var n: nat, i: nat := r.count, 12;
    while i < 15 && n < count
      invariant 12 <= i <= 15 && 0 < n <= count
      invariant FileWalking(file, ended, count, skip, i, n)
      invariant InFile(file, skip, count) ==> Filled(d, LeavesAll(file), skip, n, before, at, buffer[..])
    {
      r := ReadEntry(p, iblock, i, buffer, After(at, n, p.L.blockSize), count, file, at, skip, n, before);
      if r == Failed || r == Done(0) {
        return;
      }
      n := n + r.count;
      i := i + 1;
    }
    FileWalkEnd(file, ended, count, skip, i, n);
    if InFile(file, skip, count) {
      FilledIs(p.L, d, iblock, file, skip, count, before, at, buffer[..]);
    }
    return if n >= count then Done(n) else Failed;
  }

  method ReadInodeBlocks(p: Partition, ino: nat, buffer: array<Byte>, at: nat, count: nat, skip: nat,
                         ghost file: seq<Tree>)
    returns (r: IoResult)
    requires p.Shaped() && p.L.InodesOk() && IsInode(p.L, ino) && After(at, count, p.L.blockSize) <= buffer.Length
    requires Stored(p.L, p.disk[..], IBlock(InodeAt(p.L, p.disk[..], ino)), file)
    modifies buffer
    ensures count == 0 || skip >= 12 ==> r == Done(0) && buffer[..] == old(buffer[..])
    ensures 0 < count && InFile(file, skip, count) ==>
              (StoredLeaves(p.L, p.disk[..], IBlock(InodeAt(p.L, p.disk[..], ino)), file);
               r == Done(count) && Filled(p.disk[..], LeavesAll(file), skip, count, old(buffer[..]), at, buffer[..]))
    ensures 0 < count && InFile(file, skip, count) ==>
              && 4 <= p.L.blockSize
              && Delivered(p.disk[..], p.L.blockSize, IBlock(InodeAt(p.L, p.disk[..], ino)), skip, count, old(buffer[..]), at,
                           buffer[..])
    ensures 0 < count && FileEnded(p.disk[..], IBlock(InodeAt(p.L, p.disk[..], ino)), file) && r == Done(count) ==>
              InFile(file, skip, count)
  {
    hide Filled, Delivered, Stored, FileEnded, After, InodeAt;
    if count == 0 {
      return Done(0);
    }
    var raw := ReadInode(p, ino);
    r := ReadBlocks(p, IBlock(raw), buffer, at, count, skip, file);
  }
}
