/** Byte ranges of a file, on top of whole blocks: a head, whole blocks, and a tail. */
module ByteRange {
  import opened Codec
  import opened Arith
  import opened Layouts
  import opened Partitions
  import opened Trees
  import opened Walks
  import opened FileWalks
  import opened Inodes
  import opened Reading
  import opened InodeReading
  import opened BlockMap

  /** All bytes below the given leaves: the file, padded to whole blocks. */
  ghost function Bytes(L: Layout, d: seq<Block>, iblock: seq<Word>, file: seq<Tree>): (s: seq<Byte>)
    requires L.Image(d) && Stored(L, d, iblock, file)
  {
    StoredLeaves(L, d, iblock, file);
    Concat(d, LeavesAll(file))
  }

  /** Byte x of a file: its block is found by the pointers on the disk. */
  lemma BytesAt(L: Layout, d: seq<Block>, iblock: seq<Word>, file: seq<Tree>, x: nat)
    requires L.Ok() && L.Image(d) && Stored(L, d, iblock, file) && x < |Bytes(L, d, iblock, file)|
    ensures 4 <= L.blockSize && |iblock| == 15 && HoldsByte(d, d, L.blockSize, iblock, 0, x, Bytes(L, d, iblock, file)[x])
  {
    hide HoldsByte, Stored, Concat, Layout.Ok, Layout.Image, LeavesAll;
    StoredLeaves(L, d, iblock, file);
    BlockSize(L, d);
    var ls := LeavesAll(file);
    ConcatLength(d, ls, L.blockSize);
    assert ls[0..0 + |ls|] == ls;
    StretchByte(L, d, d, iblock, file, 0, |ls|, x);
  }

  /** A stretch of the listed blocks is a stretch of their bytes. */
  lemma ConcatSlice(d: seq<Block>, ls: seq<nat>, size: nat, k: nat, n: nat)
    requires forall i :: 0 <= i < |ls| ==> ls[i] < |d|
    requires forall b :: 0 <= b < |d| ==> |d[b]| == size
    requires k + n <= |ls|
    ensures 0 <= k * size <= (k + n) * size <= |Concat(d, ls)|
    ensures Concat(d, ls[k..k + n]) == Concat(d, ls)[k * size..(k + n) * size]
  {
    var a, b, c := ls[..k], ls[k..k + n], ls[k + n..];
    assert ls == (a + b) + c;
    ConcatSplit(d, a, b);
    ConcatSplit(d, a + b, c);
    ConcatLength(d, a, size);
    ConcatLength(d, b, size);
    MulDistributes(k, n, size);
  }

  /** memcpy of one part after another. */
  lemma SpliceOn<T>(before: seq<T>, at: nat, s: seq<T>, a: nat, b: nat, c: nat)
    requires a <= b <= c <= |s| && at + (c - a) <= |before|
    ensures Splice(Splice(before, at, s[a..b]), at + (b - a), s[b..c]) == Splice(before, at, s[a..c])
  {
    assert s[a..b] + s[b..c] == s[a..c];
    SpliceSplice(before, at, s[a..b], s[b..c]);
  }

  lemma SliceOfSlice<T>(s: seq<T>, a: nat, b: nat, from: nat, len: nat)
    requires a <= b <= |s| && from + len <= b - a
    ensures s[a..b][from..from + len] == s[a + from..a + from + len]
  {
    var x, y := s[a..b][from..from + len], s[a + from..a + from + len];
    forall i | 0 <= i < len ensures x[i] == y[i] {
      assert x[i] == s[a..b][from + i] == s[a + (from + i)];
    }
  }

  /** How many bytes a read of `count` bytes puts into the buffer, s bytes into its first block. */
  function Extent(size: nat, s: nat, count: nat, blocks: nat): nat {
    if s == 0 then count
    else if s + count <= size then size - s
    else if s + count <= blocks * size then blocks * size - s
    else count
  }

  /** The read never has to start a transfer at block 12 or later; k is its first block. */
  predicate Reach(size: nat, k: nat, s: nat, count: nat, blocks: nat) {
    if s == 0 then count == 0 || k + blocks - 1 < 12
    else if s + count <= size then k < 12
    else k + 1 < 12 && (s + count <= blocks * size || k + blocks < 12)
  }

  /** How many bytes have arrived when a read ends, also one that gives up: the head, then the whole blocks. */
  function Arrived(size: nat, k: nat, s: nat, count: nat, blocks: nat): nat {
    var head, next := if s == 0 || s > size then 0 else size - s, if s == 0 then k else k + 1;
    if Reach(size, k, s, count, blocks) then Extent(size, s, count, blocks)
    else if s != 0 && k >= 12 then 0
    else if next >= 12 || blocks == 0 then head
    else After(head, blocks - 1, size)
  }

  /** The first n bytes after `skip` have been copied to the buffer. */
  ghost predicate Copied(all: seq<Byte>, skip: nat, n: nat, before: seq<Byte>, at: nat, after: seq<Byte>) {
    skip + n <= |all| && at + n <= |before| && after == Splice(before, at, all[skip..skip + n])
  }

  lemma CopiedIs(all: seq<Byte>, skip: nat, n: nat, before: seq<Byte>, at: nat, after: seq<Byte>)
    requires skip + n <= |all| && at + n <= |before| && after == Splice(before, at, all[skip..skip + n])
    ensures Copied(all, skip, n, before, at, after)
  {
  }

  ghost predicate Mounted(p: Partition, ino: nat, file: seq<Tree>)
    reads p, p.disk
  {
    && p.Shaped() && p.L.InodesOk() && IsInode(p.L, ino)
    && Stored(p.L, p.disk[..], IBlock(InodeAt(p.L, p.disk[..], ino)), file)
  }

  lemma MountedFacts(p: Partition, ino: nat, file: seq<Tree>)
    requires Mounted(p, ino, file)
    ensures p.L.blockSize > 0
    ensures p.Shaped() && p.L.InodesOk() && IsInode(p.L, ino)
    ensures Stored(p.L, p.disk[..], IBlock(InodeAt(p.L, p.disk[..], ino)), file)
    ensures |LeavesAll(file)| * p.L.blockSize == |FileBytes(p, ino, file)|
  {
    FileBytesLength(p, ino, file);
  }

  lemma InFileOne(file: seq<Tree>, k: nat)
    ensures InFile(file, k, 1) <==> k < 12 && k < |LeavesAll(file)|
  {
  }

  /** The bytes below the known leaves of a mounted file. */
  ghost function FileBytes(p: Partition, ino: nat, file: seq<Tree>): (s: seq<Byte>)
    requires Mounted(p, ino, file)
    reads p, p.disk
  {
    Bytes(p.L, p.disk[..], IBlock(InodeAt(p.L, p.disk[..], ino)), file)
  }

  lemma FileBytesLength(p: Partition, ino: nat, file: seq<Tree>)
    requires Mounted(p, ino, file)
    ensures |FileBytes(p, ino, file)| == |LeavesAll(file)| * p.L.blockSize
  {
    StoredLeaves(p.L, p.disk[..], IBlock(InodeAt(p.L, p.disk[..], ino)), file);
    ConcatLength(p.disk[..], LeavesAll(file), p.L.blockSize);
  }

  /** What a successful block read puts into the buffer, in terms of bytes. */
  lemma FilledBytes(p: Partition, ino: nat, file: seq<Tree>, k: nat, n: nat, before: seq<Byte>, at: nat,
                    after: seq<Byte>)
    requires Mounted(p, ino, file) && k + n <= |LeavesAll(file)|
    requires (StoredLeaves(p.L, p.disk[..], IBlock(InodeAt(p.L, p.disk[..], ino)), file);
              Filled(p.disk[..], LeavesAll(file), k, n, before, at, after))
    ensures 0 <= k * p.L.blockSize <= (k + n) * p.L.blockSize <= |FileBytes(p, ino, file)|
    ensures at + ((k + n) * p.L.blockSize - k * p.L.blockSize) <= |before|
    ensures after == Splice(before, at, FileBytes(p, ino, file)[k * p.L.blockSize..(k + n) * p.L.blockSize])
  {
    StoredLeaves(p.L, p.disk[..], IBlock(InodeAt(p.L, p.disk[..], ino)), file);
    ConcatSlice(p.disk[..], LeavesAll(file), p.L.blockSize, k, n);
  }

  /** One block, read into a temporary buffer. */
  method ReadOne(p: Partition, ino: nat, block: nat, ghost file: seq<Tree>) returns (ok: bool, data: seq<Byte>)
    requires Mounted(p, ino, file) && block < |LeavesAll(file)|
    ensures ok <==> block < 12
    ensures block * p.L.blockSize + p.L.blockSize <= |FileBytes(p, ino, file)|
    ensures ok ==> data == FileBytes(p, ino, file)[block * p.L.blockSize..block * p.L.blockSize + p.L.blockSize]
    ensures |data| == p.L.blockSize
  {
    hide *;
    MountedFacts(p, ino, file);
    InFileOne(file, block);
    var temp := new Byte[p.L.blockSize](_ => 0);
    ghost var blank := temp[..];
    AfterIs(0, 1, p.L.blockSize);
    var r := ReadInodeBlocks(p, ino, temp, 0, 1, block, file);
    MulSucc(block, p.L.blockSize);
    MulMonotone(block + 1, |LeavesAll(file)|, p.L.blockSize);
    if r == Done(1) {
      FilledBytes(p, ino, file, block, 1, blank, 0, temp[..]);
    }
    return r == Done(1), temp[..];
  }

  /** Part of one block, by way of a temporary buffer: the head and the tail of a read. */
  method ReadPiece(p: Partition, ino: nat, buffer: array<Byte>, at: nat, block: nat, from: nat, len: nat,
                   ghost file: seq<Tree>)
    returns (ok: bool)
    requires Mounted(p, ino, file) && block < |LeavesAll(file)|
    requires block < 12 ==> from + len <= p.L.blockSize && at + len <= buffer.Length
    modifies buffer
    ensures ok <==> block < 12
    ensures block * p.L.blockSize + p.L.blockSize <= |FileBytes(p, ino, file)|
    ensures !ok ==> buffer[..] == old(buffer[..])
    ensures ok ==> Copied(FileBytes(p, ino, file), block * p.L.blockSize + from, len, old(buffer[..]), at, buffer[..])
  {
    hide *;
    var data: seq<Byte>;
    ok, data := ReadOne(p, ino, block, file);
    if ok {
      ghost var o := block * p.L.blockSize;
      SliceOfSlice(FileBytes(p, ino, file), o, o + p.L.blockSize, from, len);
      ghost var before := buffer[..];
      CopyIn(buffer, at, data[from..from + len]);
      CopiedIs(FileBytes(p, ino, file), o + from, len, before, at, buffer[..]);
    }
  }

  /** Where a byte range of a mapped file lies, block by block. */
  lemma RangeFacts(size: nat, k: nat, s: nat, count: nat, blocks: nat, leaves: nat)
    requires 0 < size && s < size && blocks == DivUp(count, size) && k * size + s + count <= leaves * size
    ensures 0 < count ==> 0 < blocks && 0 <= (blocks - 1) * size < count <= blocks * size && blocks * size == (blocks - 1) * size + size
    ensures 0 < s + count ==> k < leaves
    ensures s == 0 && 0 < count ==> k + blocks <= leaves
    ensures size < s + count ==> k + blocks <= leaves && (blocks * size < s + count ==> k + blocks < leaves)
    ensures (k + 1) * size == k * size + size
    ensures 0 < blocks ==> (k + (blocks - 1)) * size == k * size + (blocks - 1) * size
    ensures (k + blocks) * size == k * size + blocks * size
    ensures 0 < blocks ==> (k + 1 + (blocks - 1)) * size == k * size + blocks * size
  {
    DivUpBounds(count, size);
    MulSucc(k, size);
    MulDistributes(k, blocks, size);
    if 0 < blocks {
      MulSucc(blocks - 1, size);
      MulDistributes(k, blocks - 1, size);
      MulDistributes(k + 1, blocks - 1, size);
    }
    Below(k, leaves, size, s + count);
    if 0 < count {
      Below(k + (blocks - 1), leaves, size, s + count - (blocks - 1) * size);
      if blocks * size < s + count {
        Below(k + blocks, leaves, size, s + count - blocks * size);
      }
    }
  }

  lemma Below(k: nat, leaves: nat, size: nat, more: nat)
    requires k * size + more <= leaves * size
    ensures 0 < more ==> k < leaves
  {
    if k >= leaves {
      MulMonotone(leaves, k, size);
    }
  }

  /** skip / size and skip % size */
  method Locate(skip: nat, size: nat) returns (k: nat, s: nat)
    requires 0 < size
    ensures k == Quotient(skip, size) && s == Remainder(skip, size)
    ensures skip == k * size + s && s < size
  {
    QuotientIsDivision(skip, size);
    QuotientRemainder(skip, size);
    return skip / size, skip % size;
  }

  /** The whole blocks of a read. */
  method ReadWhole(p: Partition, ino: nat, buffer: array<Byte>, at: nat, k: nat, n: nat, ghost file: seq<Tree>)
    returns (r: IoResult)
    requires Mounted(p, ino, file) && k + n <= |LeavesAll(file)| && at + n * p.L.blockSize <= buffer.Length
    modifies buffer
    ensures r == Done(if k >= 12 then 0 else n)
    ensures r == Done(0) ==> buffer[..] == old(buffer[..])
    ensures 0 <= k * p.L.blockSize <= (k + n) * p.L.blockSize <= |FileBytes(p, ino, file)|
    ensures (k + n) * p.L.blockSize - k * p.L.blockSize == n * p.L.blockSize
    ensures r == Done(n) && n > 0 ==> Copied(FileBytes(p, ino, file), k * p.L.blockSize, n * p.L.blockSize, old(buffer[..]), at, buffer[..])
  {
    hide Filled, Stored, Bytes;
    FileBytesLength(p, ino, file);
    MulMonotone(k + n, |LeavesAll(file)|, p.L.blockSize);
    MulMonotone(k, k + n, p.L.blockSize);
    MulDistributes(k, n, p.L.blockSize);
    r := ReadInodeBlocks(p, ino, buffer, at, n, k, file);
    if r == Done(n) && n > 0 {
      FilledBytes(p, ino, file, k, n, old(buffer[..]), at, buffer[..]);
    }
  }

  /** What follows the head: n whole blocks from block `start` on, then the tail, until `rest` bytes are there. */
  method ReadRest(p: Partition, ino: nat, buffer: array<Byte>, at: nat, start: nat, n: nat, rest: nat,
                  ghost file: seq<Tree>)
    returns (r: IoResult)
    requires Mounted(p, ino, file) && 0 < rest <= n * p.L.blockSize + p.L.blockSize
    requires start + n <= |LeavesAll(file)| && (n * p.L.blockSize < rest ==> start + n < |LeavesAll(file)|)
    requires start * p.L.blockSize + rest <= |FileBytes(p, ino, file)|
    requires at + (if rest <= n * p.L.blockSize then n * p.L.blockSize else rest) <= buffer.Length
    modifies buffer
    ensures var size := p.L.blockSize;
            if start < 12 && (rest <= n * size || start + n < 12) then
              && r == Done(if rest <= n * size then n * size else rest)
              && Copied(FileBytes(p, ino, file), start * size, r.count, old(buffer[..]), at, buffer[..])
            else
              && r == Failed
              && Copied(FileBytes(p, ino, file), start * size, if start >= 12 then 0 else n * size, old(buffer[..]), at, buffer[..])
  {
    hide *;
    MountedFacts(p, ino, file);
    var size := p.L.blockSize;
    ghost var all, before, o := FileBytes(p, ino, file), buffer[..], start * size;
    MulDistributes(start, n, size);
    CopiedNothing(all, o, before, at);
    r := ReadWhole(p, ino, buffer, at, start, n, file);
    ghost var mid := buffer[..];
    if r.count == n && start < 12 {
      if n * size < rest {
        var ok := ReadPiece(p, ino, buffer, at + n * size, start + n, 0, rest - n * size, file);
        if !ok {
          return Failed;
        }
        CopiedOn(all, o, n * size, rest - n * size, before, at, mid, buffer[..]);
        return Done(rest);
      }
      return Done(n * size);
    }
    var ok := ReadPiece(p, ino, buffer, at, start, 0, rest, file);
    return Failed;
  }

  lemma CopiedNothing(all: seq<Byte>, skip: nat, before: seq<Byte>, at: nat)
    requires skip <= |all| && at <= |before|
    ensures Copied(all, skip, 0, before, at, before)
  {
    SpliceNothing(before, at, all, skip);
  }

  /** The transfer behind the head, if there is anything left of the range. */
  method ReadOn(p: Partition, ino: nat, buffer: array<Byte>, at: nat, count: nat, skip: nat, k: nat, s: nat,
                ghost file: seq<Tree>, ghost before: seq<Byte>)
    returns (r: IoResult)
    requires Mounted(p, ino, file) && skip + count <= |FileBytes(p, ino, file)|
    requires 0 < p.L.blockSize && s < p.L.blockSize && skip == k * p.L.blockSize + s && (s != 0 ==> k < 12)
    requires at + Extent(p.L.blockSize, s, count, DivUp(count, p.L.blockSize)) <= buffer.Length
    requires Copied(FileBytes(p, ino, file), skip, if s == 0 then 0 else p.L.blockSize - s, before, at, buffer[..])
    modifies buffer
    ensures r == if Reach(p.L.blockSize, k, s, count, DivUp(count, p.L.blockSize))
                 then Done(Extent(p.L.blockSize, s, count, DivUp(count, p.L.blockSize))) else Failed
    ensures Copied(FileBytes(p, ino, file), skip, Arrived(p.L.blockSize, k, s, count, DivUp(count, p.L.blockSize)), before, at, buffer[..])
  {
    hide *;
    MountedFacts(p, ino, file);
    var size: nat := p.L.blockSize;
    var blocks: nat := DivUp(count, size);
    HeadPlan(size, k, s, count, blocks, |LeavesAll(file)|);
    ArrivedIs(size, k, s, count, blocks);
    var done: nat, next: nat := if s == 0 then 0 else size - s, if s == 0 then k else k + 1;
    if count <= done {
      return Done(done);
    }
    RestPlan(size, k, s, count, blocks, |LeavesAll(file)|, done, next);
    ghost var all, mid := FileBytes(p, ino, file), buffer[..];
    r := ReadRest(p, ino, buffer, at + done, next, blocks - 1, count - done, file);
    if r == Failed {
      CopiedOn(all, skip, done, if next >= 12 then 0 else (blocks - 1) * size, before, at, mid, buffer[..]);
      return Failed;
    }
    CopiedOn(all, skip, done, r.count, before, at, mid, buffer[..]);
    return Done(done + r.count);
  }

  /**
   What has arrived of a read that gives up: its head if that is below block 12, and then the whole blocks if the
   first is.
   */
  lemma ArrivedIs(size: nat, k: nat, s: nat, count: nat, blocks: nat)
    ensures Reach(size, k, s, count, blocks) ==> Arrived(size, k, s, count, blocks) == Extent(size, s, count, blocks)
    ensures !Reach(size, k, s, count, blocks) && s != 0 && k >= 12 ==> Arrived(size, k, s, count, blocks) == 0
    ensures !Reach(size, k, s, count, blocks) && s < size && 0 < blocks && (s == 0 || k < 12) ==>
              Arrived(size, k, s, count, blocks) ==
              if s == 0 then (if k < 12 then (blocks - 1) * size else 0)
              else if k < 11 then size - s + (blocks - 1) * size else size - s
  {
  }

  /**
   ext2_read_inode_bytes. The range must be mapped; it is read exactly when no transfer has to start at block 12 or later,
   and then the buffer holds Extent bytes of the file from `skip` on, of which the first `count` were asked for. A read that
   gives up leaves what has arrived until then.
   */
  method ReadInodeBytes(p: Partition, ino: nat, buffer: array<Byte>, at: nat, count: nat, skip: nat,
                        ghost file: seq<Tree>)
    returns (r: IoResult)
    requires Mounted(p, ino, file)
    requires skip + count <= |FileBytes(p, ino, file)|
    requires at + Extent(p.L.blockSize, Remainder(skip, p.L.blockSize), count, DivUp(count, p.L.blockSize)) <= buffer.Length
    modifies buffer
    ensures var size := p.L.blockSize; var s, blocks := Remainder(skip, size), DivUp(count, size);
            if Reach(size, Quotient(skip, size), s, count, blocks) then
              && r == Done(Extent(size, s, count, blocks)) && skip + r.count <= |FileBytes(p, ino, file)|
              && buffer[..] == Splice(old(buffer[..]), at, FileBytes(p, ino, file)[skip..skip + r.count])
            else
              && r == Failed
              && Copied(FileBytes(p, ino, file), skip, Arrived(size, Quotient(skip, size), s, count, blocks), old(buffer[..]), at, buffer[..])
  {
    hide *;
    MountedFacts(p, ino, file);
    var size: nat := p.L.blockSize;
    var k: nat, s: nat := Locate(skip, size);
    ghost var all, before, blocks := FileBytes(p, ino, file), buffer[..], DivUp(count, size);
    HeadPlan(size, k, s, count, blocks, |LeavesAll(file)|);
    ArrivedIs(size, k, s, count, blocks);
    CopiedNothing(all, skip, before, at);
    if s != 0 {
      var ok := ReadPiece(p, ino, buffer, at, k, s, size - s, file);
      if !ok {
        return Failed;
      }
    }
    r := ReadOn(p, ino, buffer, at, count, skip, k, s, file, before);
    CopiedFacts(all, skip, Arrived(size, k, s, count, blocks), before, at, buffer[..]);
  }

  lemma CopiedFacts(all: seq<Byte>, skip: nat, n: nat, before: seq<Byte>, at: nat, after: seq<Byte>)
    requires Copied(all, skip, n, before, at, after)
    ensures skip + n <= |all| && at + n <= |before| && after == Splice(before, at, all[skip..skip + n])
  {
  }

  /** What is there when the rest is given up: the head, and what was copied behind it. */
  lemma CopiedOn(all: seq<Byte>, skip: nat, done: nat, more: nat, before: seq<Byte>, at: nat, mid: seq<Byte>,
                 after: seq<Byte>)
    requires Copied(all, skip, done, before, at, mid) && Copied(all, skip + done, more, mid, at + done, after)
    ensures Copied(all, skip, done + more, before, at, after)
  {
    SpliceOn(before, at, all, skip, skip + done, skip + done + more);
  }

  /** The head: the rest of the first block, when the range starts inside one. */
  lemma HeadPlan(size: nat, k: nat, s: nat, count: nat, blocks: nat, leaves: nat)
    requires 0 < size && s < size && blocks == DivUp(count, size) && k * size + s + count <= leaves * size
    ensures s != 0 ==> k < leaves && size - s <= Extent(size, s, count, blocks) && (Reach(size, k, s, count, blocks) ==> k < 12)
    ensures s != 0 ==> k * size + size <= leaves * size
    ensures s != 0 && count <= size - s ==>
              Extent(size, s, count, blocks) == size - s && (Reach(size, k, s, count, blocks) <==> k < 12)
    ensures s == 0 && count == 0 ==> Extent(size, s, count, blocks) == 0 && Reach(size, k, s, count, blocks)
    ensures 0 < count ==> 0 < blocks
  {
    hide DivUp;
    RangeFacts(size, k, s, count, blocks, leaves);
    if s != 0 {
      MulMonotone(k + 1, leaves, size);
    }
  }

  /** What follows the head: whole blocks from a block boundary on, and the tail. */
  lemma RestPlan(size: nat, k: nat, s: nat, count: nat, blocks: nat, leaves: nat, done: nat, next: nat)
    requires 0 < size && s < size && blocks == DivUp(count, size) && k * size + s + count <= leaves * size
    requires done == (if s == 0 then 0 else size - s) && next == (if s == 0 then k else k + 1) && done < count
    ensures 0 < blocks && k * size + s + done == next * size
    ensures var whole, rest := (blocks - 1) * size, count - done;
            && 0 < rest <= whole + size
            && next + (blocks - 1) <= leaves && (whole < rest ==> next + (blocks - 1) < leaves)
            && Extent(size, s, count, blocks) == done + (if rest <= whole then whole else rest)
            && (s != 0 && k >= 12 ==> !Reach(size, k, s, count, blocks))
            && (s == 0 || k < 12 ==>
                  (Reach(size, k, s, count, blocks) <==> next < 12 && (rest <= whole || next + (blocks - 1) < 12)))
  {
    hide DivUp;
    RangeFacts(size, k, s, count, blocks, leaves);
  }

  lemma SpliceNothing<T>(before: seq<T>, at: nat, s: seq<T>, a: nat)
    requires a <= |s| && at <= |before|
    ensures Splice(before, at, s[a..a]) == before
  {
  }
}
