/** Writing byte ranges of a file, on top of whole blocks. */
module ByteWrite {
  import opened Codec
  import opened Arith
  import opened Layouts
  import opened Partitions
  import opened Trees
  import opened Walks
  import opened FileWalks
  import opened Inodes
  import opened Writing
  import opened InodeWriting
  import opened ByteRange

  /** A mounted file whose blocks are distinct and hold neither bitmaps nor inodes. */
  ghost predicate Writable(p: Partition, ino: nat, file: seq<Tree>)
    reads p, p.disk
  {
    && Mounted(p, ino, file) && ApartAll(file)
    && forall b :: b in BlocksAll(file) ==> !p.L.Reserved(b)
  }

  lemma LeavesInBlocks(file: seq<Tree>)
    ensures forall b :: b in LeavesAll(file) ==> b in BlocksAll(file)
  {
    BlocksAllSplit(file);
    forall b | b in LeavesAll(file) ensures b in BlocksAll(file) {
      assert b in ToSet(LeavesAll(file));
    }
  }

  lemma InRange(d: seq<Block>, ls: seq<nat>, i: nat, j: nat)
    requires forall k :: 0 <= k < |ls| ==> ls[k] < |d|
    requires i <= j <= |ls|
    ensures forall k :: 0 <= k < |ls[i..j]| ==> ls[i..j][k] < |d|
  {
  }

  lemma CutThree(ls: seq<nat>, i: nat, j: nat)
    requires i <= j <= |ls|
    ensures ls == (ls[..i] + ls[i..j]) + ls[j..]
  {
  }

  /** The bytes of a list, cut in three. */
  lemma ConcatThree(d: seq<Block>, ls: seq<nat>, i: nat, j: nat)
    requires forall k :: 0 <= k < |ls| ==> ls[k] < |d|
    requires i <= j <= |ls|
    ensures Concat(d, ls) == Concat(d, ls[..i]) + Concat(d, ls[i..j]) + Concat(d, ls[j..])
  {
    hide Concat;
    InRange(d, ls, 0, i);
    InRange(d, ls, i, j);
    InRange(d, ls, j, |ls|);
    CutThree(ls, i, j);
    ConcatSplit(d, ls[..i], ls[i..j]);
    ConcatSplit(d, ls[..i] + ls[i..j], ls[j..]);
  }

  /** Writes in the middle of a list without repetitions keep the bytes before and after. */
  lemma WrittenAround(d0: seq<Block>, d1: seq<Block>, ls: seq<nat>, i: nat, j: nat)
    requires forall k :: 0 <= k < |ls| ==> ls[k] < |d0|
    requires NoDup(ls) && i <= j <= |ls| && Confined(d0, d1, ls[i..j])
    ensures Concat(d0, ls[..i]) == Concat(d1, ls[..i]) && Concat(d0, ls[j..]) == Concat(d1, ls[j..])
  {
    var a, b, c := ls[..i], ls[i..j], ls[j..];
    forall k | 0 <= k < |a| ensures a[k] !in b {
      forall m | 0 <= m < |b| ensures b[m] != a[k] {
        assert a[k] == ls[k] && b[m] == ls[i + m];
      }
    }
    forall k | 0 <= k < |c| ensures c[k] !in b {
      forall m | 0 <= m < |b| ensures b[m] != c[k] {
        assert c[k] == ls[j + k] && b[m] == ls[i + m];
      }
    }
    ConcatFrame(d0, d1, a);
    ConcatFrame(d0, d1, c);
  }

  /** Overwriting listed blocks overwrites their stretch of the bytes. */
  lemma WrittenBytes(d0: seq<Block>, d1: seq<Block>, ls: seq<nat>, k: nat, n: nat, source: seq<Byte>, at: nat,
                     size: nat)
    requires forall i :: 0 <= i < |ls| ==> ls[i] < |d0|
    requires forall b :: 0 <= b < |d0| ==> |d0[b]| == size
    requires |d1| == |d0| && forall b :: 0 <= b < |d1| ==> |d1[b]| == size
    requires NoDup(ls) && Written(d0, d1, ls, k, n, source, at, size)
    ensures k * size + n * size <= |Concat(d0, ls)| && at + n * size <= |source|
    ensures Concat(d1, ls) == Splice(Concat(d0, ls), k * size, source[at..at + n * size])
  {
    hide *;
    WrittenParts(d0, d1, ls, k, n, source, at, size);
    WrittenAround(d0, d1, ls, k, k + n);
    ConcatThree(d0, ls, k, k + n);
    ConcatThree(d1, ls, k, k + n);
    ConcatRange(d0, ls, 0, k, size);
    ConcatRange(d0, ls, k, n, size);
    var a, b, c := Concat(d0, ls[..k]), Concat(d0, ls[k..k + n]), Concat(d0, ls[k + n..]);
    SpliceMiddle(a, b, c, source[at..at + n * size]);
  }

  lemma WrittenParts(d0: seq<Block>, d1: seq<Block>, ls: seq<nat>, k: nat, n: nat, source: seq<Byte>, at: nat,
                     size: nat)
    requires forall i :: 0 <= i < |ls| ==> ls[i] < |d0|
    requires |d1| == |d0| && Written(d0, d1, ls, k, n, source, at, size)
    ensures k + n <= |ls| && 0 <= n * size && at + n * size <= |source|
    ensures Confined(d0, d1, ls[k..k + n]) && Concat(d1, ls[k..k + n]) == source[at..at + n * size]
  {
    hide Concat, Confined;
  }

  lemma SpliceMiddle(a: seq<Byte>, b: seq<Byte>, c: seq<Byte>, b': seq<Byte>)
    requires |b| == |b'|
    ensures Splice(a + b + c, |a|, b') == a + b' + c
  {
  }

  /** What a writable file is, in terms of the image. */
  lemma WritableFacts(p: Partition, ino: nat, file: seq<Tree>)
    requires Writable(p, ino, file)
    ensures p.Shaped() && p.L.InodesOk() && IsInode(p.L, ino) && ApartAll(file) && NoDup(LeavesAll(file))
    ensures Stored(p.L, p.disk[..], IBlock(InodeAt(p.L, p.disk[..], ino)), file)
    ensures forall b :: b in BlocksAll(file) ==> !p.L.Reserved(b)
    ensures forall i :: 0 <= i < |LeavesAll(file)| ==> LeavesAll(file)[i] < p.disk.Length
    ensures Mounted(p, ino, file) && FileBytes(p, ino, file) == Concat(p.disk[..], LeavesAll(file))
  {
    StoredLeaves(p.L, p.disk[..], IBlock(InodeAt(p.L, p.disk[..], ino)), file);
    ApartAllFacts(file);
  }

  /** The file is still mounted after writes to its leaves. */
  lemma WritableFrame(p: Partition, d: seq<Block>, ino: nat, file: seq<Tree>)
    requires p.Shaped() && p.L.InodesOk() && p.L.Image(d) && IsInode(p.L, ino)
    requires Stored(p.L, d, IBlock(InodeAt(p.L, d, ino)), file) && ApartAll(file)
    requires forall b :: b in BlocksAll(file) ==> !p.L.Reserved(b)
    requires Confined(d, p.disk[..], LeavesAll(file))
    ensures Writable(p, ino, file) && InodeAt(p.L, p.disk[..], ino) == InodeAt(p.L, d, ino)
  {
    LeavesInBlocks(file);
    InodeFrame(p.L, d, p.disk[..], ino);
    StoredFrame(p.L, d, p.disk[..], IBlock(InodeAt(p.L, d, ino)), file);
  }

  /** Whole blocks. */
  method WriteWhole(p: Partition, ino: nat, source: seq<Byte>, at: nat, k: nat, n: nat, ghost file: seq<Tree>)
    returns (r: IoResult)
    requires Writable(p, ino, file) && k + n <= |LeavesAll(file)| && at + n * p.L.blockSize <= |source|
    modifies p.disk
    ensures Writable(p, ino, file)
    ensures r == Done(if k >= 12 then 0 else n)
    ensures Confined(old(p.disk[..]), p.disk[..], LeavesAll(file))
    ensures k >= 12 ==> p.disk[..] == old(p.disk[..]) && FileBytes(p, ino, file) == old(FileBytes(p, ino, file))
    ensures k * p.L.blockSize + n * p.L.blockSize <= |old(FileBytes(p, ino, file))|
    ensures k < 12 ==>
              FileBytes(p, ino, file) ==
              Splice(old(FileBytes(p, ino, file)), k * p.L.blockSize, source[at..at + n * p.L.blockSize])
  {
    hide *;
    WritableFacts(p, ino, file);
    ghost var d, all := p.disk[..], FileBytes(p, ino, file);
    p.ShapedFacts();
    WholeBound(p, ino, file, k, n);
    ConfinedRefl(d, LeavesAll(file));
    AfterIs(at, n, p.L.blockSize);
    InFileIff(file, k, n);
    r := WriteInodeBlocks(p, ino, source, at, n, k, file);
    p.ShapedFacts();
    if n > 0 && k < 12 {
      WrittenConfined(d, p.disk[..], LeavesAll(file), k, n, source, at, p.L.blockSize);
    }
    WritableFrame(p, d, ino, file);
    WritableFacts(p, ino, file);
    if n > 0 && k < 12 {
      WrittenBytes(d, p.disk[..], LeavesAll(file), k, n, source, at, p.L.blockSize);
    } else if n == 0 {
      NoBytes(all, k * p.L.blockSize, source, at);
    }
  }

  lemma InFileIff(file: seq<Tree>, skip: nat, count: nat)
    ensures InFile(file, skip, count) <==> skip < 12 && skip + count <= |LeavesAll(file)|
  {
  }

  lemma WholeBound(p: Partition, ino: nat, file: seq<Tree>, k: nat, n: nat)
    requires Mounted(p, ino, file) && k + n <= |LeavesAll(file)|
    ensures k * p.L.blockSize + n * p.L.blockSize <= |FileBytes(p, ino, file)|
  {
    FileBytesLength(p, ino, file);
    MulDistributes(k, n, p.L.blockSize);
    MulMonotone(k + n, |LeavesAll(file)|, p.L.blockSize);
  }

  lemma NoBytes(s: seq<Byte>, i: nat, source: seq<Byte>, at: nat)
    requires i <= |s| && at <= |source|
    ensures Splice(s, i, source[at..at]) == s
  {
  }

  lemma SpliceInner(s: seq<Byte>, o: nat, size: nat, from: nat, data: seq<Byte>)
    requires o + size <= |s| && from + |data| <= size
    ensures Splice(s, o, Splice(s[o..o + size], from, data)) == Splice(s, o + from, data)
  {
  }

  /** Part of one block, read, patched and written back: the head and the tail of a write. */
  method WritePiece(p: Partition, ino: nat, block: nat, from: nat, data: seq<Byte>, ghost file: seq<Tree>)
    returns (ok: bool)
    requires Writable(p, ino, file) && block < |LeavesAll(file)|
    requires block < 12 ==> from + |data| <= p.L.blockSize
    modifies p.disk
    ensures Writable(p, ino, file)
    ensures ok <==> block < 12
    ensures Confined(old(p.disk[..]), p.disk[..], LeavesAll(file))
    ensures block * p.L.blockSize + p.L.blockSize <= |old(FileBytes(p, ino, file))|
    ensures FileBytes(p, ino, file) == if ok then Splice(old(FileBytes(p, ino, file)), block * p.L.blockSize + from, data)
                                       else old(FileBytes(p, ino, file))
  {
    hide *;
    WritableFacts(p, ino, file);
    ghost var d, all, size := p.disk[..], FileBytes(p, ino, file), p.L.blockSize;
    WholeBound(p, ino, file, block, 1);
    var temp: seq<Byte>;
    ok, temp := ReadOne(p, ino, block, file);
    if !ok {
      p.ShapedFacts();
      ConfinedRefl(d, LeavesAll(file));
      return;
    }
    var patched: seq<Byte> := Splice(temp, from, data);
    SpliceInner(all, block * size, size, from, data);
    var r := WriteWhole(p, ino, patched, 0, block, 1, file);
    assert patched[0..0 + 1 * size] == patched;
  }

  /** How much of the source a write looks at. */
  function Needed(size: nat, s: nat, count: nat, blocks: nat): nat
    requires s <= size
  {
    if s == 0 then count
    else if s + count <= size then s
    else if s + count <= blocks * size then blocks * size - s
    else size - s + count
  }

  /**
   What follows the head: n whole blocks from block `start` on, then the tail, until `rest` bytes are written. The blocks
   start at offset o of the file and hold `whole` bytes.
   */
  method WriteRest(p: Partition, ino: nat, start: nat, n: nat, rest: nat, source: seq<Byte>, at: nat, tail: nat,
                   whole: nat, ghost o: nat, ghost file: seq<Tree>)
    returns (r: IoResult)
    requires Writable(p, ino, file) && o == start * p.L.blockSize && whole == n * p.L.blockSize && 0 < rest <= whole + p.L.blockSize
    requires start + n <= |LeavesAll(file)| && (whole < rest ==> start + n < |LeavesAll(file)|)
    requires o + rest <= |FileBytes(p, ino, file)|
    requires at + whole <= |source| && (whole < rest ==> tail + (rest - whole) <= |source|)
    modifies p.disk
    ensures Writable(p, ino, file)
    ensures Confined(old(p.disk[..]), p.disk[..], LeavesAll(file))
    ensures o + whole <= |old(FileBytes(p, ino, file))|
    ensures if start < 12 && (rest <= whole || start + n < 12) then
              && r == Done(if rest <= whole then whole else rest)
              && FileBytes(p, ino, file) == RestWritten(old(FileBytes(p, ino, file)), o, whole, rest, source, at, tail)
            else
              && r == Failed
              && FileBytes(p, ino, file) == if start < 12 then Splice(old(FileBytes(p, ino, file)), o, source[at..at + whole])
                                            else old(FileBytes(p, ino, file))
  {
    hide *;
    WritableMounted(p, ino, file);
    ghost var d, all := p.disk[..], FileBytes(p, ino, file);
    MulDistributes(start, n, p.L.blockSize);
    WholeBound(p, ino, file, start, n);
    r := WriteWhole(p, ino, source, at, start, n, file);
    WritableMounted(p, ino, file);
    ghost var now := p.disk[..];
    if start < 12 {
      RestIs(all, o, whole, rest, source, at, tail);
      if whole < rest {
        var ok := WritePiece(p, ino, start + n, 0, source[tail..tail + (rest - whole)], file);
        ConfinedTwice(d, now, p.disk[..], LeavesAll(file));
        return if ok then Done(rest) else Failed;
      }
      return Done(whole);
    }
    var ok := WritePiece(p, ino, start, 0, [], file);
    ConfinedTwice(d, now, p.disk[..], LeavesAll(file));
    return Failed;
  }

  lemma RestIs(all: seq<Byte>, o: nat, whole: nat, rest: nat, source: seq<Byte>, at: nat, tail: nat)
    requires o + whole <= |all| && o + rest <= |all| && at + whole <= |source|
    requires whole < rest ==> tail + (rest - whole) <= |source|
    ensures |Splice(all, o, source[at..at + whole])| == |all|
    ensures RestWritten(all, o, whole, rest, source, at, tail) ==
            var first := Splice(all, o, source[at..at + whole]);
            if rest <= whole then first else Splice(first, o + whole, source[tail..tail + (rest - whole)])
  {
  }

  lemma ConfinedTwice(d0: seq<Block>, d1: seq<Block>, d2: seq<Block>, ls: seq<nat>)
    requires Confined(d0, d1, ls) && Confined(d1, d2, ls)
    ensures Confined(d0, d2, ls)
  {
  }

  /** The file bytes after the whole blocks and the tail. */
  function RestWritten(all: seq<Byte>, o: nat, whole: nat, rest: nat, source: seq<Byte>, at: nat,
                       tail: nat): (r: seq<Byte>)
    requires o + whole <= |all| && o + rest <= |all| && at + whole <= |source|
    requires whole < rest ==> tail + (rest - whole) <= |source|
    ensures |r| == |all|
  {
    var first := Splice(all, o, source[at..at + whole]);
    if rest <= whole then first else Splice(first, o + whole, source[tail..tail + (rest - whole)])
  }

  /** The file bytes after a write of `count` bytes that starts s bytes into its first block, at offset o. */
  function Overwritten(all: seq<Byte>, o: nat, source: seq<Byte>, size: nat, s: nat, count: nat,
                       blocks: nat): (r: seq<Byte>)
    requires s < size && (s == 0 || 2 * s <= size) && (0 < count ==> 0 < blocks && count <= blocks * size && (blocks - 1) * size < count)
    requires blocks * size == if blocks > 0 then (blocks - 1) * size + size else 0
    requires o + Extent(size, s, count, blocks) <= |all| && Needed(size, s, count, blocks) <= |source|
    ensures |r| == |all|
  {
    var first := if s == 0 then all else Splice(all, o, source[..s]);
    var h := if s == 0 then 0 else size - s;
    if count <= h then first
    else RestWritten(first, o + h, (blocks - 1) * size, count - h, source, h, 2 * h + (blocks - 1) * size)
  }

  /**
   The file bytes after a write that was given up: the head and the whole blocks, as far as they start before block
   12.
   */
  function PartlyWritten(all: seq<Byte>, o: nat, source: seq<Byte>, size: nat, k: nat, s: nat, count: nat,
                         blocks: nat): (r: seq<Byte>)
    requires s < size && (s == 0 || 2 * s <= size) && (0 < count ==> 0 < blocks && count <= blocks * size && (blocks - 1) * size < count)
    requires blocks * size == if blocks > 0 then (blocks - 1) * size + size else 0
    requires o + Extent(size, s, count, blocks) <= |all| && Needed(size, s, count, blocks) <= |source|
    requires !Reach(size, k, s, count, blocks)
    ensures |r| == |all|
  {
    if k >= 12 then all
    else if s == 0 then Splice(all, o, source[..(blocks - 1) * size])
    else
      var h, first := size - s, Splice(all, o, source[..s]);
      if k + 1 >= 12 then first else Splice(first, o + h, source[h..h + (blocks - 1) * size])
  }

  /** The file bytes after a write, carried out or given up. */
  function WriteOutcome(all: seq<Byte>, o: nat, source: seq<Byte>, size: nat, k: nat, s: nat, count: nat,
                        blocks: nat): (r: seq<Byte>)
    requires s < size && (s == 0 || 2 * s <= size) && (0 < count ==> 0 < blocks && count <= blocks * size && (blocks - 1) * size < count)
    requires blocks * size == if blocks > 0 then (blocks - 1) * size + size else 0
    requires o + Extent(size, s, count, blocks) <= |all| && Needed(size, s, count, blocks) <= |source|
    ensures |r| == |all|
  {
    if Reach(size, k, s, count, blocks) then Overwritten(all, o, source, size, s, count, blocks)
    else PartlyWritten(all, o, source, size, k, s, count, blocks)
  }

  /** A range of a mapped file, with what the transfer moves beyond its count, lies below the mapped blocks. */
  lemma ExtentFits(size: nat, skip: nat, count: nat, leaves: nat)
    requires 0 < size && skip + count <= leaves * size
    ensures skip + Extent(size, Remainder(skip, size), count, DivUp(count, size)) <= leaves * size
  {
    hide Quotient, Remainder, DivUp;
    QuotientRemainder(skip, size);
    var k, s, blocks := Quotient(skip, size), Remainder(skip, size), DivUp(count, size);
    RangeFacts(size, k, s, count, blocks, leaves);
    if s != 0 {
      MulMonotone(k + 1, leaves, size);
      if size < s + count {
        MulMonotone(k + blocks, leaves, size);
      }
    }
  }

  /** The transfer behind the head, if there is anything left of the range. */
  method WriteOn(p: Partition, ino: nat, source: seq<Byte>, count: nat, skip: nat, k: nat, s: nat,
                 ghost file: seq<Tree>,
                 ghost all: seq<Byte>)
    returns (r: IoResult)
    requires Writable(p, ino, file) && |FileBytes(p, ino, file)| == |all| && skip + count <= |all|
    requires 0 < p.L.blockSize && s == Remainder(skip, p.L.blockSize) && k == Quotient(skip, p.L.blockSize) && (s != 0 ==> k < 12)
    requires s < p.L.blockSize && (s == 0 || 2 * s <= p.L.blockSize)
    requires Needed(p.L.blockSize, s, count, DivUp(count, p.L.blockSize)) <= |source|
    requires s <= |source| && skip + s <= |all| && FileBytes(p, ino, file) == HeadWritten(all, skip, source, s)
    modifies p.disk
    ensures Writable(p, ino, file)
    ensures Confined(old(p.disk[..]), p.disk[..], LeavesAll(file))
    ensures var size := p.L.blockSize; var blocks := DivUp(count, size);
            && r == (if Reach(size, k, s, count, blocks) then Done(Extent(size, s, count, blocks)) else Failed)
            && skip + Extent(size, s, count, blocks) <= |all|
            && (WriteFacts(size, skip, s, count, blocks);
                FileBytes(p, ino, file) == WriteOutcome(all, skip, source, size, k, s, count, blocks))
  {
    hide *;
    WritableMounted(p, ino, file);
    var size: nat := p.L.blockSize;
    var blocks: nat := DivUp(count, size);
    QuotientRemainder(skip, size);
    WriteFacts(size, skip, s, count, blocks);
    ExtentFits(size, skip, count, |LeavesAll(file)|);
    HeadPlan(size, k, s, count, blocks, |LeavesAll(file)|);
    HeadOutcome(all, skip, source, size, k, s, count, blocks);
    ghost var now := p.disk[..];
    ConfinedRefl(now, LeavesAll(file));
    var done: nat, next: nat := if s == 0 then 0 else size - s, if s == 0 then k else k + 1;
    if count <= done {
      return Done(done);
    }
    RestPlan(size, k, s, count, blocks, |LeavesAll(file)|, done, next);
    RestNeeds(size, s, count, blocks, done);
    RestOutcome(all, skip, source, size, k, s, count, blocks, done, next);
    var whole: nat := (blocks - 1) * size;
    r := WriteRest(p, ino, next, blocks - 1, count - done, source, done, 2 * done + whole, whole, skip + done, file);
    WritableMounted(p, ino, file);
    if r.Done? {
      r := Done(done + r.count);
    }
  }

  /**
   ext2_write_inode_bytes. The head phase copies as many bytes as it skips, which must fit in the first block.
   The write is carried out exactly when no transfer has to start at block 12 or later; one that is given up
   has written its head and its whole blocks, as far as these could be reached.
   */
  method WriteInodeBytes(p: Partition, ino: nat, source: seq<Byte>, count: nat, skip: nat, ghost file: seq<Tree>)
    returns (r: IoResult)
    requires Writable(p, ino, file)
    requires skip + count <= |FileBytes(p, ino, file)|
    requires var size := p.L.blockSize; var s := Remainder(skip, size);
             && (s == 0 || 2 * s <= size)
             && (QuotientRemainder(skip, size); Needed(size, s, count, DivUp(count, size)) <= |source|)
    modifies p.disk
    ensures Writable(p, ino, file)
    ensures Confined(old(p.disk[..]), p.disk[..], LeavesAll(file))
    ensures |FileBytes(p, ino, file)| == |old(FileBytes(p, ino, file))|
    ensures var size := p.L.blockSize; var k, s, blocks := Quotient(skip, size), Remainder(skip, size), DivUp(count, size);
            && r == (if Reach(size, k, s, count, blocks) then Done(Extent(size, s, count, blocks)) else Failed)
            && skip + Extent(size, s, count, blocks) <= |old(FileBytes(p, ino, file))|
            && (WriteFacts(size, skip, s, count, blocks);
                FileBytes(p, ino, file) == WriteOutcome(old(FileBytes(p, ino, file)), skip, source, size, k, s, count, blocks))
  {
    hide *;
    WritableMounted(p, ino, file);
    var size: nat := p.L.blockSize;
    var k: nat, s: nat := Locate(skip, size);
    var blocks: nat := DivUp(count, size);
    ghost var d, all := p.disk[..], FileBytes(p, ino, file);
    WriteFacts(size, skip, s, count, blocks);
    ExtentFits(size, skip, count, |LeavesAll(file)|);
    HeadPlan(size, k, s, count, blocks, |LeavesAll(file)|);
    HeadNeeds(size, s, count, blocks);
    HeadOutcome(all, skip, source, size, k, s, count, blocks);
    ConfinedRefl(d, LeavesAll(file));
    if s != 0 {
      var ok := WritePiece(p, ino, k, s, source[..s], file);
      WritableMounted(p, ino, file);
      if !ok {
        return Failed;
      }
    }
    assert FileBytes(p, ino, file) == HeadWritten(all, skip, source, s);
    ghost var now := p.disk[..];
    r := WriteOn(p, ino, source, count, skip, k, s, file, all);
    ConfinedTwice(d, now, p.disk[..], LeavesAll(file));
    WritableMounted(p, ino, file);
  }

  /** The head of a write: s bytes of the source. */
  function HeadWritten(all: seq<Byte>, o: nat, source: seq<Byte>, s: nat): (r: seq<Byte>)
    requires s <= |source| && o + s <= |all|
    ensures |r| == |all|
  {
    if s == 0 then all else Splice(all, o, source[..s])
  }

  lemma HeadNeeds(size: nat, s: nat, count: nat, blocks: nat)
    requires s < size && (s == 0 || 2 * s <= size)
    requires 0 < count ==> 0 < blocks && count <= blocks * size && 0 <= (blocks - 1) * size < count
    requires blocks * size == if blocks > 0 then (blocks - 1) * size + size else 0
    ensures s != 0 ==> s <= Needed(size, s, count, blocks) && s <= size - s <= Extent(size, s, count, blocks)
  {
  }

  lemma RestNeeds(size: nat, s: nat, count: nat, blocks: nat, done: nat)
    requires s < size && (s == 0 || 2 * s <= size) && done == (if s == 0 then 0 else size - s) && done < count
    requires 0 < blocks && count <= blocks * size && 0 <= (blocks - 1) * size < count
    requires blocks * size == (blocks - 1) * size + size
    ensures var whole, rest := (blocks - 1) * size, count - done;
            && done + whole <= Needed(size, s, count, blocks)
            && (whole < rest ==> 2 * done + whole + (rest - whole) <= Needed(size, s, count, blocks))
            && done + (if rest <= whole then whole else rest) <= Extent(size, s, count, blocks)
  {
  }

  /** What is written when the write ends with its head. */
  lemma HeadOutcome(all: seq<Byte>, o: nat, source: seq<Byte>, size: nat, k: nat, s: nat, count: nat, blocks: nat)
    requires s < size && (s == 0 || 2 * s <= size) && (0 < count ==> 0 < blocks && count <= blocks * size && (blocks - 1) * size < count)
    requires blocks * size == if blocks > 0 then (blocks - 1) * size + size else 0
    requires o + Extent(size, s, count, blocks) <= |all| && Needed(size, s, count, blocks) <= |source|
    ensures s != 0 && k >= 12 ==> !Reach(size, k, s, count, blocks) && WriteOutcome(all, o, source, size, k, s, count, blocks) == all
    ensures s <= |source| && o + s <= |all|
    ensures (s == 0 || k < 12) && count <= (if s == 0 then 0 else size - s) ==>
              && Reach(size, k, s, count, blocks)
              && WriteOutcome(all, o, source, size, k, s, count, blocks) == HeadWritten(all, o, source, s)
    ensures s != 0 ==> HeadWritten(all, o, source, s) == Splice(all, o, source[..s])
    ensures s == 0 ==> HeadWritten(all, o, source, s) == all
  {
    hide Splice, RestWritten;
  }

  /** What is written when more follows. */
  lemma RestOutcome(all: seq<Byte>, o: nat, source: seq<Byte>, size: nat, k: nat, s: nat, count: nat, blocks: nat,
                    done: nat, next: nat)
    requires s < size && (s == 0 || 2 * s <= size) && 0 < blocks && count <= blocks * size && (blocks - 1) * size < count
    requires blocks * size == (blocks - 1) * size + size
    requires o + Extent(size, s, count, blocks) <= |all| && Needed(size, s, count, blocks) <= |source|
    requires done == (if s == 0 then 0 else size - s) && next == (if s == 0 then k else k + 1) && done < count
    requires s == 0 || k < 12
    ensures 0 <= (blocks - 1) * size && s <= |source| && o + s <= |all|
    ensures var whole, rest := (blocks - 1) * size, count - done;
            && o + done + whole <= |all| && o + done + rest <= |all| && done + whole <= |source|
            && (whole < rest ==> 2 * done + whole + (rest - whole) <= |source|)
            && WriteOutcome(all, o, source, size, k, s, count, blocks) ==
               var first := HeadWritten(all, o, source, s);
               if next < 12 && (rest <= whole || next + (blocks - 1) < 12) then
                 RestWritten(first, o + done, whole, rest, source, done, 2 * done + whole)
               else if next < 12 then
                 Splice(first, o + done, source[done..done + whole])
               else
                 first
  {
    hide Splice, RestWritten;
    MulSucc(blocks - 1, size);
    assert source[0..(blocks - 1) * size] == source[..(blocks - 1) * size];
  }

  lemma WritableMounted(p: Partition, ino: nat, file: seq<Tree>)
    requires Writable(p, ino, file)
    ensures Mounted(p, ino, file) && p.L.blockSize > 0
    ensures |LeavesAll(file)| * p.L.blockSize == |FileBytes(p, ino, file)|
  {
    MountedFacts(p, ino, file);
  }

  lemma WriteFacts(size: nat, skip: nat, s: nat, count: nat, blocks: nat)
    requires 0 < size && s == Remainder(skip, size) && blocks == DivUp(count, size)
    ensures s < size
    ensures 0 < count ==> 0 < blocks && count <= blocks * size && 0 <= (blocks - 1) * size < count
    ensures blocks * size == if blocks > 0 then (blocks - 1) * size + size else 0
  {
    QuotientRemainder(skip, size);
    DivUpBounds(count, size);
    if 0 < blocks {
      MulSucc(blocks - 1, size);
    }
  }
}
