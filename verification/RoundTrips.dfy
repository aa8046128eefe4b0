/** What is written is what is read. */
module RoundTrips {
  import opened Codec
  import opened Arith
  import opened Layouts
  import opened Partitions
  import opened Trees
  import opened Walks
  import opened FileWalks
  import opened Inodes
  import opened Reading
  import opened Writing
  import opened InodeReading
  import opened InodeWriting
  import opened ByteRange
  import opened ByteWrite
  import opened WriteExact
  import opened BlockMap
  import PointerBlocks
  import opened Volumes
  import opened Ext2

  /** Blocks written through the block tree are read back through it, and no other block of the disk has changed. */
  method WriteThenReadBlocks(p: Partition, ino: nat, source: seq<Byte>, buffer: array<Byte>, count: nat, skip: nat,
                             ghost file: seq<Tree>)
    returns (written: IoResult, read: IoResult)
    requires Writable(p, ino, file) && 0 < count && InFile(file, skip, count)
    requires count * p.L.blockSize <= |source| && count * p.L.blockSize <= buffer.Length
    modifies p.disk, buffer
    ensures Writable(p, ino, file) && skip + count <= |LeavesAll(file)|
    ensures written == Done(count) && read == Done(count)
    ensures Confined(old(p.disk[..]), p.disk[..], LeavesAll(file)[skip..skip + count])
    ensures buffer[..] == Splice(old(buffer[..]), 0, source[..count * p.L.blockSize])
  {
    hide *;
    WritableFacts(p, ino, file);
    p.ShapedFacts();
    InFileIff(file, skip, count);
    AfterIs(0, count, p.L.blockSize);
    ghost var d, ls, before := p.disk[..], LeavesAll(file), buffer[..];
    written := WriteInodeBlocks(p, ino, source, 0, count, skip, file);
    p.ShapedFacts();
    WrittenConfined(d, p.disk[..], ls, skip, count, source, 0, p.L.blockSize);
    WritableFrame(p, d, ino, file);
    WritableFacts(p, ino, file);
    read := ReadInodeBlocks(p, ino, buffer, 0, count, skip, file);
    WrittenRead(d, p.disk[..], ls, skip, count, source, p.L.blockSize, before, buffer[..]);
  }

  lemma WrittenRead(d0: seq<Block>, d1: seq<Block>, ls: seq<nat>, skip: nat, n: nat, source: seq<Byte>, size: nat,
                    before: seq<Byte>, after: seq<Byte>)
    requires forall i :: 0 <= i < |ls| ==> ls[i] < |d0|
    requires forall i :: 0 <= i < |ls| ==> ls[i] < |d1|
    requires Written(d0, d1, ls, skip, n, source, 0, size) && Filled(d1, ls, skip, n, before, 0, after)
    ensures skip + n <= |ls| && Confined(d0, d1, ls[skip..skip + n])
    ensures n * size <= |source| && n * size <= |before| && after == Splice(before, 0, source[..n * size])
  {
    AfterIs(0, n, size);
  }

  /** Transfers within the first 12 blocks are carried out. */
  lemma ReachWithin(size: nat, skip: nat, count: nat)
    requires 0 < size && 0 < count && skip + count <= 12 * size
    ensures Transfers(size, skip, count)
  {
    hide DivUp, Quotient, Remainder;
    QuotientRemainder(skip, size);
    var k, s, blocks := Quotient(skip, size), Remainder(skip, size), DivUp(count, size);
    DivUpBounds(count, size);
    RangeFacts(size, k, s, count, blocks, 12);
    ExtentCovers(size, s, count, blocks, skip);
  }

  /** A block-aligned transfer is carried out exactly when its last block is one of the first 12. */
  lemma AlignedReach(size: nat, k: nat, count: nat)
    requires 0 < size && 0 < count
    ensures Reach(size, k, 0, count, DivUp(count, size)) <==> k * size + count <= 12 * size
  {
    var blocks := DivUp(count, size);
    DivUpBounds(count, size);
    MulSucc(blocks - 1, size);
    MulDistributes(k, blocks - 1, size);
    if k + (blocks - 1) < 12 {
      MulDistributes(k, blocks, size);
      MulMonotone(k + blocks, 12, size);
    } else {
      MulMonotone(12, k + (blocks - 1), size);
    }
  }

  /**
   What a read that starts s bytes into a block delivers beyond its count: up to the end of the last block it touches.
   */
  lemma ExtentIs(size: nat, s: nat, count: nat)
    requires 0 < size && s < size && 0 < count
    ensures var blocks := DivUp(count, size);
            Extent(size, s, count, blocks) ==
            if s == 0 || blocks * size <= count + s then count else blocks * size - s
  {
    DivUpBounds(count, size);
    if s != 0 && s + count <= size {
      DivUpUnique(count, size, 1);
    }
  }

  /** An aligned write puts the source over the range and keeps the rest. */
  lemma AlignedData(size: nat, skip: nat, count: nat, source: seq<Byte>, grown: seq<Byte>, data: seq<Byte>)
    requires 0 < size && Remainder(skip, size) == 0 && skip + count <= |grown|
    requires DataWritten(size, skip, count, source, grown, data) && Transfers(size, skip, count)
    ensures count <= |source| && data == Splice(grown, skip, source[..count])
  {
    hide Remainder, DivUp, Overwritten, Splice;
    WriteFacts(size, skip, 0, count, DivUp(count, size));
    AlignedWrite(grown, skip, source, size, count, DivUp(count, size));
  }

  /** Inode and data of a live file, by the bytes of the disk. */
  lemma DataBytes(p: Partition, files: map<nat, seq<Tree>>, n: nat, x: nat)
    requires Live(p, files) && n in files && x < |Data(p, files, n)|
    ensures p.L.blockSize >= 4 && p.L.inodesPerGroup > 0 && |Inode(p, files, n)| >= 128
    ensures HoldsInode(p.L, p.disk[..], n, Inode(p, files, n))
    ensures HoldsByte(p.disk[..], p.disk[..], p.L.blockSize, IBlock(Inode(p, files, n)), 0, x, Data(p, files, n)[x])
  {
    hide Live, HoldsInode, HoldsByte, IBlock, Layout.Ok, Inode, Data, InodeAt, Stored;
    LiveFacts(p, files);
    LiveFile(p, files, n);
    InodeBytes(p.L, p.disk[..], n);
    BytesAt(p.L, p.disk[..], IBlock(Inode(p, files, n)), files[n], x);
  }

  lemma AtStart(size: nat)
    requires 0 < size
    ensures Remainder(0, size) == 0 && Quotient(0, size) == 0
  {
  }

  lemma StoreDomain(p: Partition, files: map<nat, seq<Tree>>, n: nat, data: seq<Byte>)
    requires Live(p, files) && n in files && files[n] == [] && p.L.blockSize > 0 && |data| < 0x1_0000_0000
    ensures WriteDomain(p, files, n, |data|, |data|, 0) && ISize(Inode(p, files, n)) == 0
  {
    hide *;
    AtStart(p.L.blockSize);
    EmptySize(p, files, n);
    NeededAtStart(p.L.blockSize, |data|);
    InDomain(p, files, n, |data|, |data|, 0);
  }

  lemma NeededAtStart(size: nat, count: nat)
    requires 0 < size
    ensures Needed(size, 0, count, DivUp(count, size)) == count
  {
  }

  lemma SpliceFront(grown: seq<Byte>, data: seq<Byte>, from: nat, len: nat)
    requires |data| <= |grown| && from + len <= |data|
    ensures Splice(grown, 0, data)[from..from + len] == data[from..from + len]
  {
  }

  /**
   Up to 12 blocks of data written to an empty file are read back, any part of them, whenever they could be stored at
   all.
   */
  method StoreAndFetch(p: Partition, n: nat, data: seq<Byte>, from: nat, len: nat, buffer: array<Byte>,
                       ghost files: map<nat, seq<Tree>>)
    returns (stored: bool, fetched: bool)
    requires Live(p, files) && n in files && files[n] == [] && !IsDirectory(Inode(p, files, n))
    requires p.L.Entries() > 0 && p.L.blockSize > 0 && p.L.sectorSize > 0
    requires 0 < |data| <= 12 * p.L.blockSize && |data| < 0x1_0000_0000
    requires 0 < len && from + len <= |data|
    requires Extent(p.L.blockSize, Remainder(from, p.L.blockSize), len, DivUp(len, p.L.blockSize)) <= buffer.Length
    modifies p`groupFree, p`superFree, p.disk, buffer
    ensures stored <==> |old(p.Free())| >= DivUp(|data|, p.L.blockSize)
    ensures stored ==> fetched && len <= buffer.Length && buffer[..len] == data[from..from + len]
  {
    hide *;
    LiveFacts(p, files);
    p.ShapedFacts();
    LiveFile(p, files, n);
    StoreDomain(p, files, n, data);
    AtStart(p.L.blockSize);
    ReachWithin(p.L.blockSize, 0, |data|);
    DirectGrant(p.L, p.Free(), |data|);
    ghost var file: seq<Tree>, grown: seq<Byte>;
    ghost var free, raw, before := p.Free(), Inode(p, files, n), Data(p, files, n);
    stored, file, grown := WriteFile(p, n, data, |data|, 0, files);
    fetched := false;
    ghost var files1 := files[n := file];
    LiveFile(p, files1, n);
    WriteResultFacts(p.L, free, files[n], data, |data|, 0, stored, raw, before, Inode(p, files1, n), Data(p, files1, n), grown);
    if stored {
      ResizedSize(p.L, old(Inode(p, files, n)), |data|, Inode(p, files1, n));
      SameMode(old(Inode(p, files, n)), Inode(p, files1, n));
      AlignedData(p.L.blockSize, 0, |data|, data, grown, Data(p, files1, n));
      assert data[..|data|] == data;
      SpliceFront(grown, data, from, len);
      ReachWithin(p.L.blockSize, from, len);
      ReadDomainIs(p, files1, n, buffer.Length, len, from);
      fetched := ReadFile(p, n, buffer, len, from, files1);
    }
  }

  lemma SameMode(raw: seq<Byte>, raw': seq<Byte>)
    requires |raw| >= 128 && |raw'| >= 128 && IMode(raw) == IMode(raw')
    ensures IsDirectory(raw) == IsDirectory(raw')
  {
  }

  /** Up to 12 blocks need no pointer blocks. */
  lemma DirectGrant(L: Layout, free: set<nat>, size: nat)
    requires L.Entries() > 0 && 0 < L.blockSize && size <= 12 * L.blockSize
    ensures Grantable(L, free, [], DivUp(size, L.blockSize)) <==> |free| >= DivUp(size, L.blockSize)
  {
    var blocks := DivUp(size, L.blockSize);
    DivUpBounds(size, L.blockSize);
    if blocks > 12 {
      MulMonotone(13, blocks, L.blockSize);
    }
    PointerBlocks.NoMeta(L.Entries(), blocks);
    PointerBlocks.RoomIs(L.Entries());
  }
}
