/** Inode slots in the inode tables, and the fields of an inode. */
module Inodes {
  import opened Codec
  import opened Arith
  import opened Layouts
  import opened Partitions
  import Builder

  // ----- Slot addresses -----

  ghost predicate IsInode(L: Layout, n: nat)
    requires L.InodesOk()
  {
    1 <= n && Quotient(n - 1, L.inodesPerGroup) < L.Groups()
  }

  /** The byte offset of the slot within its group's table. */
  function TableOffset(L: Layout, n: nat): nat
    requires 0 < L.inodesPerGroup && 1 <= n
  {
    Remainder(n - 1, L.inodesPerGroup) * L.inodeSize
  }

  ghost function SlotBlock(L: Layout, n: nat): nat
    requires L.InodesOk() && IsInode(L, n)
  {
    L.tables[Quotient(n - 1, L.inodesPerGroup)] + Quotient(TableOffset(L, n), L.blockSize)
  }

  ghost function SlotOffset(L: Layout, n: nat): nat
    requires L.InodesOk() && IsInode(L, n)
  {
    Remainder(TableOffset(L, n), L.blockSize)
  }

  /** Multiples of a divisor of `size` lie a whole divisor away from the end of their size-byte block. */
  lemma MultipleInside(i: nat, part: nat, size: nat)
    requires 0 < part <= size && size % part == 0
    ensures Remainder(i * part, size) + part <= size
    ensures exists r: nat :: Remainder(i * part, size) == r * part
  {
    var k := size / part;
    DivMod(size, part);
    assert size == k * part;
    QuotientRemainder(i, k);
    var q, r := Quotient(i, k), Remainder(i, k);
    calc {
      i * part;
      (q * k + r) * part;
      { MulDistributes(q * k, r, part); }
      (q * k) * part + r * part;
      { MulAssociates(q, k, part); }
      q * size + r * part;
    }
    MulSucc(r, part);
    MulMonotone(r + 1, k, part);
    QuotientUnique(i * part, size, q, r * part);
    QuotientIsDivision(i * part, size);
  }

  lemma TableBlock(L: Layout, n: nat)
    requires L.InodesOk() && IsInode(L, n)
    ensures var g := Quotient(n - 1, L.inodesPerGroup); L.tables[g] <= SlotBlock(L, n) < L.tables[g] + L.tableLength
  {
    var i := Remainder(n - 1, L.inodesPerGroup);
    QuotientRemainder(n - 1, L.inodesPerGroup);
    var x := i * L.inodeSize;
    QuotientRemainder(x, L.blockSize);
    var q := Quotient(x, L.blockSize);
    MulSucc(i, L.inodeSize);
    MulMonotone(i + 1, L.inodesPerGroup, L.inodeSize);
    DivUpBounds(L.inodesPerGroup * L.inodeSize, L.blockSize);
    if q >= L.tableLength {
      MulMonotone(L.tableLength, q, L.blockSize);
    }
  }

  /** Every slot lies inside one block of its group's table. */
  lemma SlotInside(L: Layout, n: nat)
    requires L.InodesOk() && IsInode(L, n)
    ensures L.IsTable(SlotBlock(L, n)) && L.IsBlock(SlotBlock(L, n)) && SlotBlock(L, n) !in L.bitmaps
    ensures SlotOffset(L, n) + L.inodeSize <= L.blockSize
  {
    TableBlock(L, n);
    MultipleInside(Remainder(n - 1, L.inodesPerGroup), L.inodeSize, L.blockSize);
  }

  /** Slots of different inodes do not overlap. */
  lemma SlotsDisjoint(L: Layout, m: nat, n: nat)
    requires L.InodesOk() && IsInode(L, m) && IsInode(L, n) && m != n
    ensures SlotBlock(L, m) != SlotBlock(L, n)
            || SlotOffset(L, m) + L.inodeSize <= SlotOffset(L, n) || SlotOffset(L, n) + L.inodeSize <= SlotOffset(L, m)
  {
    SlotInside(L, m);
    SlotInside(L, n);
    QuotientRemainder(m - 1, L.inodesPerGroup);
    QuotientRemainder(n - 1, L.inodesPerGroup);
    var g, h := Quotient(m - 1, L.inodesPerGroup), Quotient(n - 1, L.inodesPerGroup);
    if g == h {
      var i, j := Remainder(m - 1, L.inodesPerGroup), Remainder(n - 1, L.inodesPerGroup);
      var x, y := i * L.inodeSize, j * L.inodeSize;
      QuotientRemainder(x, L.blockSize);
      QuotientRemainder(y, L.blockSize);
      if i < j {
        MulSucc(i, L.inodeSize);
        MulMonotone(i + 1, j, L.inodeSize);
      } else {
        MulSucc(j, L.inodeSize);
        MulMonotone(j + 1, i, L.inodeSize);
      }
    } else {
      TableBlock(L, m);
      TableBlock(L, n);
    }
  }

  /**
   Block t of the disk starts at sector t * blockSize / sectorSize, and k blocks later the walk by whole sectors
   agrees.
   */
  lemma SectorOfBlock(L: Layout, t: nat, k: nat)
    requires L.InodesOk()
    ensures (t * L.blockSize) / L.sectorSize + k * DivUp(L.blockSize, L.sectorSize) == ((t + k) * L.blockSize) / L.sectorSize
  {
    var s := L.blockSize / L.sectorSize;
    DivMod(L.blockSize, L.sectorSize);
    WholeSectors(t, s, L.blockSize, L.sectorSize);
    WholeSectors(t + k, s, L.blockSize, L.sectorSize);
    MulDistributes(t, k, s);
  }

  /** What remains of a product in 32 bits. */
  function Cut32(x: nat): nat {
    x % 0x1_0000_0000
  }

  lemma Uncut(x: nat)
    requires x < 0x1_0000_0000
    ensures Cut32(x) == x
  {
  }

  /** The 32-bit sector and offset arithmetic of an inode slot arrives at the slot. */
  lemma SlotSector(L: Layout, n: nat)
    requires L.InodesOk() && IsInode(L, n)
    ensures var t, x := L.tables[Quotient(n - 1, L.inodesPerGroup)], Cut32(TableOffset(L, n));
            && Cut32(t * L.blockSize) / L.sectorSize + Quotient(x, L.blockSize) * DivUp(L.blockSize, L.sectorSize)
               == SlotBlock(L, n) * L.blockSize / L.sectorSize
            && Remainder(x, L.blockSize) == SlotOffset(L, n)
            && Cut32(SlotBlock(L, n) * L.blockSize) == SlotBlock(L, n) * L.blockSize
  {
    hide *;
    SlotParts(L, n);
    SlotInside(L, n);
    BlockInDisk(L, SlotBlock(L, n));
    var t, x := L.tables[Quotient(n - 1, L.inodesPerGroup)], TableOffset(L, n);
    QuotientRemainder(x, L.blockSize);
    var q := Quotient(x, L.blockSize);
    L.AddressOfBlock(t + q);
    MulDistributes(t, q, L.blockSize);
    Uncut(x);
    Uncut(t * L.blockSize);
    Uncut((t + q) * L.blockSize);
    SectorOfBlock(L, t, q);
  }

  lemma SlotParts(L: Layout, n: nat)
    requires L.InodesOk() && IsInode(L, n)
    ensures 1 <= n && Quotient(n - 1, L.inodesPerGroup) < |L.tables|
    ensures SlotBlock(L, n) == L.tables[Quotient(n - 1, L.inodesPerGroup)] + Quotient(TableOffset(L, n), L.blockSize)
    ensures SlotOffset(L, n) == Remainder(TableOffset(L, n), L.blockSize)
  {
  }

  lemma BlockInDisk(L: Layout, b: nat)
    requires L.InodesOk() && L.IsBlock(b)
    ensures L.Ok() && b < L.blockCount && 0 < L.blockSize && 0 < L.sectorSize && 0 < L.inodesPerGroup
  {
  }

  lemma WholeSectors(t: nat, s: nat, block: nat, sector: nat)
    requires 0 < sector && block == s * sector
    ensures (t * block) / sector == t * s
  {
    MulAssociates(t, s, sector);
    QuotientUnique(t * block, sector, t * s, 0);
  }

  // ----- Slot contents -----

  ghost function InodeAt(L: Layout, d: seq<Block>, n: nat): (raw: seq<Byte>)
    requires L.InodesOk() && L.Image(d) && IsInode(L, n)
    ensures |raw| == L.inodeSize
  {
    SlotInside(L, n);
    d[SlotBlock(L, n)][SlotOffset(L, n)..SlotOffset(L, n) + L.inodeSize]
  }

  ghost function StoreInode(L: Layout, d: seq<Block>, n: nat, raw: seq<Byte>): (r: seq<Block>)
    requires L.InodesOk() && L.Image(d) && IsInode(L, n) && |raw| == L.inodeSize
    ensures L.Image(r)
  {
    SlotInside(L, n);
    d[SlotBlock(L, n) := Splice(d[SlotBlock(L, n)], SlotOffset(L, n), raw)]
  }

  /** A stored inode is read back, and every other inode reads as before. */
  lemma InodeRoundTrip(L: Layout, d: seq<Block>, n: nat, raw: seq<Byte>, m: nat)
    requires L.InodesOk() && L.Image(d) && IsInode(L, n) && IsInode(L, m) && |raw| == L.inodeSize
    ensures InodeAt(L, StoreInode(L, d, n, raw), m) == if m == n then raw else InodeAt(L, d, m)
  {
    SlotInside(L, n);
    SlotInside(L, m);
    if m != n {
      SlotsDisjoint(L, m, n);
    }
  }

  /** Inodes live in table blocks only. */
  lemma InodeFrame(L: Layout, d: seq<Block>, d': seq<Block>, n: nat)
    requires L.InodesOk() && L.Image(d) && L.Image(d') && IsInode(L, n)
    requires forall b :: 0 <= b < |d| && L.IsTable(b) ==> d[b] == d'[b]
    ensures InodeAt(L, d, n) == InodeAt(L, d', n)
  {
    SlotInside(L, n);
  }

  lemma SlotAddress(L: Layout, n: nat)
    requires L.InodesOk() && IsInode(L, n)
    ensures var g, x := (n - 1) / L.inodesPerGroup, (n - 1) % L.inodesPerGroup * L.inodeSize;
            && g < L.Groups() && g >= 0 && x >= 0
            && L.tables[g] + x / L.blockSize == SlotBlock(L, n) && x % L.blockSize == SlotOffset(L, n)
  {
    QuotientIsDivision(n - 1, L.inodesPerGroup);
    QuotientIsDivision(TableOffset(L, n), L.blockSize);
  }

  /** Byte x of the inode table of group g is v. */
  ghost predicate TableByte(L: Layout, d: seq<Block>, g: int, x: int, v: Byte)
    requires 0 < L.blockSize
  {
    && 0 <= g < |L.tables| && 0 <= x
    && var b := L.tables[g] + x / L.blockSize;
       b < |d| && |d[b]| == L.blockSize && d[b][x % L.blockSize] == v
  }

  /**
   The bytes `raw` are the record of inode n: inodesPerGroup records of inodeSize bytes follow each other in a table.
   */
  ghost predicate HoldsInode(L: Layout, d: seq<Block>, n: nat, raw: seq<Byte>)
    requires 0 < L.blockSize && 0 < L.inodesPerGroup
  {
    && |raw| == L.inodeSize
    && forall k :: 0 <= k < |raw| ==>
         TableByte(L, d, (n - 1) / L.inodesPerGroup, (n - 1) % L.inodesPerGroup * L.inodeSize + k, raw[k])
  }

  /** From d0 to d1 no byte outside the record of inode n changed. */
  ghost predicate KeepsOthers(L: Layout, d0: seq<Block>, d1: seq<Block>, n: nat)
    requires 0 < L.inodesPerGroup
  {
    var g, x := (n - 1) / L.inodesPerGroup, (n - 1) % L.inodesPerGroup * L.inodeSize;
    && 0 <= g < |L.tables| && |d1| == |d0|
    && (forall b :: 0 <= b < |d0| ==> |d0[b]| == |d1[b]| == L.blockSize)
    && forall b, y :: 0 <= b < |d0| && 0 <= y < L.blockSize
                      && !(L.tables[g] <= b && x <= (b - L.tables[g]) * L.blockSize + y < x + L.inodeSize)
                      ==> d1[b][y] == d0[b][y]
  }

  /** The slot of an inode, byte by byte. */
  lemma InodeBytes(L: Layout, d: seq<Block>, n: nat)
    requires L.InodesOk() && L.Image(d) && IsInode(L, n)
    ensures HoldsInode(L, d, n, InodeAt(L, d, n))
  {
    SlotAddress(L, n);
    SlotInside(L, n);
    var x, size := (n - 1) % L.inodesPerGroup * L.inodeSize, L.blockSize;
    forall k | 0 <= k < L.inodeSize
      ensures TableByte(L, d, (n - 1) / L.inodesPerGroup, x + k, InodeAt(L, d, n)[k])
    {
      DivMod(x, size);
      QuotientUnique(x + k, size, x / size, x % size + k);
    }
  }

  lemma StoreKeepsOthers(L: Layout, d: seq<Block>, n: nat, raw: seq<Byte>)
    requires L.InodesOk() && L.Image(d) && IsInode(L, n) && |raw| == L.inodeSize
    ensures KeepsOthers(L, d, StoreInode(L, d, n, raw), n)
  {
    SlotAddress(L, n);
    SlotInside(L, n);
    DivMod((n - 1) % L.inodesPerGroup * L.inodeSize, L.blockSize);
  }

  lemma StoredBytes(L: Layout, d: seq<Block>, n: nat, raw: seq<Byte>)
    requires L.InodesOk() && L.Image(d) && IsInode(L, n) && |raw| == L.inodeSize
    ensures HoldsInode(L, StoreInode(L, d, n, raw), n, raw) && KeepsOthers(L, d, StoreInode(L, d, n, raw), n)
  {
    hide HoldsInode, KeepsOthers, InodeAt, StoreInode, IsInode;
    InodeRoundTrip(L, d, n, raw, n);
    InodeBytes(L, StoreInode(L, d, n, raw), n);
    StoreKeepsOthers(L, d, n, raw);
  }

  method ReadInode(p: Partition, n: nat) returns (raw: seq<Byte>)
    requires p.Shaped() && p.L.InodesOk() && IsInode(p.L, n)
    ensures HoldsInode(p.L, p.disk[..], n, raw)
    ensures |raw| == p.L.inodeSize && raw == InodeAt(p.L, p.disk[..], n)
  {
    hide HoldsInode;
    InodeBytes(p.L, p.disk[..], n);
    SlotAddress(p.L, n);
    SlotInside(p.L, n);
    var group := (n - 1) / p.L.inodesPerGroup;
    var offset := (n - 1) % p.L.inodesPerGroup * p.L.inodeSize;
    var words: seq<Word> := p.Malloc();
    var status, data := p.ReadBlock(p.L.tables[group] + offset / p.L.blockSize, ToBytes(words));
    raw := data[offset % p.L.blockSize..offset % p.L.blockSize + p.L.inodeSize];
  }

  method WriteInode(p: Partition, n: nat, raw: seq<Byte>)
    requires p.Shaped() && p.L.InodesOk() && IsInode(p.L, n) && |raw| == p.L.inodeSize
    modifies p.disk
    ensures HoldsInode(p.L, p.disk[..], n, raw) && KeepsOthers(p.L, old(p.disk[..]), p.disk[..], n)
    ensures p.Shaped() && p.disk[..] == StoreInode(p.L, old(p.disk[..]), n, raw)
    ensures old(p.Valid()) ==> p.Valid() && p.Free() == old(p.Free())
  {
    hide *;
    StoreAt(p, n, raw);
    StoredBytes(p.L, p.disk[..], n, raw);
    var group := (n - 1) / p.L.inodesPerGroup;
    var offset := (n - 1) % p.L.inodesPerGroup * p.L.inodeSize;
    var table := p.L.tables[group] + offset / p.L.blockSize;
    var words: seq<Word> := p.Malloc();
    var status, data := p.ReadBlock(table, ToBytes(words));
    var stored: Block := Splice(data, offset % p.L.blockSize, raw);
    if p.Valid() {
      Builder.SoundFrame(p.L, p.disk[..], table, stored, p.groupFree, p.superFree);
    }
    status := p.WriteBlock(table, stored);
    SameFree(p);
  }

  /** Storing an inode, as the arithmetic of its slot has it. */
  lemma StoreAt(p: Partition, n: nat, raw: seq<Byte>)
    requires p.Shaped() && p.L.InodesOk() && IsInode(p.L, n) && |raw| == p.L.inodeSize
    ensures 1 <= n && 0 < p.L.inodesPerGroup && 0 < p.L.blockSize && 0 <= (n - 1) / p.L.inodesPerGroup < |p.L.tables|
    ensures p.L.Ok() && p.L.Image(p.disk[..]) && 4 * p.L.Entries() == p.L.blockSize
    ensures p.Valid() ==> p.L.Sound(p.disk[..], p.groupFree, p.superFree) && p.Free() == p.L.FreeSet(p.disk[..])
    ensures var x := (n - 1) % p.L.inodesPerGroup * p.L.inodeSize;
            && 0 <= x && 0 <= x / p.L.blockSize && 0 <= x % p.L.blockSize
            && x % p.L.blockSize + p.L.inodeSize <= p.L.blockSize
    ensures var x := (n - 1) % p.L.inodesPerGroup * p.L.inodeSize;
            var b := p.L.tables[(n - 1) / p.L.inodesPerGroup] + x / p.L.blockSize;
            && b < p.disk.Length && p.L.IsBlock(b) && b < p.L.blockCount && b !in p.L.bitmaps && |p.disk[b]| == p.L.blockSize
            && StoreInode(p.L, p.disk[..], n, raw) == p.disk[..][b := Splice(p.disk[b], x % p.L.blockSize, raw)]
  {
    hide Layout.Sound, Layout.FreeSet;
    SlotAddress(p.L, n);
    SlotInside(p.L, n);
  }

  lemma SameFree(p: Partition)
    requires p.Shaped()
    ensures p.L.Ok() && p.L.Image(p.disk[..]) && p.Free() == p.L.FreeSet(p.disk[..])
    ensures p.Valid() <==> p.L.Sound(p.disk[..], p.groupFree, p.superFree)
  {
    hide Layout.Sound, Layout.FreeSet;
  }

  // ----- Fields -----

  function IMode(raw: seq<Byte>): int
    requires |raw| >= 128
  {
    HalfAt(raw, 0)
  }

  function ISize(raw: seq<Byte>): Word
    requires |raw| >= 128
  {
    WordAt(raw, 4)
  }

  function ISectors(raw: seq<Byte>): Word
    requires |raw| >= 128
  {
    WordAt(raw, 28)
  }

  /** The 15 entries of i_block. */
  function IBlock(raw: seq<Byte>): (ws: seq<Word>)
    requires |raw| >= 128
    ensures |ws| == 15
  {
    ToWords(raw[40..100])
  }

  const INODE_TYPE_DIR := 0x4000

  /** i_mode & INODE_TYPE_DIR is nonzero. */
  predicate IsDirectory(raw: seq<Byte>)
    requires |raw| >= 128
  {
    (IMode(raw) / INODE_TYPE_DIR) % 2 == 1
  }

  /** Where the fields are among the bytes of an inode. */
  lemma FieldBytes(raw: seq<Byte>)
    requires |raw| >= 128
    ensures IMode(raw) == raw[0] as int + 0x100 * raw[1] as int
    ensures ISize(raw) == Little(raw, 4) && ISectors(raw) == Little(raw, 28)
    ensures forall k :: 0 <= k < 15 ==> IBlock(raw)[k] == Little(raw, 40 + 4 * k)
    ensures IsDirectory(raw) <==> raw[1] / 0x40 % 2 == 1
  {
    LittleIs(raw, 4);
    LittleIs(raw, 28);
    forall k | 0 <= k < 15 ensures IBlock(raw)[k] == Little(raw, 40 + 4 * k) {
      LittleIs(raw[40..100], 4 * k);
    }
    DirectoryBit(raw[0], raw[1]);
  }

  lemma DirectoryBit(b0: Byte, b1: Byte)
    ensures (b0 as int + 0x100 * b1 as int) / 0x4000 == b1 / 0x40
  {
    var w := b0 as int + 0x100 * b1 as int;
    assert w / 0x100 == b1;
    assert w / 0x4000 == w / 0x100 / 0x40;
  }

  /** The inode with new size, sector count and block entries, and all other fields kept. */
  function Resized(raw: seq<Byte>, size: Word, sectors: Word, iblock: seq<Word>): (r: seq<Byte>)
    requires |raw| >= 128 && |iblock| == 15
    ensures |r| == |raw|
  {
    Splice(Splice(Splice(raw, 4, WordBytes(size)), 28, WordBytes(sectors)), 40, ToBytes(iblock))
  }

  lemma ResizedFields(raw: seq<Byte>, size: Word, sectors: Word, iblock: seq<Word>)
    requires |raw| >= 128 && |iblock| == 15
    ensures var r := Resized(raw, size, sectors, iblock);
            ISize(r) == size && ISectors(r) == sectors && IBlock(r) == iblock && IMode(r) == IMode(raw)
    ensures forall k :: 0 <= k < |raw| && !(4 <= k < 8) && !(28 <= k < 32) && !(40 <= k < 100) ==>
                          Resized(raw, size, sectors, iblock)[k] == raw[k]
  {
    var r := Resized(raw, size, sectors, iblock);
    WordOfBytes(size);
    WordOfBytes(sectors);
    assert r[4..8] == WordBytes(size) && r[28..32] == WordBytes(sectors);
    assert r[40..100] == ToBytes(iblock);
    WordsOfBytes(iblock);
    assert WordAt(r, 4) == WordAt(r[4..8], 0) && WordAt(r, 28) == WordAt(r[28..32], 0);
  }

  /** The fields of a new inode before its block entries. */
  function FreshHead(mode: int, uid: int, gid: int, now: Word): (r: seq<Byte>)
    requires 0 <= mode < 0x1_0000 && 0 <= uid < 0x1_0000 && 0 <= gid < 0x1_0000
    ensures |r| == 40
  {
    HalfBytes(mode) + HalfBytes(uid) + WordBytes(0) + WordBytes(now) + WordBytes(now) + WordBytes(now)
    + WordBytes(0) + HalfBytes(gid) + HalfBytes(1) + WordBytes(0) + WordBytes(0) + WordBytes(0)
  }

  /** The fields of a new inode behind its block entries. */
  function FreshTail(unique: Word): (r: seq<Byte>)
    ensures |r| == 16
  {
    WordBytes(unique) + WordBytes(0) + WordBytes(0) + WordBytes(0)
  }

  /** A new inode: empty, with one link; the bytes behind the generic descriptor are kept. */
  function Fresh(raw: seq<Byte>, mode: int, uid: int, gid: int, now: Word, unique: Word): (r: seq<Byte>)
    requires |raw| >= 128 && 0 <= mode < 0x1_0000 && 0 <= uid < 0x1_0000 && 0 <= gid < 0x1_0000
    ensures |r| == |raw|
  {
    Splice(raw, 0, FreshHead(mode, uid, gid, now) + seq(60, _ => 0) + FreshTail(unique))
  }

  /**
   The fields of a new inode, byte by byte: mode, user, group, one link, the three times, the generation, and zeroes for
   everything else before byte 116.
   */
  ghost predicate FreshInode(r: seq<Byte>, mode: int, uid: int, gid: int, now: Word, unique: Word) {
    && |r| >= 128
    && HalfAt(r, 0) == mode && HalfAt(r, 2) == uid && HalfAt(r, 24) == gid && HalfAt(r, 26) == 1
    && Little(r, 8) == Little(r, 12) == Little(r, 16) == now && Little(r, 100) == unique
    && forall k :: 4 <= k < 8 || 20 <= k < 24 || 28 <= k < 100 || 104 <= k < 116 ==> r[k] == 0
  }

  lemma FreshFields(raw: seq<Byte>, mode: int, uid: int, gid: int, now: Word, unique: Word)
    requires |raw| >= 128 && 0 <= mode < 0x1_0000 && 0 <= uid < 0x1_0000 && 0 <= gid < 0x1_0000
    ensures var r := Fresh(raw, mode, uid, gid, now, unique);
            IMode(r) == mode && ISize(r) == 0 && ISectors(r) == 0 && IBlock(r) == seq(15, _ => 0)
    ensures FreshInode(Fresh(raw, mode, uid, gid, now, unique), mode, uid, gid, now, unique)
    ensures forall k :: 116 <= k < |raw| ==> Fresh(raw, mode, uid, gid, now, unique)[k] == raw[k]
  {
    var r := Fresh(raw, mode, uid, gid, now, unique);
    FreshParts(raw, mode, uid, gid, now, unique, r);
    hide Fresh;
    assert HalfAt(r, 0) == HalfAt(r[0..2], 0) && HalfAt(r, 2) == HalfAt(r[2..4], 0);
    assert HalfAt(r, 24) == HalfAt(r[24..26], 0) && HalfAt(r, 26) == HalfAt(r[26..28], 0);
    WordPart(r, 8, now);
    WordPart(r, 12, now);
    WordPart(r, 16, now);
    WordPart(r, 100, unique);
    assert forall k :: 40 <= k < 100 ==> r[k] == 0;
  }

  lemma FreshParts(raw: seq<Byte>, mode: int, uid: int, gid: int, now: Word, unique: Word, r: seq<Byte>)
    requires |raw| >= 128 && 0 <= mode < 0x1_0000 && 0 <= uid < 0x1_0000 && 0 <= gid < 0x1_0000
    requires r == Fresh(raw, mode, uid, gid, now, unique)
    ensures r[0..2] == HalfBytes(mode) && r[2..4] == HalfBytes(uid) && r[24..26] == HalfBytes(gid) && r[26..28] == HalfBytes(1)
    ensures r[8..12] == r[12..16] == r[16..20] == WordBytes(now) && r[100..104] == WordBytes(unique)
    ensures forall k :: 4 <= k < 8 || 20 <= k < 24 || 28 <= k < 100 || 104 <= k < 116 ==> r[k] == 0
    ensures forall k :: 116 <= k < |raw| ==> r[k] == raw[k]
  {
    hide *;
    var h, t := FreshHead(mode, uid, gid, now), FreshTail(unique);
    FreshHeadParts(mode, uid, gid, now, h);
    FreshTailParts(unique, t);
    FreshIs(raw, mode, uid, gid, now, unique, r);
    forall k | 4 <= k < 8 || 20 <= k < 24 || 28 <= k < 40 ensures r[k] == 0 {
      assert r[k] == r[0..40][k];
    }
    forall k | 104 <= k < 116 ensures r[k] == 0 {
      assert r[k] == r[100..116][k - 100];
    }
    Within(r, 0, h, 0, 2);
    Within(r, 0, h, 2, 4);
    Within(r, 0, h, 24, 26);
    Within(r, 0, h, 26, 28);
    Within(r, 0, h, 8, 12);
    Within(r, 0, h, 12, 16);
    Within(r, 0, h, 16, 20);
    Within(r, 100, t, 0, 4);
  }

  /** A stretch of a part that was copied to offset o. */
  lemma Within(r: seq<Byte>, o: nat, part: seq<Byte>, from: nat, to: nat)
    requires from <= to <= |part| && o + |part| <= |r| && r[o..o + |part|] == part
    ensures r[o + from..o + to] == part[from..to]
  {
    var whole, piece := r[o..o + |part|], r[o + from..o + to];
    forall i | 0 <= i < to - from ensures piece[i] == part[from..to][i] {
      assert piece[i] == r[o + (from + i)] == whole[from + i];
    }
  }

  lemma FreshIs(raw: seq<Byte>, mode: int, uid: int, gid: int, now: Word, unique: Word, r: seq<Byte>)
    requires |raw| >= 128 && 0 <= mode < 0x1_0000 && 0 <= uid < 0x1_0000 && 0 <= gid < 0x1_0000
    requires r == Fresh(raw, mode, uid, gid, now, unique)
    ensures |r| == |raw| && r[0..40] == FreshHead(mode, uid, gid, now) && r[100..116] == FreshTail(unique)
    ensures forall k :: 40 <= k < 100 ==> r[k] == 0
    ensures forall k :: 116 <= k < |raw| ==> r[k] == raw[k]
  {
    hide FreshHead, FreshTail;
  }

  lemma FreshHeadParts(mode: int, uid: int, gid: int, now: Word, h: seq<Byte>)
    requires 0 <= mode < 0x1_0000 && 0 <= uid < 0x1_0000 && 0 <= gid < 0x1_0000 && h == FreshHead(mode, uid, gid, now)
    ensures |h| == 40 && h[0..2] == HalfBytes(mode) && h[2..4] == HalfBytes(uid) && h[24..26] == HalfBytes(gid)
    ensures h[26..28] == HalfBytes(1) && h[8..12] == WordBytes(now) && h[12..16] == WordBytes(now) && h[16..20] == WordBytes(now)
    ensures forall k :: 4 <= k < 8 || 20 <= k < 24 || 28 <= k < 40 ==> h[k] == 0
  {
    assert WordBytes(0) == [0, 0, 0, 0];
    hide WordBytes, HalfBytes;
  }

  lemma FreshTailParts(unique: Word, t: seq<Byte>)
    requires t == FreshTail(unique)
    ensures |t| == 16 && t[0..4] == WordBytes(unique) && forall k :: 4 <= k < 16 ==> t[k] == 0
  {
    assert WordBytes(0) == [0, 0, 0, 0];
    hide WordBytes;
  }

  lemma WordPart(r: seq<Byte>, i: nat, w: Word)
    requires i + 4 <= |r| && r[i..i + 4] == WordBytes(w)
    ensures WordAt(r, i) == Little(r, i) == w
  {
    LittleIs(r, i);
    WordOfBytes(w);
    assert r[i] == r[i..i + 4][0] && r[i + 1] == r[i..i + 4][1] && r[i + 2] == r[i..i + 4][2] && r[i + 3] == r[i..i + 4][3];
  }

  /** A deleted inode: no mode, links, size or sectors, and the time of deletion. */
  function Dead(raw: seq<Byte>, now: Word): (r: seq<Byte>)
    requires |raw| >= 128
    ensures |r| == |raw|
  {
    Splice(Splice(Splice(Splice(Splice(raw, 20, WordBytes(now)), 26, HalfBytes(0)), 4, WordBytes(0)), 0, HalfBytes(0)), 28, WordBytes(0))
  }

  lemma DeadFields(raw: seq<Byte>, now: Word)
    requires |raw| >= 128
    ensures var r := Dead(raw, now);
            IMode(r) == 0 && ISize(r) == 0 && ISectors(r) == 0 && IBlock(r) == IBlock(raw)
    ensures Little(Dead(raw, now), 20) == now
    ensures forall k :: 0 <= k < 2 || 4 <= k < 8 || 26 <= k < 32 ==> Dead(raw, now)[k] == 0
    ensures forall k :: 2 <= k < 4 || 8 <= k < 20 || 24 <= k < 26 || 32 <= k < |raw| ==> Dead(raw, now)[k] == raw[k]
  {
    var r := Dead(raw, now);
    assert WordBytes(0) == [0, 0, 0, 0];
    assert r[20..24] == WordBytes(now);
    WordPart(r, 20, now);
    assert r[40..100] == raw[40..100];
  }
}
