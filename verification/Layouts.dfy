/** The fixed geometry of a partition, its disk image, and what the block bitmaps of an image say. */
module Layouts {
  import opened Codec
  import opened Bits
  import opened Arith

  datatype Layout = Layout(
    blockSize: nat,
    blockCount: nat,
    blocksPerGroup: nat,
    bitmaps: seq<nat>,      // bg_block_bitmap of each group
    inodeBitmaps: seq<nat>, // bg_inode_bitmap of each group
    tables: seq<nat>,       // bg_inode_table of each group
    tableLength: nat,       // blocks in each inode table
    inodesPerGroup: nat,
    inodeSize: nat,
    sectorSize: nat
  ) {
    function Groups(): nat { |bitmaps| }

    /** Pointers in one block. */
    function Entries(): nat { blockSize / 4 }

    predicate IsBlock(b: nat) { 1 <= b < blockCount }

    predicate IsTable(b: nat) {
      exists g :: 0 <= g < |tables| && tables[g] <= b < tables[g] + tableLength
    }

    /** Blocks that hold block bitmaps, inode bitmaps or inode tables. */
    predicate Reserved(b: nat) {
      b in bitmaps || b in inodeBitmaps || IsTable(b)
    }

    /** 1024-byte blocks or larger, and a disk of at most 4 GiB, hence of at most 2^22 blocks. */
    ghost predicate Ok() {
      && 1024 <= blockSize && blockSize % 4 == 0
      && blockCount <= 0x1_0000_0000 / blockSize && blockCount <= 0x40_0000
      && 0 < blocksPerGroup <= 8 * blockSize
      && (forall b :: IsBlock(b) ==> GroupOf(b) < Groups())
      && |tables| == Groups() && |inodeBitmaps| == Groups()
      && (forall g :: 0 <= g < Groups() ==> IsBlock(bitmaps[g]) && !IsTable(bitmaps[g]) && bitmaps[g] !in inodeBitmaps)
      && (forall g :: 0 <= g < Groups() ==> IsBlock(inodeBitmaps[g]) && !IsTable(inodeBitmaps[g]))
      && (forall g, h :: 0 <= g < h < Groups() ==> bitmaps[g] != bitmaps[h])
      && (forall g :: 0 <= g < Groups() ==> 1 <= tables[g] && tables[g] + tableLength <= blockCount)
      && (forall g, h :: 0 <= g < h < Groups() ==>
                           tables[g] + tableLength <= tables[h] || tables[h] + tableLength <= tables[g])
    }

    /** Inode slots tile the blocks of the inode tables, and blocks are whole sectors. */
    ghost predicate InodesOk() {
      && Ok()
      && 0 < inodesPerGroup
      && 128 <= inodeSize <= blockSize && blockSize % inodeSize == 0
      && tableLength == DivUp(inodesPerGroup * inodeSize, blockSize)
      && 0 < sectorSize && blockSize % sectorSize == 0
    }

    /** The block that a transfer of block b reaches: its byte address is computed in 32 bits. */
    function Address(b: nat): nat
      requires 0 < blockSize
    {
      b * blockSize % 0x1_0000_0000 / blockSize
    }

    /** No address of a block of the partition wraps around. */
    lemma AddressOfBlock(b: nat)
      requires Ok() && b < blockCount
      ensures b * blockSize + blockSize <= 0x1_0000_0000
      ensures Address(b) == b
    {
      DivMod(0x1_0000_0000, blockSize);
      MulMonotone(b + 1, 0x1_0000_0000 / blockSize, blockSize);
      MulSucc(b, blockSize);
      QuotientUnique(b * blockSize, blockSize, b, 0);
    }

    /** Block numbers wrap around at 4 GiB when blocks divide it. */
    lemma AddressWraps(b: nat)
      requires 0 < blockSize && 0x1_0000_0000 % blockSize == 0
      ensures 0 < 0x1_0000_0000 / blockSize && Address(b) == b % (0x1_0000_0000 / blockSize)
    {
      var m := 0x1_0000_0000 / blockSize;
      DivMod(0x1_0000_0000, blockSize);
      DivMod(b, m);
      var q, r := b / m, b % m;
      MulDistributes(q * m, r, blockSize);
      MulAssociates(q, m, blockSize);
      MulSucc(r, blockSize);
      MulMonotone(r + 1, m, blockSize);
      QuotientUnique(b * blockSize, 0x1_0000_0000, q, r * blockSize);
      QuotientUnique(r * blockSize, blockSize, r, 0);
    }

    lemma EntriesPositive()
      requires Ok()
      ensures Entries() > 0 && 4 * Entries() == blockSize
    {
    }

    function GroupOf(b: nat): nat
      requires 0 < blocksPerGroup && 1 <= b
    {
      Quotient(b - 1, blocksPerGroup)
    }

    function IndexOf(b: nat): nat
      requires 0 < blocksPerGroup && 1 <= b
    {
      Remainder(b - 1, blocksPerGroup)
    }

    /** The number of the block that bit i of group g's bitmap stands for. */
    function BlockNumber(g: nat, i: nat): nat {
      i + 1 + g * blocksPerGroup
    }

    lemma NumberOfBlock(b: nat)
      requires 0 < blocksPerGroup && 1 <= b
      ensures BlockNumber(GroupOf(b), IndexOf(b)) == b && IndexOf(b) < blocksPerGroup
    {
      QuotientRemainder(b - 1, blocksPerGroup);
    }

    lemma BlockOfNumber(g: nat, i: nat)
      requires i < blocksPerGroup
      ensures GroupOf(BlockNumber(g, i)) == g && IndexOf(BlockNumber(g, i)) == i
    {
      var x := i + g * blocksPerGroup;
      QuotientRemainder(x, blocksPerGroup);
      MultiplesApart(Quotient(x, blocksPerGroup), g, blocksPerGroup);
    }

    ghost predicate Image(d: seq<Block>) {
      && |d| == blockCount
      && forall b :: 0 <= b < |d| ==> |d[b]| == blockSize
    }

    lemma ImageFacts(d: seq<Block>)
      requires Image(d)
      ensures |d| == blockCount && forall b :: 0 <= b < |d| ==> |d[b]| == blockSize
      ensures !IsBlock(0) && forall b: nat :: IsBlock(b) ==> b < |d|
    {
    }

    /** Bit i of group g's bitmap, as stored on the disk. */
    ghost predicate BitUsed(d: seq<Block>, g: nat, i: nat)
      requires Ok() && Image(d) && g < Groups() && i < 8 * blockSize
    {
      Bit(ToWords(d[bitmaps[g]])[i / 32], i % 32)
    }

    ghost predicate IsFree(d: seq<Block>, b: nat)
      requires Ok() && Image(d)
    {
      && IsBlock(b)
      && (NumberOfBlock(b); !BitUsed(d, GroupOf(b), IndexOf(b)))
    }

    /** A bit of a bitmap word is a bit of one of its bytes. */
    lemma BitUsedByte(d: seq<Block>, g: nat, i: nat)
      requires Ok() && Image(d) && g < Groups() && i < 8 * blockSize
      ensures BitUsed(d, g, i) <==> Bit(d[bitmaps[g]][i / 8], i % 8)
    {
      BitOfWord(d[bitmaps[g]], 4 * (i / 32), i % 32);
      assert 4 * (i / 32) + i % 32 / 8 == i / 8 && i % 32 % 8 == i % 8;
    }

    /**
     Block b is free by the bytes of the disk: bit (b - 1) mod blocksPerGroup of its group's bitmap, eight to a byte and
     the lowest first, is clear.
     */
    ghost predicate Clear(d: seq<Block>, b: nat)
      requires Ok() && Image(d)
    {
      && IsBlock(b)
      && var g, i := (b - 1) / blocksPerGroup, (b - 1) % blocksPerGroup;
         g < |bitmaps| && bitmaps[g] < |d| && i / 8 < |d[bitmaps[g]]| && d[bitmaps[g]][i / 8] / Power(i % 8) % 2 == 0
    }

    lemma ClearIs(d: seq<Block>, b: nat)
      requires Ok() && Image(d)
      ensures IsFree(d, b) <==> Clear(d, b)
    {
      hide Power;
      if IsBlock(b) {
        NumberOfBlock(b);
        QuotientIsDivision(b - 1, blocksPerGroup);
        var g, i := GroupOf(b), IndexOf(b);
        BitUsedByte(d, g, i);
        BitOfByte(d[bitmaps[g]][i / 8], i % 8);
      }
    }

    /** The free blocks numbered below n. */
    ghost function FreeBelow(d: seq<Block>, n: nat): set<nat>
      requires Ok() && Image(d)
    {
      if n == 0 then {} else FreeBelow(d, n - 1) + if IsFree(d, n - 1) then {n - 1} else {}
    }

    ghost function FreeSet(d: seq<Block>): set<nat>
      requires Ok() && Image(d)
    {
      FreeBelow(d, blockCount)
    }

    lemma {:induction false} FreeBelowMember(d: seq<Block>, n: nat, b: nat)
      requires Ok() && Image(d)
      ensures b in FreeBelow(d, n) <==> b < n && IsFree(d, b)
    {
      if n > 0 {
        FreeBelowMember(d, n - 1, b);
      }
    }

    lemma FreeSetMember(d: seq<Block>, b: nat)
      requires Ok() && Image(d)
      ensures b in FreeSet(d) <==> IsFree(d, b)
      ensures b in FreeSet(d) ==> IsBlock(b)
    {
      FreeBelowMember(d, blockCount, b);
    }

    /** The free set, by the bytes of the bitmaps. */
    lemma FreeIsClear(d: seq<Block>, b: nat)
      requires Ok() && Image(d)
      ensures b in FreeSet(d) <==> Clear(d, b)
    {
      hide Clear, FreeSet, IsFree;
      FreeSetMember(d, b);
      ClearIs(d, b);
    }

    function InGroup(s: set<nat>, g: nat): set<nat>
      requires 0 < blocksPerGroup
    {
      set b | b in s && 1 <= b && GroupOf(b) == g
    }

    ghost function FreeIn(d: seq<Block>, g: nat): set<nat>
      requires Ok() && Image(d)
    {
      InGroup(FreeSet(d), g)
    }

    /** Bits that stand for no block of the partition are set. */
    ghost predicate Padded(d: seq<Block>)
      requires Ok() && Image(d)
    {
      forall g, i :: 0 <= g < Groups() && 0 <= i < 8 * blockSize && (i >= blocksPerGroup || BlockNumber(g, i) >= blockCount)
                     ==> BitUsed(d, g, i)
    }

    /** No bitmap or inode-table block is offered for allocation. */
    ghost predicate Guarded(d: seq<Block>)
      requires Ok() && Image(d)
    {
      forall b :: b in FreeSet(d) ==> !Reserved(b)
    }

    /** The image in which the bit of block b is set. */
    ghost function MarkUsed(d: seq<Block>, b: nat): (r: seq<Block>)
      requires Ok() && Image(d) && IsBlock(b)
      ensures Image(r)
    {
      NumberOfBlock(b);
      var g, i := GroupOf(b), IndexOf(b);
      var ws := ToWords(d[bitmaps[g]]);
      d[bitmaps[g] := ToBytes(ws[i / 32 := SetWord(ws[i / 32], i % 32)])]
    }

    /** The image in which the bit of block b is cleared. */
    ghost function MarkFree(d: seq<Block>, b: nat): (r: seq<Block>)
      requires Ok() && Image(d) && IsBlock(b)
      ensures Image(r)
    {
      NumberOfBlock(b);
      var g, i := GroupOf(b), IndexOf(b);
      var ws := ToWords(d[bitmaps[g]]);
      d[bitmaps[g] := ToBytes(ws[i / 32 := ClearWord(ws[i / 32], i % 32)])]
    }

    /** Replacing one bitmap word changes no bit of any other word. */
    lemma BitUsedAfterWord(d: seq<Block>, g: nat, k: nat, w: Word, h: nat, j: nat)
      requires Ok() && Image(d) && g < Groups() && k < blockSize / 4 && h < Groups() && j < 8 * blockSize
      ensures var d' := d[bitmaps[g] := ToBytes(ToWords(d[bitmaps[g]])[k := w])];
              && Image(d')
              && (BitUsed(d', h, j) <==> if h == g && j / 32 == k then Bit(w, j % 32) else BitUsed(d, h, j))
    {
      WordsOfBytes(ToWords(d[bitmaps[g]])[k := w]);
      assert h != g ==> bitmaps[h] != bitmaps[g];
    }

    lemma BitUsedAfterMark(d: seq<Block>, b: nat, h: nat, j: nat)
      requires Ok() && Image(d) && IsBlock(b) && h < Groups() && j < 8 * blockSize
      ensures BitUsed(MarkUsed(d, b), h, j) <==> BitUsed(d, h, j) || (h == GroupOf(b) && j == IndexOf(b))
      ensures BitUsed(MarkFree(d, b), h, j) <==> BitUsed(d, h, j) && !(h == GroupOf(b) && j == IndexOf(b))
    {
      NumberOfBlock(b);
      var g, i := GroupOf(b), IndexOf(b);
      var w := ToWords(d[bitmaps[g]])[i / 32];
      BitUsedAfterWord(d, g, i / 32, SetWord(w, i % 32), h, j);
      BitUsedAfterWord(d, g, i / 32, ClearWord(w, i % 32), h, j);
      BitOfSet(w, i % 32, j % 32);
      BitOfClear(w, i % 32, j % 32);
    }

    /** What marking a block does to one byte of a bitmap. */
    lemma ByteAfterMark(d: seq<Block>, b: nat, h: nat, y: nat)
      requires Ok() && Image(d) && IsBlock(b) && h < Groups() && y < blockSize
      ensures MarkUsed(d, b)[bitmaps[h]][y] ==
              if h == GroupOf(b) && y == IndexOf(b) / 8 then SetBit(d[bitmaps[h]][y], IndexOf(b) % 8) else d[bitmaps[h]][y]
      ensures MarkFree(d, b)[bitmaps[h]][y] ==
              if h == GroupOf(b) && y == IndexOf(b) / 8 then ClearBit(d[bitmaps[h]][y], IndexOf(b) % 8) else d[bitmaps[h]][y]
    {
      hide MarkUsed, MarkFree, BitUsed, SetBit, ClearBit;
      NumberOfBlock(b);
      var was, up, down: nat := d[bitmaps[h]][y], MarkUsed(d, b)[bitmaps[h]][y], MarkFree(d, b)[bitmaps[h]][y];
      var here := h == GroupOf(b) && y == IndexOf(b) / 8;
      var raised: nat := if here then SetBit(was, IndexOf(b) % 8) else was;
      var lowered: nat := if here then ClearBit(was, IndexOf(b) % 8) else was;
      assert Pow2(8) == 0x100;
      if here {
        SetInRange(was, IndexOf(b) % 8, 8);
      }
      forall k: nat | k < 8 ensures (Bit(up, k) <==> Bit(raised, k)) && (Bit(down, k) <==> Bit(lowered, k)) {
        var j := 8 * y + k;
        assert j / 8 == y && j % 8 == k;
        BitUsedByte(d, h, j);
        BitUsedByte(MarkUsed(d, b), h, j);
        BitUsedByte(MarkFree(d, b), h, j);
        BitUsedAfterMark(d, b, h, j);
        BitOfSet(was, IndexOf(b) % 8, k);
        BitOfClear(was, IndexOf(b) % 8, k);
      }
      BitsDetermine(up, raised, 8);
      BitsDetermine(down, lowered, 8);
    }

    /** From d to e, the bit of block b changed, by the given amount in its byte, and no other byte of the disk. */
    ghost predicate OneBit(d: seq<Block>, e: seq<Block>, b: nat, amount: int)
      requires Ok() && Image(d) && Image(e) && IsBlock(b)
    {
      var g, i := (b - 1) / blocksPerGroup, (b - 1) % blocksPerGroup;
      && g < |bitmaps|
      && forall x, y :: 0 <= x < |d| && 0 <= y < blockSize ==>
                          e[x][y] as int == d[x][y] as int + if x == bitmaps[g] && y == i / 8 then amount * Power(i % 8) else 0
    }

    lemma MarksOneBit(d: seq<Block>, b: nat)
      requires Ok() && Image(d) && IsBlock(b)
      ensures b in FreeSet(d) ==> OneBit(d, MarkUsed(d, b), b, 1)
      ensures b !in FreeSet(d) ==> OneBit(d, MarkFree(d, b), b, -1)
    {
      hide BitUsed, FreeSet, SetBit, ClearBit, Bit, Power;
      NumberOfBlock(b);
      QuotientIsDivision(b - 1, blocksPerGroup);
      FreeSetMember(d, b);
      var g, i := GroupOf(b), IndexOf(b);
      BitUsedByte(d, g, i);
      SetAdds(d[bitmaps[g]][i / 8], i % 8);
      forall x: nat, y: nat | x < |d| && y < blockSize
        ensures MarkUsed(d, b)[x][y] == if x == bitmaps[g] && y == i / 8 then SetBit(d[x][y], i % 8) else d[x][y]
        ensures MarkFree(d, b)[x][y] == if x == bitmaps[g] && y == i / 8 then ClearBit(d[x][y], i % 8) else d[x][y]
      {
        if x == bitmaps[g] {
          ByteAfterMark(d, b, g, y);
        }
      }
    }

    lemma IsFreeAfterMark(d: seq<Block>, b: nat, c: nat)
      requires Ok() && Image(d) && IsBlock(b) && IsBlock(c)
      ensures IsFree(MarkUsed(d, b), c) <==> IsFree(d, c) && c != b
      ensures IsFree(MarkFree(d, b), c) <==> IsFree(d, c) || c == b
    {
      NumberOfBlock(b);
      NumberOfBlock(c);
      BitUsedAfterMark(d, b, GroupOf(c), IndexOf(c));
    }

    lemma PaddedAfterMark(d: seq<Block>, b: nat)
      requires Ok() && Image(d) && IsBlock(b) && Padded(d)
      ensures Padded(MarkUsed(d, b)) && Padded(MarkFree(d, b))
    {
      NumberOfBlock(b);
      forall g: nat, i: nat | g < Groups() && i < 8 * blockSize && (i >= blocksPerGroup || BlockNumber(g, i) >= blockCount)
        ensures BitUsed(MarkUsed(d, b), g, i) && BitUsed(MarkFree(d, b), g, i)
      {
        assert BitUsed(d, g, i);
        BitUsedAfterMark(d, b, g, i);
      }
    }

    /** Allocating a block removes exactly that block from the free set, freeing it adds exactly that block. */
    lemma FreeSetAfterMark(d: seq<Block>, b: nat)
      requires Ok() && Image(d) && IsBlock(b)
      ensures FreeSet(MarkUsed(d, b)) == FreeSet(d) - {b}
      ensures FreeSet(MarkFree(d, b)) == FreeSet(d) + {b}
    {
      forall c: nat
        ensures c in FreeSet(MarkUsed(d, b)) <==> c in FreeSet(d) && c != b
        ensures c in FreeSet(MarkFree(d, b)) <==> c in FreeSet(d) || c == b
      {
        FreeSetMember(d, c);
        FreeSetMember(MarkUsed(d, b), c);
        FreeSetMember(MarkFree(d, b), c);
        if IsBlock(c) {
          IsFreeAfterMark(d, b, c);
        }
      }
    }

    lemma InGroupChange(s: set<nat>, b: nat, g: nat)
      requires 0 < blocksPerGroup && 1 <= b
      ensures b in s && g == GroupOf(b) ==> |InGroup(s, g)| > 0 && |InGroup(s - {b}, g)| == |InGroup(s, g)| - 1
      ensures b !in s && g == GroupOf(b) ==> |InGroup(s + {b}, g)| == |InGroup(s, g)| + 1
      ensures g != GroupOf(b) ==> InGroup(s - {b}, g) == InGroup(s, g) == InGroup(s + {b}, g)
    {
      if g == GroupOf(b) {
        assert InGroup(s - {b}, g) == InGroup(s, g) - {b};
        assert InGroup(s + {b}, g) == InGroup(s, g) + {b};
        assert b in InGroup(s, g) <==> b in s;
      }
    }

    /** Each group counter is the number of free blocks of its group, the superblock counter that of all groups. */
    ghost predicate Counted(d: seq<Block>, groupFree: seq<nat>, superFree: nat)
      requires Ok() && Image(d)
    {
      && |groupFree| == Groups()
      && (forall g :: 0 <= g < Groups() ==> groupFree[g] == |FreeIn(d, g)|)
      && superFree == |FreeSet(d)|
    }

    /** Padding and counters are right, whatever is offered for allocation. */
    ghost predicate Accounted(d: seq<Block>, groupFree: seq<nat>, superFree: nat)
    {
      Ok() && Image(d) && Padded(d) && Counted(d, groupFree, superFree)
    }

    ghost predicate Sound(d: seq<Block>, groupFree: seq<nat>, superFree: nat)
    {
      Accounted(d, groupFree, superFree) && Guarded(d)
    }

    /** One block fewer or more in the free set, and its counters. */
    lemma CountedAfterChange(d: seq<Block>, d': seq<Block>, groupFree: seq<nat>, superFree: nat, b: nat)
      requires Ok() && Image(d) && Image(d') && Counted(d, groupFree, superFree) && 1 <= b && GroupOf(b) < Groups()
      ensures b in FreeSet(d) && FreeSet(d') == FreeSet(d) - {b} ==>
                && groupFree[GroupOf(b)] > 0 && superFree > 0
                && Counted(d', groupFree[GroupOf(b) := groupFree[GroupOf(b)] - 1], superFree - 1)
      ensures b !in FreeSet(d) && FreeSet(d') == FreeSet(d) + {b} ==>
                Counted(d', groupFree[GroupOf(b) := groupFree[GroupOf(b)] + 1], superFree + 1)
    {
      hide Image, FreeSet, GroupOf, InGroup;
      forall g: nat { InGroupChange(FreeSet(d), b, g); }
    }

    lemma GroupExists(b: nat)
      requires Ok() && IsBlock(b)
      ensures 1 <= b && GroupOf(b) < Groups()
    {
      NumberOfBlock(b);
    }

    lemma SoundAfterMarkUsed(d: seq<Block>, groupFree: seq<nat>, superFree: nat, b: nat)
      requires Sound(d, groupFree, superFree) && b in FreeSet(d)
      ensures IsBlock(b) && GroupOf(b) < Groups() && groupFree[GroupOf(b)] > 0 && superFree > 0
      ensures Sound(MarkUsed(d, b), groupFree[GroupOf(b) := groupFree[GroupOf(b)] - 1], superFree - 1)
      ensures FreeSet(MarkUsed(d, b)) == FreeSet(d) - {b}
    {
      hide Ok, Image, FreeSet, GroupOf, MarkUsed, MarkFree, Padded, Counted, IsBlock;
      FreeSetMember(d, b);
      GroupExists(b);
      FreeSetAfterMark(d, b);
      PaddedAfterMark(d, b);
      CountedLength(d, groupFree, superFree);
      CountedAfterChange(d, MarkUsed(d, b), groupFree, superFree, b);
    }

    lemma CountedLength(d: seq<Block>, groupFree: seq<nat>, superFree: nat)
      requires Ok() && Image(d) && Counted(d, groupFree, superFree)
      ensures |groupFree| == Groups()
    {
    }

    lemma SoundAfterMarkFree(d: seq<Block>, groupFree: seq<nat>, superFree: nat, b: nat)
      requires Sound(d, groupFree, superFree) && IsBlock(b) && b !in FreeSet(d)
      ensures GroupOf(b) < Groups()
      ensures Accounted(MarkFree(d, b), groupFree[GroupOf(b) := groupFree[GroupOf(b)] + 1], superFree + 1)
      ensures Sound(MarkFree(d, b), groupFree[GroupOf(b) := groupFree[GroupOf(b)] + 1], superFree + 1) <==> !Reserved(b)
      ensures FreeSet(MarkFree(d, b)) == FreeSet(d) + {b}
    {
      hide Ok, Image, FreeSet, GroupOf, MarkUsed, MarkFree, Padded, Counted, IsBlock, Reserved;
      GroupExists(b);
      FreeSetAfterMark(d, b);
      PaddedAfterMark(d, b);
      CountedLength(d, groupFree, superFree);
      CountedAfterChange(d, MarkFree(d, b), groupFree, superFree, b);
      assert b in FreeSet(MarkFree(d, b));
    }

    /** Freeing the block just allocated restores the image byte for byte. */
    lemma MarkFreeUndoesMarkUsed(d: seq<Block>, b: nat)
      requires Ok() && Image(d) && b in FreeSet(d)
      ensures IsBlock(b) && MarkFree(MarkUsed(d, b), b) == d
    {
      FreeSetMember(d, b);
      NumberOfBlock(b);
      var g, i := GroupOf(b), IndexOf(b);
      var w := ToWords(d[bitmaps[g]])[i / 32];
      ClearOfSet(w, i % 32);
      WordRestored(d[bitmaps[g]], i / 32, SetWord(w, i % 32));
    }

    ghost predicate SameBitmaps(d: seq<Block>, d': seq<Block>)
      requires Ok() && Image(d) && Image(d')
    {
      forall g :: 0 <= g < Groups() ==> d[bitmaps[g]] == d'[bitmaps[g]]
    }

    lemma FreeSetFrame(d: seq<Block>, d': seq<Block>)
      requires Ok() && Image(d) && Image(d') && SameBitmaps(d, d')
      ensures FreeSet(d) == FreeSet(d')
      ensures Padded(d) == Padded(d')
    {
      forall b: nat ensures b in FreeSet(d) <==> b in FreeSet(d') {
        FreeSetMember(d, b);
        FreeSetMember(d', b);
        if IsBlock(b) {
          NumberOfBlock(b);
        }
      }
      assert forall g, i :: 0 <= g < Groups() && 0 <= i < 8 * blockSize ==> BitUsed(d, g, i) == BitUsed(d', g, i);
    }

    lemma SameBit(d: seq<Block>, d': seq<Block>, g: nat, j: nat, k: nat)
      requires Ok() && Image(d) && Image(d') && Padded(d) && Padded(d') && FreeSet(d) == FreeSet(d')
      requires g < Groups() && j < blockSize / 4 && k < 32
      ensures Bit(ToWords(d[bitmaps[g]])[j], k) <==> Bit(ToWords(d'[bitmaps[g]])[j], k)
    {
      var i := 32 * j + k;
      assert i / 32 == j && i % 32 == k;
      var b := BlockNumber(g, i);
      if i < blocksPerGroup && b < blockCount {
        BlockOfNumber(g, i);
        FreeSetMember(d, b);
        FreeSetMember(d', b);
      } else {
        assert BitUsed(d, g, i) && BitUsed(d', g, i);
      }
    }

    lemma SameWord(d: seq<Block>, d': seq<Block>, g: nat, j: nat)
      requires Ok() && Image(d) && Image(d') && Padded(d) && Padded(d') && FreeSet(d) == FreeSet(d')
      requires g < Groups() && j < blockSize / 4
      ensures ToWords(d[bitmaps[g]])[j] == ToWords(d'[bitmaps[g]])[j]
    {
      hide Padded, FreeSet, ToWords, Bit, Pow2;
      var v, w := ToWords(d[bitmaps[g]])[j], ToWords(d'[bitmaps[g]])[j];
      forall k: nat | k < 32 ensures Bit(v, k) <==> Bit(w, k) {
        SameBit(d, d', g, j, k);
      }
      Pow2Of32();
      BitsDetermine(v, w, 32);
    }

    /** On padded images the free set determines every bitmap byte. */
    lemma FreeSetDeterminesBitmaps(d: seq<Block>, d': seq<Block>)
      requires Ok() && Image(d) && Image(d') && Padded(d) && Padded(d') && FreeSet(d) == FreeSet(d')
      ensures SameBitmaps(d, d')
    {
      forall g | 0 <= g < Groups() ensures d[bitmaps[g]] == d'[bitmaps[g]] {
        var v, w := ToWords(d[bitmaps[g]]), ToWords(d'[bitmaps[g]]);
        forall j | 0 <= j < |v| ensures v[j] == w[j] {
          SameWord(d, d', g, j);
        }
        assert v == w;
        BytesOfWords(d[bitmaps[g]]);
        BytesOfWords(d'[bitmaps[g]]);
      }
    }
  }
}
