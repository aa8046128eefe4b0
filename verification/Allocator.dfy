/** The bitmap allocator: first-fit allocation of one block, and its release. */
module Allocator {
  import opened Codec
  import opened Arith
  import opened Bits
  import opened Layouts
  import opened Partitions

  /** The scan over the words of one bitmap: the lowest clear bit, or 32 * |words| when there is none. */
  method FirstClear(words: seq<Word>) returns (i: nat)
    ensures i <= 32 * |words|
    ensures i < 32 * |words| ==> !Bit(words[i / 32], i % 32)
    ensures forall h :: 0 <= h < i ==> Bit(words[h / 32], h % 32)
  {
    var j := 0;
    while j < |words|
      invariant j <= |words|
      invariant forall h :: 0 <= h < 32 * j ==> Bit(words[h / 32], h % 32)
    {
      FullWord(words[j]);
      if words[j] != 0xFFFF_FFFF {
        var k := 0;
        while k < 32
          invariant k <= 32
          invariant forall h :: 0 <= h < k ==> Bit(words[j], h)
        {
          if !Bit(words[j], k) {
            return 32 * j + k;
          }
          k := k + 1;
        }
      }
      j := j + 1;
    }
    return 32 * |words|;
  }

  /** Claims bit i of group g, which the scan found clear in the bitmap words it read. */
  method Claim(p: Partition, g: nat, i: nat, words: seq<Word>) returns (b: Word)
    requires p.Valid() && g < p.L.Groups() && i < p.L.blocksPerGroup
    requires words == ToWords(p.disk[p.L.bitmaps[g]])
    requires p.L.BlockNumber(g, i) in p.Free()
    modifies p`groupFree, p`superFree, p.disk
    ensures p.Valid()
    ensures b == p.L.BlockNumber(g, i) && p.L.IsBlock(b) && p.L.GroupOf(b) == g
    ensures p.disk[..] == p.L.MarkUsed(old(p.disk[..]), b) && p.Free() == old(p.Free()) - {b as nat}
    ensures g < |old(p.groupFree)| && old(p.groupFree)[g] > 0 && old(p.superFree) > 0
    ensures p.groupFree == old(p.groupFree)[g := old(p.groupFree)[g] - 1]
    ensures p.superFree == old(p.superFree) - 1
  {
    hide Layout.FreeSet, Layout.Sound;
    GroupCounters(p);
    ghost var d := p.disk[..];
    p.L.BlockOfNumber(g, i);
    p.L.FreeSetMember(d, p.L.BlockNumber(g, i));
    b := i + 1 + g * p.L.blocksPerGroup;
    p.L.SoundAfterMarkUsed(d, p.groupFree, p.superFree, b);
    assert p.L.GroupOf(b) == g && p.L.IndexOf(b) == i;
    var marked: Word := SetWord(words[i / 32], i % 32);
    p.groupFree := p.groupFree[g := p.groupFree[g] - 1];
    p.superFree := p.superFree - 1;
    var status := p.WriteBlock(p.L.bitmaps[g], ToBytes(words[i / 32 := marked]));
    assert p.disk[..] == p.L.MarkUsed(d, b);
  }

  /** The scan of a group with a nonzero counter: it always finds a bit, and that is the group's first free block. */
  method ScanGroup(p: Partition, g: nat) returns (i: nat, words: seq<Word>)
    requires p.Valid() && g < p.L.Groups() && p.groupFree[g] != 0
    requires forall f :: f in p.Free() ==> 1 <= f && p.L.GroupOf(f) >= g
    ensures i < p.L.blocksPerGroup && p.L.BlockNumber(g, i) in p.Free()
    ensures forall f :: f in p.Free() ==> p.L.BlockNumber(g, i) <= f
    ensures words == ToWords(p.disk[p.L.bitmaps[g]])
  {
    var buffer := p.Malloc();
    var status, data := p.ReadBlock(p.L.bitmaps[g], ToBytes(buffer));
    words := ToWords(data);
    SomeClear(p.L, p.disk[..], g);
    i := FirstClear(words);
    FirstFree(p.L, p.disk[..], g, i);
  }

  method AllocateBlock(p: Partition) returns (b: Word)
    requires p.Valid()
    modifies p`groupFree, p`superFree, p.disk
    ensures p.Valid()
    ensures p.Shaped() && old(p.Shaped())
    ensures b == 0 <==> forall c: nat :: !p.L.Clear(old(p.disk[..]), c)
    ensures b != 0 ==> p.L.Clear(old(p.disk[..]), b) && forall c: nat :: p.L.Clear(old(p.disk[..]), c) ==> b <= c
    ensures b != 0 ==> p.L.IsBlock(b) && p.L.OneBit(old(p.disk[..]), p.disk[..], b, 1)
    ensures b == 0 <==> old(p.Free()) == {}
    ensures b == 0 ==> p.disk[..] == old(p.disk[..]) && p.groupFree == old(p.groupFree) && p.superFree == old(p.superFree)
    ensures b != 0 ==> p.L.IsBlock(b) && b in old(p.Free()) && forall f :: f in old(p.Free()) ==> b <= f
    ensures b != 0 ==> p.disk[..] == p.L.MarkUsed(old(p.disk[..]), b) && p.Free() == old(p.Free()) - {b as nat}
    ensures b != 0 ==> var g := p.L.GroupOf(b);
                       && g < |old(p.groupFree)| && old(p.groupFree)[g] > 0 && old(p.superFree) > 0
                       && p.groupFree == old(p.groupFree)[g := old(p.groupFree)[g] - 1]
                       && p.superFree == old(p.superFree) - 1
  {
    hide Layout.Sound, Layout.FreeSet, Layout.MarkUsed, Layout.Ok, Layout.Image, Layout.Clear, Layout.OneBit;
    GroupCounters(p);
    ghost var d := p.disk[..];
    FreeByBytes(p.L, d);
    forall f | f in p.Free() ensures 1 <= f {
      p.L.FreeSetMember(d, f);
    }
    var i: nat := 0;
    while i < p.L.Groups()
      invariant i <= p.L.Groups()
      invariant p.Valid() && p.disk[..] == d
      invariant p.groupFree == old(p.groupFree) && p.superFree == old(p.superFree)
      invariant forall f :: f in p.Free() ==> 1 <= f && p.L.GroupOf(f) >= i
    {
      if p.groupFree[i] == 0 {
        NoneInGroup(p.L, d, p.groupFree, p.superFree, i);
        i := i + 1;
        continue;
      }
      var bit: nat, words: seq<Word> := ScanGroup(p, i);
      b := Claim(p, i, bit, words);
      p.L.MarksOneBit(d, b);
      return b;
    }
    NoGroupBeyond(p);
    return 0;
  }

  /** The free set, by the bytes of the bitmaps. */
  lemma FreeByBytes(L: Layout, d: seq<Block>)
    requires L.Ok() && L.Image(d)
    ensures forall c: nat :: c in L.FreeSet(d) <==> L.Clear(d, c)
  {
    forall c: nat ensures c in L.FreeSet(d) <==> L.Clear(d, c) {
      L.FreeIsClear(d, c);
    }
  }

  lemma GroupCounters(p: Partition)
    requires p.Valid()
    ensures p.L.Ok() && p.L.Image(p.disk[..]) && |p.groupFree| == p.L.Groups()
  {
  }

  /** Every free block is in one of the groups. */
  lemma NoGroupBeyond(p: Partition)
    requires p.Valid()
    ensures (forall f :: f in p.Free() ==> 1 <= f && p.L.GroupOf(f) >= p.L.Groups()) ==> p.Free() == {}
  {
    hide Layout.FreeSet, Layout.Image;
    forall f | f in p.Free() ensures 1 <= f && p.L.GroupOf(f) < p.L.Groups() {
      p.L.FreeSetMember(p.disk[..], f);
    }
  }

  lemma NoneInGroup(L: Layout, d: seq<Block>, groupFree: seq<nat>, superFree: nat, g: nat)
    requires L.Sound(d, groupFree, superFree) && g < L.Groups() && groupFree[g] == 0
    ensures forall f :: f in L.FreeSet(d) ==> 1 <= f && L.GroupOf(f) != g
  {
    assert L.FreeIn(d, g) == {};
    forall f | f in L.FreeSet(d) ensures 1 <= f && L.GroupOf(f) != g {
      L.FreeSetMember(d, f);
      assert f in L.FreeIn(d, g) <==> L.GroupOf(f) == g;
    }
  }

  /** A group whose counter is nonzero has a clear bit, so the scan of its bitmap succeeds. */
  lemma SomeClear(L: Layout, d: seq<Block>, g: nat)
    requires L.Ok() && L.Image(d) && g < L.Groups() && L.FreeIn(d, g) != {}
    ensures exists h :: 0 <= h < 8 * L.blockSize && !L.BitUsed(d, g, h)
  {
    var f :| f in L.FreeIn(d, g);
    L.FreeSetMember(d, f);
    L.NumberOfBlock(f);
    assert !L.BitUsed(d, g, L.IndexOf(f));
  }

  /** The lowest clear bit of the first group that has one names the lowest free block. */
  lemma FirstFree(L: Layout, d: seq<Block>, g: nat, i: nat)
    requires L.Ok() && L.Image(d) && L.Padded(d) && g < L.Groups() && i < 8 * L.blockSize
    requires !L.BitUsed(d, g, i)
    requires forall h :: 0 <= h < i ==> L.BitUsed(d, g, h)
    requires forall f :: f in L.FreeSet(d) ==> 1 <= f && L.GroupOf(f) >= g
    ensures var b := L.BlockNumber(g, i);
            && i < L.blocksPerGroup && b in L.FreeSet(d)
            && forall f :: f in L.FreeSet(d) ==> b <= f
  {
    var b := L.BlockNumber(g, i);
    assert i < L.blocksPerGroup && b < L.blockCount;
    L.BlockOfNumber(g, i);
    L.FreeSetMember(d, b);
    forall f | f in L.FreeSet(d) ensures b <= f {
      L.FreeSetMember(d, f);
      L.NumberOfBlock(f);
      var h := L.GroupOf(f);
      if h > g {
        MulSucc(g, L.blocksPerGroup);
        MulMonotone(g + 1, h, L.blocksPerGroup);
      }
    }
  }

  /** Clears the bit of a block in use in the bitmap words just read. */
  method Release(p: Partition, b: nat, words: seq<Word>)
    requires p.Valid() && p.L.IsBlock(b) && b !in p.Free()
    requires words == ToWords(p.disk[p.L.bitmaps[p.L.GroupOf(b)]])
    modifies p`groupFree, p`superFree, p.disk
    ensures p.Shaped() && p.L.Accounted(p.disk[..], p.groupFree, p.superFree)
    ensures p.Valid() <==> !p.L.Reserved(b)
    ensures p.disk[..] == p.L.MarkFree(old(p.disk[..]), b) && p.Free() == old(p.Free()) + {b}
    ensures p.L.GroupOf(b) < |old(p.groupFree)|
    ensures p.groupFree == old(p.groupFree)[p.L.GroupOf(b) := old(p.groupFree)[p.L.GroupOf(b)] + 1]
    ensures p.superFree == old(p.superFree) + 1
  {
    ghost var d := p.disk[..];
    var g, i := p.L.GroupOf(b), p.L.IndexOf(b);
    p.L.NumberOfBlock(b);
    p.L.SoundAfterMarkFree(d, p.groupFree, p.superFree, b);
    var cleared: Word := ClearWord(words[i / 32], i % 32);
    p.groupFree := p.groupFree[g := p.groupFree[g] + 1];
    p.superFree := p.superFree + 1;
    var status := p.WriteBlock(p.L.bitmaps[g], ToBytes(words[i / 32 := cleared]));
    assert p.disk[..] == p.L.MarkFree(d, b);
  }

  lemma SoundFacts(p: Partition)
    requires p.Valid()
    ensures p.Shaped() && p.L.Ok() && p.L.Image(p.disk[..]) && p.L.Accounted(p.disk[..], p.groupFree, p.superFree)
    ensures forall b :: b in p.Free() ==> !p.L.Reserved(b)
  {
    hide Layout.Reserved, Layout.FreeSet;
  }

  /** Where the bit of a block is, and what it says. */
  lemma BitmapBit(p: Partition, b: Word)
    requires p.Shaped() && p.L.IsBlock(b)
    ensures 0 < p.L.blocksPerGroup && 1 <= b
    ensures var g, i := (b - 1) / p.L.blocksPerGroup, (b - 1) % p.L.blocksPerGroup;
            && 0 <= g == p.L.GroupOf(b) < |p.L.bitmaps| && 0 <= i && p.L.bitmaps[g] < p.disk.Length
            && p.L.IsBlock(p.L.bitmaps[g])
            && i / 32 < |ToWords(p.disk[p.L.bitmaps[g]])| && |p.disk[p.L.bitmaps[g]]| == p.L.blockSize == 4 * p.L.Entries()
            && (Bit(ToWords(p.disk[p.L.bitmaps[g]])[i / 32], i % 32) <==> b !in p.Free())
  {
    hide Layout.FreeSet;
    QuotientIsDivision(b - 1, p.L.blocksPerGroup);
    p.L.NumberOfBlock(b);
    p.L.FreeSetMember(p.disk[..], b);
  }

  /** What the byte with the bit of a block says, and what it is once the block is freed. */
  lemma BitmapByte(p: Partition, b: Word)
    requires p.Shaped() && p.L.IsBlock(b)
    ensures b in p.Free() <==> p.L.Clear(p.disk[..], b)
    ensures b !in p.Free() ==> p.L.OneBit(p.disk[..], p.L.MarkFree(p.disk[..], b), b, -1)
  {
    hide Layout.FreeSet, Layout.Clear, Layout.OneBit, Layout.MarkFree;
    p.L.FreeIsClear(p.disk[..], b);
    p.L.MarksOneBit(p.disk[..], b);
  }

  /**
   Frees a block of the partition, whatever it holds: once a bitmap or a table is offered for allocation,
   the partition is no longer valid, although its counters are right.
   */
  method DeallocateBlock(p: Partition, b: Word) returns (freed: nat)
    requires p.Valid() && p.L.IsBlock(b)
    modifies p`groupFree, p`superFree, p.disk
    ensures p.L.Accounted(p.disk[..], p.groupFree, p.superFree)
    ensures p.Valid() <==> !p.L.Reserved(b)
    ensures p.Shaped() && old(p.Shaped())
    ensures freed == if p.L.Clear(old(p.disk[..]), b) then 0 else 1
    ensures freed == 1 ==> p.L.OneBit(old(p.disk[..]), p.disk[..], b, -1)
    ensures freed == if b in old(p.Free()) then 0 else 1
    ensures freed == 0 ==> p.disk[..] == old(p.disk[..]) && p.groupFree == old(p.groupFree) && p.superFree == old(p.superFree)
    ensures freed == 1 ==> p.disk[..] == p.L.MarkFree(old(p.disk[..]), b) && p.Free() == old(p.Free()) + {b as nat}
    ensures freed == 1 ==> var g := p.L.GroupOf(b);
                           && g < |old(p.groupFree)|
                           && p.groupFree == old(p.groupFree)[g := old(p.groupFree)[g] + 1]
                           && p.superFree == old(p.superFree) + 1
  {
    hide *;
    SoundFacts(p);
    BitmapBit(p, b);
    BitmapByte(p, b);
    var group := (b - 1) / p.L.blocksPerGroup;
    var index := (b - 1) % p.L.blocksPerGroup;
    var buffer := p.Malloc();
    var status, data := p.ReadBlock(p.L.bitmaps[group], ToBytes(buffer));
    var words := ToWords(data);
    if Bit(words[index / 32], index % 32) {
      Release(p, b, words);
      return 1;
    }
    return 0;
  }
}
