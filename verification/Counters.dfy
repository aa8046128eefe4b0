/** What the free counters count: the zero bits of the bitmaps. */
module Counters {
  import opened Codec
  import opened Layouts

  function Sum(counts: seq<nat>): nat {
    if counts == [] then 0 else Sum(counts[..|counts| - 1]) + counts[|counts| - 1]
  }

  /** Zero bits among the first n bits of the bitmap of group g. */
  ghost function ZeroBits(L: Layout, d: seq<Block>, g: nat, n: nat): nat
    requires L.Ok() && L.Image(d) && g < L.Groups() && n <= 8 * L.blockSize
  {
    if n == 0 then 0 else ZeroBits(L, d, g, n - 1) + if L.BitUsed(d, g, n - 1) then 0 else 1
  }

  ghost function FreeUpTo(L: Layout, d: seq<Block>, g: nat, n: nat): set<nat>
    requires L.Ok() && L.Image(d)
  {
    set b | b in L.FreeSet(d) && 1 <= b && L.GroupOf(b) == g && L.IndexOf(b) < n
  }

  /** One more bit of a bitmap: it stands for at most one more free block. */
  lemma FreeUpToStep(L: Layout, d: seq<Block>, g: nat, i: nat)
    requires L.Ok() && L.Image(d) && L.Padded(d) && g < L.Groups() && i < 8 * L.blockSize
    ensures var b := L.BlockNumber(g, i);
            && b !in FreeUpTo(L, d, g, i)
            && FreeUpTo(L, d, g, i + 1) == FreeUpTo(L, d, g, i) + if L.BitUsed(d, g, i) then {} else {b}
  {
    var b := L.BlockNumber(g, i);
    forall c: nat ensures c in FreeUpTo(L, d, g, i + 1) <==> c in FreeUpTo(L, d, g, i) || (c == b && !L.BitUsed(d, g, i)) {
      L.FreeSetMember(d, c);
      if 1 <= c {
        L.NumberOfBlock(c);
      }
      if !L.BitUsed(d, g, i) {
        assert i < L.blocksPerGroup && b < L.blockCount;
      }
      if c == b && i < L.blocksPerGroup {
        L.BlockOfNumber(g, i);
      }
    }
    L.NumberOfBlock(b);
  }

  lemma {:induction false} ZeroBitsCount(L: Layout, d: seq<Block>, g: nat, n: nat)
    requires L.Ok() && L.Image(d) && L.Padded(d) && g < L.Groups() && n <= 8 * L.blockSize
    ensures |FreeUpTo(L, d, g, n)| == ZeroBits(L, d, g, n)
  {
    hide Layout.Padded, Layout.FreeSet;
    if n == 0 {
      assert FreeUpTo(L, d, g, 0) == {};
    } else {
      ZeroBitsCount(L, d, g, n - 1);
      FreeUpToStep(L, d, g, n - 1);
    }
  }

  function InGroupsBelow(L: Layout, s: set<nat>, n: nat): set<nat>
    requires 0 < L.blocksPerGroup
  {
    set b | b in s && 1 <= b && L.GroupOf(b) < n
  }

  lemma {:induction false} SumOfGroups(L: Layout, s: set<nat>, counts: seq<nat>)
    requires 0 < L.blocksPerGroup && forall g :: 0 <= g < |counts| ==> counts[g] == |L.InGroup(s, g)|
    ensures Sum(counts) == |InGroupsBelow(L, s, |counts|)|
    decreases |counts|
  {
    if counts == [] {
      assert InGroupsBelow(L, s, 0) == {};
    } else {
      var n := |counts| - 1;
      SumOfGroups(L, s, counts[..n]);
      assert InGroupsBelow(L, s, n + 1) == InGroupsBelow(L, s, n) + L.InGroup(s, n);
      assert InGroupsBelow(L, s, n) !! L.InGroup(s, n);
    }
  }

  /**
   In every sound state each group counter is the number of zero bits of its bitmap, and the superblock counter is
   their sum.
   */
  lemma CountersAgree(L: Layout, d: seq<Block>, groupFree: seq<nat>, superFree: nat)
    requires L.Sound(d, groupFree, superFree)
    ensures |groupFree| == L.Groups() && forall g :: 0 <= g < L.Groups() ==> groupFree[g] == ZeroBits(L, d, g, 8 * L.blockSize)
    ensures superFree == Sum(groupFree)
  {
    hide Layout.FreeSet;
    forall g | 0 <= g < L.Groups() ensures groupFree[g] == ZeroBits(L, d, g, 8 * L.blockSize) {
      ZeroBitsCount(L, d, g, 8 * L.blockSize);
      forall b | b in L.FreeIn(d, g) ensures L.IndexOf(b) < 8 * L.blockSize {
        L.NumberOfBlock(b);
      }
      assert FreeUpTo(L, d, g, 8 * L.blockSize) == L.FreeIn(d, g);
    }
    SumOfGroups(L, L.FreeSet(d), groupFree);
    forall b | b in L.FreeSet(d) ensures 1 <= b && L.GroupOf(b) < |groupFree| {
      L.FreeSetMember(d, b);
    }
    assert InGroupsBelow(L, L.FreeSet(d), |groupFree|) == L.FreeSet(d);
  }
}
