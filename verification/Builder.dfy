/** Growing a file: allocation of a whole block tree, level by level. */
module Builder {
  import opened Codec
  import opened Arith
  import opened Layouts
  import opened Partitions
  import opened Trees
  import Allocator

  function Min(a: nat, b: nat): nat { if a <= b then a else b }

  /** From f0 to f1 the lowest blocks were taken. */
  predicate Lowest(f0: set<nat>, f1: set<nat>) {
    f1 <= f0 && Precedes(f0 - f1, f1)
  }

  /**
   From d0 with free set f0 to d1 with free set f1, the lowest free blocks were taken, and only they and bitmaps have
   changed.
   */
  ghost predicate Grows(L: Layout, d0: seq<Block>, f0: set<nat>, d1: seq<Block>, f1: set<nat>) {
    && f1 <= f0 && Lowest(f0, f1)
    && |d0| == |d1|
    && forall b :: 0 <= b < |d0| && b !in L.bitmaps && !(b in f0 && b !in f1) ==> d1[b] == d0[b]
  }

  /** Image d stores the tree t, which was allocated while the free set shrank from f0 to f1. */
  ghost predicate Built(e: nat, d: seq<Block>, f0: set<nat>, f1: set<nat>, level: nat, m: nat, t: Tree)
    requires e > 0
  {
    && Rep(d, t) && Apart(t) && Rising(t) && Shape(e, level, t)
    && Blocks(t) == f0 - f1
    && |Leaves(t)| == m
    && NodeCount(t) == Meta(e, level, m)
  }

  /** The trees ts built so far for the first |ts| slots of a pointer block that is to get `want` of m leaves. */
  ghost predicate Partial(e: nat, d: seq<Block>, f0: set<nat>, f1: set<nat>, level: nat, m: nat, want: nat,
                          ts: seq<Tree>, slots: seq<Word>)
    requires e > 0
  {
    var n := |LeavesAll(ts)|;
    && |ts| <= e && |slots| == e
    && (forall i :: 0 <= i < |ts| ==> slots[i] == ts[i].block)
    && RepAll(d, ts) && ApartAll(ts) && RisingAll(ts)
    && BlocksAll(ts) == f0 - f1
    && n <= want
    && NodeCountAll(ts) + Forest(e, level, want - n) == Forest(e, level, want)
    && (ts != [] ==> FullAll(e, level, ts[..|ts| - 1]) && Shape(e, level, ts[|ts| - 1]))
    && (n == m || FullAll(e, level, ts))
  }

  /** The listed blocks hold what they held. */
  ghost predicate Undisturbed(d0: seq<Block>, d1: seq<Block>, ls: seq<nat>) {
    |d1| == |d0| && forall b :: b in ls ==> b < |d0| && d1[b] == d0[b]
  }

  /** Blocks that were not free, and hold no bitmaps, are undisturbed by growth. */
  lemma GrowsPast(L: Layout, d0: seq<Block>, f0: set<nat>, d1: seq<Block>, f1: set<nat>, ls: seq<nat>)
    requires Grows(L, d0, f0, d1, f1) && forall b :: b in ls ==> b < |d0| && b !in L.bitmaps && (b in f1 || b !in f0)
    ensures Undisturbed(d0, d1, ls)
  {
    hide Lowest;
  }

  lemma UndisturbedJoin(d0: seq<Block>, d1: seq<Block>, d2: seq<Block>, ls: seq<nat>, ms: seq<nat>)
    requires Undisturbed(d0, d1, ls) && Undisturbed(d1, d2, ls) && Undisturbed(d0, d1, ms) && Undisturbed(d1, d2, ms)
    ensures Undisturbed(d0, d2, ls + ms)
  {
  }

  /** The leaves of trees already built, and of the next one, through the growth that builds it. */
  lemma LeavesUndisturbed(L: Layout, d0: seq<Block>, f0: set<nat>, d1: seq<Block>, f1: set<nat>, d2: seq<Block>,
                          f2: set<nat>, taken: set<nat>, ls: seq<nat>, ms: seq<nat>)
    requires Grows(L, d0, f0, d1, f1) && Grows(L, d1, f1, d2, f2) && taken !! f1
    requires forall b :: b in taken || b in f0 ==> b !in L.bitmaps
    requires ToSet(ls) <= taken && ToSet(ms) <= f1 - f2
    requires Undisturbed(d0, d1, ls) && Undisturbed(d1, d2, ms)
    ensures Undisturbed(d0, d2, ls + ms)
  {
    hide Lowest;
    forall b | b in ls ensures b in taken {
      assert b in ToSet(ls);
    }
    forall b | b in ms ensures b in f1 {
      assert b in ToSet(ms);
    }
    GrowsPast(L, d1, f1, d2, f2, ls);
    GrowsPast(L, d0, f0, d1, f1, ms);
    UndisturbedJoin(d0, d1, d2, ls, ms);
  }

  /** How many of m blocks go into the next subtree. */
  lemma Chunk(e: nat, level: nat, m: nat, ts: seq<Tree>)
    requires 0 < e && |ts| < e && FullAll(e, level, ts) && |LeavesAll(ts)| < m
    ensures var n, cap, want := |LeavesAll(ts)|, Cap(e, level), Min(m, Cap(e, level + 1));
            n < want && 0 < Min(m - n, cap) == Min(want - n, cap) && n + Min(m - n, cap) <= want
  {
    var cap := Cap(e, level);
    FullAllLeaves(e, level, ts);
    MulSucc(|ts|, cap);
    MulMonotone(|ts| + 1, e, cap);
  }

  /** Trees already taken from the free set are not disturbed by later growth. */
  lemma TakenFrame(L: Layout, d1: seq<Block>, f1: set<nat>, d2: seq<Block>, f2: set<nat>, f0: set<nat>, ts: seq<Tree>)
    requires Grows(L, d1, f1, d2, f2)
    requires BlocksAll(ts) <= f0 - f1 && forall b :: b in f0 ==> b !in L.bitmaps
    ensures RepAll(d1, ts) ==> RepAll(d2, ts)
    ensures EndedAll(d1, ts) ==> EndedAll(d2, ts)
  {
    BlocksAllSplit(ts);
    RepAllFrame(d1, d2, ts);
  }

  /** What was taken first comes before what is taken next. */
  lemma PrecedesNext(f0: set<nat>, f1: set<nat>, f2: set<nat>)
    requires Lowest(f0, f1)
    ensures Precedes(f0 - f1, f1 - f2)
  {
  }

  lemma PartialStep(L: Layout, e: nat, d1: seq<Block>, d2: seq<Block>, f0: set<nat>, f1: set<nat>, f2: set<nat>,
                    level: nat, m: nat, want: nat, ts: seq<Tree>, slots: seq<Word>, t: Tree, c: nat)
    requires e > 0 && want == Min(m, Cap(e, level + 1)) && Partial(e, d1, f0, f1, level, m, want, ts, slots)
    requires |ts| < e && |LeavesAll(ts)| < m && t.block < 0x1_0000_0000
    requires f1 <= f0 && Lowest(f0, f1) && Grows(L, d1, f1, d2, f2) && forall b :: b in f0 ==> b !in L.bitmaps
    requires c == Min(m - |LeavesAll(ts)|, Cap(e, level)) && Built(e, d2, f1, f2, level, c, t)
    ensures Partial(e, d2, f0, f2, level, m, want, ts + [t], slots[|ts| := t.block])
  {
    hide Rep, RepAll, Rising, RisingAll, Apart, ApartAll, EndedAll, Blocks, BlocksAll, Leaves, LeavesAll, NodeCount, NodeCountAll;
    Chunk(e, level, m, ts);
    PrecedesNext(f0, f1, f2);
    Append(d2, ts, t);
    FullAppend(e, level, ts, t);
    assert (ts + [t])[..|ts|] == ts;
    TakenFrame(L, d1, f1, d2, f2, f0, ts);
    if c < m - |LeavesAll(ts)| {
      ShapeLeaves(e, level, t);
    }
  }

  lemma BuiltFacts(e: nat, d: seq<Block>, f0: set<nat>, f1: set<nat>, level: nat, m: nat, t: Tree)
    requires e > 0 && Built(e, d, f0, f1, level, m, t)
    ensures |Leaves(t)| == m && NodeCount(t) == Meta(e, level, m) && Shape(e, level, t)
    ensures m == Cap(e, level) ==> Full(e, level, t)
  {
    ShapeLeaves(e, level, t);
  }

  /** How many blocks are left while a tree is being built. */
  lemma PartialCount(e: nat, d: seq<Block>, f0: set<nat>, f1: set<nat>, level: nat, m: nat, want: nat,
                     ts: seq<Tree>, slots: seq<Word>)
    requires e > 0 && f1 <= f0 && Partial(e, d, f0, f1, level, m, want, ts, slots)
    ensures |f0| == |f1| + |LeavesAll(ts)| + NodeCountAll(ts)
  {
    ApartAllFacts(ts);
    assert f0 == f1 + BlocksAll(ts);
  }

  /** A finished pointer block has as many leaves below it as were asked for and fit. */
  lemma PartialSize(e: nat, d: seq<Block>, f0: set<nat>, f1: set<nat>, level: nat, m: nat, want: nat,
                    ts: seq<Tree>, slots: seq<Word>)
    requires e > 0 && want == Min(m, Cap(e, level + 1)) && Partial(e, d, f0, f1, level, m, want, ts, slots)
    requires |ts| == e || |LeavesAll(ts)| == m
    ensures |LeavesAll(ts)| == want
  {
    if FullAll(e, level, ts) {
      FullAllLeaves(e, level, ts);
    }
  }

  /** Writing the slots of a pointer block turns the forest they point to into a tree. */
  lemma NodeStored(d: seq<Block>, b: nat, ts: seq<Tree>, slots: seq<Word>)
    requires b < |d| && RepAll(d, ts) && b !in NodesAll(ts)
    requires |ts| <= |slots| && forall i :: 0 <= i < |ts| ==> slots[i] == ts[i].block
    ensures Rep(d[b := ToBytes(slots)], Node(b, ts))
    ensures EndedAll(d, ts) && (forall i :: |ts| <= i < |slots| ==> slots[i] == 0) ==> Ended(d[b := ToBytes(slots)], Node(b, ts))
  {
    var d' := d[b := ToBytes(slots)];
    assert ToWords(d'[b]) == slots by {
      WordsOfBytes(slots);
    }
    RepAllFrame(d, d', ts);
  }

  /** A node at height level + 1 over the finished subtrees. */
  lemma PartialDone(e: nat, d2: seq<Block>, d3: seq<Block>, f0: set<nat>, f1: set<nat>, f2: set<nat>,
                    level: nat, m: nat, n: nat, ts: seq<Tree>, slots: seq<Word>, b: nat)
    requires e > 0 && Partial(e, d2, f1, f2, level, m, n, ts, slots) && n == |LeavesAll(ts)| > 0
    requires b in f0 && f1 == f0 - {b} && f2 <= f1 && b < |d2| && Lowest(f0, f1)
    requires d3 == d2[b := ToBytes(slots)]
    ensures Built(e, d3, f0, f2, level + 1, n, Node(b, ts))
    ensures EndedAll(d2, ts) && (forall i :: |ts| <= i < |slots| ==> slots[i] == 0) ==> Ended(d3, Node(b, ts))
  {
    hide Rep, RepAll, Ended, EndedAll, ToWords, ToBytes;
    var t := Node(b, ts);
    assert LeavesAll([]) == [];
    assert Blocks(t) == f0 - f2;
    assert f0 - f1 == {b};
    assert Precedes({b}, BlocksAll(ts));
    assert Shape(e, level + 1, t);
    assert NodeCount(t) == Meta(e, level + 1, n) by {
      assert Forest(e, level, 0) == 0;
    }
    BlocksAllSplit(ts);
    NodeStored(d2, b, ts, slots);
  }

  /** Writing a block that holds no bitmap leaves the allocator's state alone. */
  lemma SoundFrame(L: Layout, d: seq<Block>, b: nat, data: Block, groupFree: seq<nat>, superFree: nat)
    requires L.Sound(d, groupFree, superFree) && b < L.blockCount && b !in L.bitmaps && |data| == L.blockSize
    ensures L.Sound(d[b := data], groupFree, superFree) && L.FreeSet(d[b := data]) == L.FreeSet(d)
  {
    L.FreeSetFrame(d, d[b := data]);
  }

  /** Overwrites a block that holds no bitmap. */
  method WritePlain(p: Partition, b: nat, data: Block)
    requires p.Valid() && p.L.IsBlock(b) && b !in p.L.bitmaps && |data| == p.L.blockSize
    modifies p.disk
    ensures p.Valid() && p.Free() == old(p.Free())
    ensures p.disk[..] == old(p.disk[..])[b := data]
  {
    SoundFrame(p.L, p.disk[..], b, data, p.groupFree, p.superFree);
    var status := p.WriteBlock(b, data);
  }

  lemma GrowsTrans(L: Layout, d0: seq<Block>, f0: set<nat>, d1: seq<Block>, f1: set<nat>, d2: seq<Block>, f2: set<nat>)
    requires Grows(L, d0, f0, d1, f1) && Grows(L, d1, f1, d2, f2)
    ensures Grows(L, d0, f0, d2, f2)
  {
    assert f0 - f2 == (f0 - f1) + (f1 - f2);
  }

  lemma GrowsByOne(L: Layout, d: seq<Block>, b: nat)
    requires L.Ok() && L.Image(d) && L.IsBlock(b) && L.FreeSet(L.MarkUsed(d, b)) == L.FreeSet(d) - {b}
    requires forall c :: c in L.FreeSet(d) ==> b <= c
    ensures Grows(L, d, L.FreeSet(d), L.MarkUsed(d, b), L.FreeSet(L.MarkUsed(d, b)))
    ensures b !in L.bitmaps ==> b < |d| && L.MarkUsed(d, b)[b] == d[b]
  {
    hide Layout.FreeSet;
    L.NumberOfBlock(b);
    assert L.bitmaps[L.GroupOf(b)] in L.bitmaps;
  }

  /** One block taken from the free set and no more: a tree of height 0. */
  method AllocateLeaf(p: Partition) returns (b: Word)
    requires p.Valid()
    modifies p`groupFree, p`superFree, p.disk
    ensures p.Valid()
    ensures Grows(p.L, old(p.disk[..]), old(p.Free()), p.disk[..], p.Free())
    ensures b == 0 <==> old(p.Free()) == {}
    ensures b == 0 ==> p.disk[..] == old(p.disk[..])
    ensures b != 0 ==> p.L.IsBlock(b) && b in old(p.Free()) && p.Free() == old(p.Free()) - {b as nat}
    ensures b != 0 ==> b < p.disk.Length && b !in p.L.bitmaps && p.disk[b] == old(p.disk[b])
  {
    NotBitmaps(p);
    b := Allocator.AllocateBlock(p);
    if b != 0 {
      GrowsByOne(p.L, old(p.disk[..]), b);
    }
  }

  /** What the allocation of one tree did, as a relation between the images and free sets before and after. */
  ghost predicate Outcome(L: Layout, e: nat, cleared: bool, d0: seq<Block>, f0: set<nat>, d1: seq<Block>, f1: set<nat>,
                          level: nat, m: nat, target: nat, written: nat, t: Tree)
    requires e > 0
  {
    var want := Min(m, Cap(e, level));
    && Grows(L, d0, f0, d1, f1)
    && (f0 == {} ==> written == 0)
    && if |f0| >= want + Meta(e, level, want) then
         && written == want && target == t.block
         && Built(e, d1, f0, f1, level, want, t) && Undisturbed(d0, d1, Leaves(t))
         && (cleared ==> Ended(d1, t))
       else
         written < want && f1 == {}
  }

  /** State of the loop over the slots of a pointer block: still succeeding, or out of space. */
  ghost predicate Progress(L: Layout, e: nat, cleared: bool, d0: seq<Block>, f0: set<nat>, d1: seq<Block>, f1: set<nat>,
                           level: nat, m: nat, want: nat, written: nat, j: nat, slots: seq<Word>, ts: seq<Tree>,
                           good: bool)
    requires e > 0
  {
    && Grows(L, d0, f0, d1, f1)
    && |slots| == e && j <= e
    && if good then
         && |ts| == j && written == |LeavesAll(ts)|
         && Partial(e, d1, f0, f1, level, m, want, ts, slots) && Undisturbed(d0, d1, LeavesAll(ts))
         && (cleared ==> EndedAll(d1, ts) && forall i :: j <= i < e ==> slots[i] == 0)
       else
         && written < want && f1 == {}
         && |f0| < want + Forest(e, level, want)
  }

  lemma NoSpace(L: Layout, e: nat, cleared: bool, d: seq<Block>, level: nat, m: nat, t: Tree)
    requires e > 0 && m > 0
    ensures Outcome(L, e, cleared, d, {}, d, {}, level, m, 0, 0, t)
  {
  }

  lemma ProgressStart(L: Layout, e: nat, cleared: bool, d: seq<Block>, f: set<nat>, level: nat, m: nat, want: nat,
                      slots: seq<Word>)
    requires e > 0 && |slots| == e && (cleared ==> forall i :: 0 <= i < e ==> slots[i] == 0)
    ensures Progress(L, e, cleared, d, f, d, f, level, m, want, 0, 0, slots, [], true)
  {
  }

  /** Running out of space below a single indirect block abandons it. */
  lemma ProgressAbandoned(L: Layout, e: nat, cleared: bool, d: seq<Block>, f: set<nat>, d0: seq<Block>, f0: set<nat>,
                          d1: seq<Block>, f1: set<nat>, level: nat, m: nat, want: nat, written: nat, j: nat,
                          slots: seq<Word>, ts: seq<Tree>, b: nat, t: Tree)
    requires e > 0 && want == Min(m, Cap(e, level + 1))
    requires b in f && f0 == f - {b} && Grows(L, d, f, d0, f0)
    requires Progress(L, e, cleared, d0, f0, d1, f1, level, m, want, written, j, slots, ts, false)
    ensures Outcome(L, e, cleared, d, f, d1, f1, level + 1, m, b, 0, t)
  {
    GrowsTrans(L, d, f, d0, f0, d1, f1);
    assert |f| == |f0| + 1;
  }

  lemma ProgressStep(L: Layout, e: nat, cleared: bool, d0: seq<Block>, f0: set<nat>, d1: seq<Block>, f1: set<nat>,
                     d2: seq<Block>, f2: set<nat>, level: nat, m: nat, want: nat, written: nat, j: nat,
                     slots: seq<Word>, ts: seq<Tree>, good: bool, child: Word, n: nat, kid: Tree)
    returns (ts': seq<Tree>, good': bool)
    requires e > 0 && want == Min(m, Cap(e, level + 1)) && forall b :: b in f0 ==> b !in L.bitmaps
    requires Progress(L, e, cleared, d0, f0, d1, f1, level, m, want, written, j, slots, ts, good)
    requires j < e && written < m
    requires Outcome(L, e, cleared, d1, f1, d2, f2, level, m - written, child, n, kid)
    ensures Progress(L, e, cleared, d0, f0, d2, f2, level, m, want, written + n, j + 1, slots[j := child], ts', good')
    ensures n == 0 ==> !good'
    ensures written + n <= m
  {
    GrowsTrans(L, d0, f0, d1, f1, d2, f2);
    ts', good' := ts, false;
    if good {
      var c := Min(m - written, Cap(e, level));
      Chunk(e, level, m, ts);
      if |f1| >= c + Meta(e, level, c) {
        ts', good' := ts + [kid], true;
        PartialStep(L, e, d1, d2, f0, f1, f2, level, m, want, ts, slots, kid, c);
        Append(d2, ts, kid);
        BlocksAllSplit(ts);
        BlocksSplit(kid);
        LeavesUndisturbed(L, d0, f0, d1, f1, d2, f2, BlocksAll(ts), LeavesAll(ts), Leaves(kid));
        if cleared {
          TakenFrame(L, d1, f1, d2, f2, f0, ts);
        }
      } else {
        PartialCount(e, d1, f0, f1, level, m, want, ts, slots);
      }
    }
  }

  /** Writing a pointer block leaves the leaves below it alone. */
  lemma RootUndisturbed(L: Layout, d: seq<Block>, f: set<nat>, d0: seq<Block>, f0: set<nat>, d1: seq<Block>,
                        d2: seq<Block>, b: nat, data: Block, ls: seq<nat>)
    requires Grows(L, d, f, d0, f0) && f0 == f - {b} && b < |d1| && d2 == d1[b := data]
    requires ToSet(ls) <= f0 && Undisturbed(d0, d1, ls) && forall c :: c in f ==> c !in L.bitmaps
    ensures Undisturbed(d, d2, ls)
  {
    hide Lowest;
    forall c | c in ls ensures c in f0 {
      assert c in ToSet(ls);
    }
    GrowsPast(L, d, f, d0, f0, ls);
  }

  lemma ProgressDone(L: Layout, e: nat, cleared: bool, d: seq<Block>, f: set<nat>, d0: seq<Block>, f0: set<nat>,
                     d1: seq<Block>, f1: set<nat>, d2: seq<Block>, level: nat, m: nat, want: nat,
                     written: nat, j: nat, slots: seq<Word>, ts: seq<Tree>, good: bool, b: nat)
    returns (t: Tree)
    requires e > 0 && m > 0 && want == Min(m, Cap(e, level + 1))
    requires b in f && f0 == f - {b} && b < |d| && Grows(L, d, f, d0, f0)
    requires Progress(L, e, cleared, d0, f0, d1, f1, level, m, want, written, j, slots, ts, good)
    requires j == e || written == m
    requires d2 == d1[b := ToBytes(slots)] && forall c :: c in f ==> c !in L.bitmaps
    ensures Outcome(L, e, cleared, d, f, d2, f1, level + 1, m, b, written, t)
  {
    GrowsTrans(L, d, f, d0, f0, d1, f1);
    t := Node(b, ts);
    assert |f| == |f0| + 1;
    if good {
      PartialSize(e, d1, f0, f1, level, m, want, ts, slots);
      PartialCount(e, d1, f0, f1, level, m, want, ts, slots);
      PartialDone(e, d1, d2, f, f0, f1, level, m, want, ts, slots, b);
      BlocksAllSplit(ts);
      RootUndisturbed(L, d, f, d0, f0, d1, d2, b, ToBytes(slots), LeavesAll(ts));
      assert Forest(e, level, 0) == 0;
    }
  }

  /**
   The loop that fills the slots of a pointer block with subtrees of the given height until m data blocks are placed.
   Running out of space directly below a single indirect block abandons that block.
   */
  method FillSlots(p: Partition, level: nat, m: nat, buffer: seq<Word>)
    returns (slots: seq<Word>, written: nat, abandoned: bool, ghost j: nat, ghost ts: seq<Tree>, ghost good: bool)
    requires p.Valid() && m > 0 && |buffer| == p.L.Entries()
    requires p.cleared ==> forall i :: 0 <= i < |buffer| ==> buffer[i] == 0
    modifies p`groupFree, p`superFree, p.disk
    ensures p.Valid() && |slots| == p.L.Entries()
    ensures Progress(p.L, p.L.Entries(), p.cleared, old(p.disk[..]), old(p.Free()), p.disk[..], p.Free(),
                     level, m, Min(m, Cap(p.L.Entries(), level + 1)), written, j, slots, ts, good)
    ensures if abandoned then !good else j == p.L.Entries() || written == m
    decreases level, 1
  {
    hide Progress, Outcome, Layout.Ok, Layout.Image, Layout.Sound, Layout.FreeSet;
    p.L.EntriesPositive();
    ghost var d, f, e := p.disk[..], p.Free(), p.L.Entries();
    ghost var want: nat := Min(m, Cap(e, level + 1));
    NotBitmaps(p);
    slots, written, ts, good := buffer, 0, [], true;
    ProgressStart(p.L, e, p.cleared, d, f, level, m, want, slots);
    var i: nat := 0;
    while i < |slots| && written != m
      invariant p.Valid() && written <= m && i <= |slots| == e
      invariant Progress(p.L, e, p.cleared, d, f, p.disk[..], p.Free(), level, m, want, written, i, slots, ts, good)
    {
      ghost var d1, f1 := p.disk[..], p.Free();
      var child: Word, n: nat;
      ghost var kid: Tree;
      child, n, kid := BuildLevel(p, level, m - written);
      ts, good := ProgressStep(p.L, e, p.cleared, d, f, d1, f1, p.disk[..], p.Free(), level, m, want,
                               written, i, slots, ts, good, child, n, kid);
      slots := slots[i := child];
      written := written + n;
      i := i + 1;
      if level == 0 && n == 0 {
        return slots, written, true, i, ts, good;
      }
    }
    abandoned, j := false, i;
  }

  /**
   The functions that allocate a single, double and triple indirect block, by height; at height 0, one data block.
   Returns the new root pointer and the number of data blocks below it, out of the m asked for.
   */
  method BuildLevel(p: Partition, level: nat, m: nat) returns (target: Word, written: nat, ghost t: Tree)
    requires p.Valid() && m > 0
    modifies p`groupFree, p`superFree, p.disk
    ensures p.Valid()
    ensures Outcome(p.L, p.L.Entries(), p.cleared, old(p.disk[..]), old(p.Free()), p.disk[..], p.Free(),
                    level, m, target, written, t)
    decreases level, 0
  {
    hide Progress, Outcome, Layout.Ok, Layout.Image, Layout.Sound, Layout.FreeSet;
    p.L.EntriesPositive();
    ghost var d, f, e := p.disk[..], p.Free(), p.L.Entries();
    NotBitmaps(p);
    target := AllocateLeaf(p);
    written, t := 0, Leaf(target);
    if level == 0 {
      if target != 0 { written := 1; }
      LeafOutcome(p.L, e, p.cleared, d, f, p.disk[..], p.Free(), m, target, written);
      return;
    }
    if target == 0 {
      NoSpace(p.L, e, p.cleared, d, level, m, t);
      return;
    }
    ghost var d0, f0, want: nat := p.disk[..], p.Free(), Min(m, Cap(e, level));
    var buffer: seq<Word> := p.Malloc();
    var slots: seq<Word>, n: nat, abandoned: bool;
    ghost var j: nat, ts: seq<Tree>, good: bool;
    slots, n, abandoned, j, ts, good := FillSlots(p, level - 1, m, buffer);
    ghost var d1, f1 := p.disk[..], p.Free();
    if abandoned {
      ProgressAbandoned(p.L, e, p.cleared, d, f, d0, f0, d1, f1, level - 1, m, want, n, j, slots, ts, target, t);
      return;
    }
    WritePlain(p, target, ToBytes(slots));
    written := n;
    t := ProgressDone(p.L, e, p.cleared, d, f, d0, f0, d1, f1, p.disk[..], level - 1, m, want, n, j, slots, ts, good, target);
  }

  lemma NotBitmaps(p: Partition)
    requires p.Valid()
    ensures forall b :: b in p.Free() ==> b !in p.L.bitmaps
  {
  }

  lemma LeafOutcome(L: Layout, e: nat, cleared: bool, d0: seq<Block>, f0: set<nat>, d1: seq<Block>, f1: set<nat>,
                    m: nat, b: nat, written: nat)
    requires e > 0 && m > 0 && Grows(L, d0, f0, d1, f1)
    requires b == 0 ==> f0 == {} && written == 0
    requires b != 0 ==> b in f0 && f1 == f0 - {b} && written == 1 && b < |d0| == |d1| && d1[b] == d0[b]
    ensures Outcome(L, e, cleared, d0, f0, d1, f1, 0, m, b, written, Leaf(b))
  {
    if b != 0 {
      assert f0 - f1 == {b};
    }
  }
}
