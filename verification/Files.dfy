/** A file is the forest below the 15 i_block entries of its inode: 12 data blocks, then trees of height 1, 2 and 3. */
module Files {
  import opened Codec
  import opened Layouts
  import opened Trees
  import opened Builder
  import opened Partitions

  /** Height of the tree below entry i of i_block. */
  function Height(i: nat): nat {
    if i < 12 then 0 else i - 11
  }

  /** The file fills its trees from the left: every tree but the last has no unused slot. */
  ghost predicate FileShape(e: nat, file: seq<Tree>) {
    && |file| <= 15
    && (forall i :: 0 <= i < |file| ==> Shape(e, Height(i), file[i]))
    && (forall i :: 0 <= i < |file| - 1 ==> Full(e, Height(i), file[i]))
  }

  ghost predicate FileFull(e: nat, file: seq<Tree>) {
    |file| <= 15 && forall i :: 0 <= i < |file| ==> Full(e, Height(i), file[i])
  }

  /** The image d and the inode entries `iblock` store exactly the given file. */
  ghost predicate Maps(d: seq<Block>, iblock: seq<Word>, file: seq<Tree>) {
    && |iblock| == 15 && |file| <= 15
    && (forall i :: 0 <= i < 15 ==> iblock[i] == if i < |file| then file[i].block else 0)
    && RepAll(d, file)
  }

  /** Data blocks that fit below entries i and up. */
  function Room(e: nat, i: nat): nat
    decreases 15 - i
  {
    if i >= 15 then 0 else Cap(e, Height(i)) + Room(e, i + 1)
  }

  /** Pointer blocks needed to place r data blocks below entries i and up. */
  function FileMeta(e: nat, i: nat, r: nat): nat
    requires e > 0
    decreases 15 - i
  {
    if i >= 15 || r == 0 then 0
    else
      var c := Min(r, Cap(e, Height(i)));
      Meta(e, Height(i), c) + FileMeta(e, i + 1, r - c)
  }

  /**
   The trees of `file` behind those of `base` took the blocks from f0 to f1, each pointer block before what it points
   to.
   */
  predicate Continues(base: seq<Tree>, file: seq<Tree>, f0: set<nat>, f1: set<nat>) {
    base <= file && BlocksAll(file[|base|..]) == f0 - f1 && RisingAll(file[|base|..])
  }

  lemma ContinuesStep(base: seq<Tree>, file: seq<Tree>, f0: set<nat>, f1: set<nat>, f2: set<nat>, t: Tree)
    requires Continues(base, file, f0, f1) && Lowest(f0, f1) && f2 <= f1 && Blocks(t) == f1 - f2 && Rising(t)
    ensures Continues(base, file + [t], f0, f2)
  {
    assert (file + [t])[|base|..] == file[|base|..] + [t];
    Append([], file[|base|..], t);
  }

  /**
   What an attempt to place n more data blocks below entries i and up leaves of the free set f0: without its lowest
   blocks, as many as there is room for and their pointer blocks call for, or nothing.
   */
  predicate Spent(e: nat, f0: set<nat>, f1: set<nat>, i: nat, n: nat)
    requires e > 0
  {
    var c := Min(n, Room(e, i));
    && Lowest(f0, f1)
    && if |f0| < c + FileMeta(e, i, c) then f1 == {} else |f1| == |f0| - c - FileMeta(e, i, c)
  }

  /** Blocks there is no room for call for no pointer blocks. */
  lemma {:induction false} MetaCapped(e: nat, i: nat, r: nat)
    requires e > 0
    ensures FileMeta(e, i, r) == FileMeta(e, i, Min(r, Room(e, i)))
    decreases 15 - i
  {
    hide Meta, Cap;
    if i < 15 && r > 0 {
      EntryShare(e, i, r);
      var c, m := Min(r, Cap(e, Height(i))), Min(r, Room(e, i));
      EntryShare(e, i, m);
      MetaCapped(e, i + 1, r - c);
    }
  }

  /** What growth of `base` to `file` by `placed` data blocks did to image and free set. */
  ghost predicate Grown(L: Layout, e: nat, cleared: bool, d0: seq<Block>, f0: set<nat>, d1: seq<Block>, f1: set<nat>,
                        base: seq<Tree>, file: seq<Tree>, iblock: seq<Word>, placed: nat)
  {
    && Grows(L, d0, f0, d1, f1)
    && Maps(d1, iblock, file) && FileShape(e, file) && ApartAll(file)
    && BlocksAll(file) == BlocksAll(base) + (f0 - f1)
    && LeavesAll(base) <= LeavesAll(file) && |LeavesAll(file)| == |LeavesAll(base)| + placed
    && Continues(base, file, f0, f1) && Undisturbed(d0, d1, LeavesAll(file))
    && (cleared && EndedAll(d0, base) ==> EndedAll(d1, file))
  }

  /** State of growth towards n more blocks: every entry before |file| is in full use, or space has run out. */
  ghost predicate Growing(L: Layout, e: nat, cleared: bool, d0: seq<Block>, f0: set<nat>, d1: seq<Block>, f1: set<nat>,
                          base: seq<Tree>, file: seq<Tree>, iblock: seq<Word>, n: nat, placed: nat, good: bool)
    requires e > 0
  {
    if good then
      && Grown(L, e, cleared, d0, f0, d1, f1, base, file, iblock, placed)
      && placed <= n && (placed < n ==> FileFull(e, file))
      && NodeCountAll(file) + FileMeta(e, |file|, n - placed) == NodeCountAll(base) + FileMeta(e, |base|, n)
      && (placed < n ==> Room(e, |file|) + placed == Room(e, |base|))
      && (placed == n ==> n <= Room(e, |base|))
    else
      && Grows(L, d0, f0, d1, f1) && f1 == {} && placed < n
      && var m := Min(n, Room(e, |base|)); |f0| < m + FileMeta(e, |base|, m)
  }

  lemma GrowingStart(L: Layout, e: nat, cleared: bool, d: seq<Block>, f: set<nat>, base: seq<Tree>,
                     iblock: seq<Word>, n: nat)
    requires e > 0 && Maps(d, iblock, base) && FileShape(e, base) && ApartAll(base) && |base| <= 12
    requires forall b :: b in BlocksAll(base) ==> b < |d|
    ensures Growing(L, e, cleared, d, f, d, f, base, base, iblock, n, 0, true)
  {
    BlocksAllSplit(base);
    forall b | b in LeavesAll(base) ensures b < |d| {
      assert b in ToSet(LeavesAll(base));
    }
    assert base[|base|..] == [];
  }

  lemma GrownStep(L: Layout, e: nat, cleared: bool, d0: seq<Block>, f0: set<nat>, d1: seq<Block>, f1: set<nat>,
                  d2: seq<Block>, f2: set<nat>, base: seq<Tree>, file: seq<Tree>, iblock: seq<Word>,
                  placed: nat, c: nat, t: Tree)
    requires e > 0 && |file| < 15 && FileFull(e, file) && t.block < 0x1_0000_0000
    requires Grown(L, e, cleared, d0, f0, d1, f1, base, file, iblock, placed)
    requires BlocksAll(base) !! f0 && forall b :: b in BlocksAll(base) || b in f0 ==> b !in L.bitmaps
    requires Grows(L, d1, f1, d2, f2) && Built(e, d2, f1, f2, Height(|file|), c, t) && (cleared ==> Ended(d2, t))
    requires Undisturbed(d1, d2, Leaves(t))
    ensures Grown(L, e, cleared, d0, f0, d2, f2, base, file + [t], iblock[|file| := t.block], placed + c)
  {
    hide Lowest, Precedes, Rising, RisingAll, Undisturbed, Rep, RepAll, Apart, ApartAll, Ended, EndedAll, Blocks, BlocksAll, Leaves,
         LeavesAll, Continues, NodeCount;
    GrowsTrans(L, d0, f0, d1, f1, d2, f2);
    BlocksAllSplit(file);
    BlocksSplit(t);
    RepAllFrame(d1, d2, file);
    Append(d2, file, t);
    ContinuesStep(base, file, f0, f1, f2, t);
    LeavesUndisturbed(L, d0, f0, d1, f1, d2, f2, BlocksAll(file), LeavesAll(file), Leaves(t));
    assert forall i :: 0 <= i < |file| + 1 ==> (file + [t])[i] == if i < |file| then file[i] else t;
    forall i | 0 <= i < |file| ensures Shape(e, Height(i), file[i]) {
      FullIsShape(e, Height(i), file[i]);
    }
  }

  /** What the entry i takes of r data blocks. */
  lemma EntryShare(e: nat, i: nat, r: nat)
    requires e > 0 && i < 15 && r > 0
    ensures var c := Min(r, Cap(e, Height(i)));
            && 0 < c <= r
            && FileMeta(e, i, r) == Meta(e, Height(i), c) + FileMeta(e, i + 1, r - c)
    ensures Room(e, i) == Cap(e, Height(i)) + Room(e, i + 1)
    ensures FileMeta(e, i + 1, 0) == 0
  {
  }

  lemma GrowingPlaced(L: Layout, e: nat, cleared: bool, d0: seq<Block>, f0: set<nat>, d1: seq<Block>, f1: set<nat>,
                      d2: seq<Block>, f2: set<nat>, base: seq<Tree>, file: seq<Tree>, iblock: seq<Word>,
                      n: nat, placed: nat, target: Word, c: nat, t: Tree, i: nat)
    requires e > 0 && i < 15 && i == |file| && placed < n && |iblock| == 15
    requires Growing(L, e, cleared, d0, f0, d1, f1, base, file, iblock, n, placed, true)
    requires BlocksAll(base) !! f0 && forall b :: b in BlocksAll(base) || b in f0 ==> b !in L.bitmaps
    requires c == Min(n - placed, Cap(e, Height(i))) && target == t.block
    requires Grows(L, d1, f1, d2, f2) && Built(e, d2, f1, f2, Height(i), c, t) && (cleared ==> Ended(d2, t))
    requires Undisturbed(d1, d2, Leaves(t))
    ensures Growing(L, e, cleared, d0, f0, d2, f2, base, file + [t], iblock[i := target], n, placed + c, true)
  {
    hide Grown, Grows, Built, FileMeta, Room, Meta, Cap, Shape, Full, ApartAll, Ended;
    EntryShare(e, i, n - placed);
    GrownStep(L, e, cleared, d0, f0, d1, f1, d2, f2, base, file, iblock, placed, c, t);
    Append(d2, file, t);
    BuiltFacts(e, d2, f1, f2, Height(i), c, t);
    assert forall k :: 0 <= k < |file + [t]| ==> (file + [t])[k] == if k < |file| then file[k] else t;
  }

  lemma GrowingStep(L: Layout, e: nat, cleared: bool, d0: seq<Block>, f0: set<nat>, d1: seq<Block>, f1: set<nat>,
                    d2: seq<Block>, f2: set<nat>, base: seq<Tree>, file: seq<Tree>, iblock: seq<Word>,
                    n: nat, placed: nat, good: bool, target: Word, written: nat, t: Tree, i: nat)
    returns (file': seq<Tree>, good': bool)
    requires e > 0 && i < 15 && (good ==> i == |file|) && placed < n && |iblock| == 15
    requires Growing(L, e, cleared, d0, f0, d1, f1, base, file, iblock, n, placed, good)
    requires ApartAll(base) && BlocksAll(base) !! f0 && forall b :: b in BlocksAll(base) || b in f0 ==> b !in L.bitmaps
    requires Outcome(L, e, cleared, d1, f1, d2, f2, Height(i), n - placed, target, written, t)
    ensures placed + written <= n
    ensures good' ==> i + 1 == |file'|
    ensures Growing(L, e, cleared, d0, f0, d2, f2, base, file', iblock[i := target], n, placed + written, good')
    ensures written == 0 ==> !good'
    ensures good && i < 12 && written > 0 ==> good'
  {
    hide Grown, Grows, Built, FileMeta, Room, Meta;
    file', good' := file, false;
    if good {
      var c := Min(n - placed, Cap(e, Height(i)));
      EntryShare(e, i, n - placed);
      MetaCapped(e, |base|, n);
      GrownCount(L, e, cleared, d0, f0, d1, f1, base, file, iblock, placed);
      GrowsTrans(L, d0, f0, d1, f1, d2, f2);
      if |f1| >= c + Meta(e, Height(i), c) {
        file', good' := file + [t], true;
        GrowingPlaced(L, e, cleared, d0, f0, d1, f1, d2, f2, base, file, iblock, n, placed, target, c, t, i);
      }
    } else {
      GrowsTrans(L, d0, f0, d1, f1, d2, f2);
    }
  }

  lemma TakenFrom(L: Layout, d0: seq<Block>, f0: set<nat>, d1: seq<Block>, f1: set<nat>)
    ensures Grows(L, d0, f0, d1, f1) ==> f1 <= f0
  {
    hide Lowest;
  }

  lemma GrownCount(L: Layout, e: nat, cleared: bool, d0: seq<Block>, f0: set<nat>, d1: seq<Block>, f1: set<nat>,
                   base: seq<Tree>, file: seq<Tree>, iblock: seq<Word>, placed: nat)
    requires Grown(L, e, cleared, d0, f0, d1, f1, base, file, iblock, placed)
    requires ApartAll(base) && BlocksAll(base) !! f0
    ensures |f0| + NodeCountAll(base) == |f1| + placed + NodeCountAll(file)
    ensures Grows(L, d0, f0, d1, f1)
  {
    hide Grows, Continues, Undisturbed, Maps, FileShape, EndedAll, ApartAll, BlocksAll, LeavesAll, NodesAll, NodeCountAll;
    TakenFrom(L, d0, f0, d1, f1);
    ApartAllFacts(base);
    ApartAllFacts(file);
    assert f0 == f1 + (f0 - f1);
    assert |BlocksAll(base) + (f0 - f1)| == |BlocksAll(base)| + |f0 - f1|;
  }

  /** The blocks of a file are real blocks in use, and hold neither bitmaps nor inode tables. */
  ghost predicate Owned(L: Layout, free: set<nat>, file: seq<Tree>) {
    forall b :: b in BlocksAll(file) ==> L.IsBlock(b) && !L.Reserved(b) && b !in free
  }

  lemma BaseFacts(p: Partition, iblock: array<Word>, base: seq<Tree>)
    requires p.Valid() && iblock.Length == 15 && Maps(p.disk[..], iblock[..], base) && |base| <= 12
    requires FileShape(p.L.Entries(), base) && Owned(p.L, p.Free(), base)
    ensures BlocksAll(base) !! p.Free() && forall b :: b in BlocksAll(base) || b in p.Free() ==> b !in p.L.bitmaps
    ensures forall b :: b in BlocksAll(base) ==> b < |p.disk[..]|
    ensures forall k :: 0 <= k < 12 ==> (iblock[k] == 0 <==> k >= |base|)
  {
    forall k | 0 <= k < |base| ensures iblock[k] != 0 {
      AllAt(p.disk[..], base, k);
      assert base[k].block in Blocks(base[k]);
      assert iblock[..][k] == base[k].block;
    }
    forall k | |base| <= k < 12 ensures iblock[k] == 0 {
      assert iblock[..][k] == 0;
    }
    NotBitmaps(p);
  }

  /** Growth succeeds exactly when the free blocks cover data and pointer blocks and the entries have room. */
  lemma GrowingDone(L: Layout, e: nat, cleared: bool, d0: seq<Block>, f0: set<nat>, d1: seq<Block>, f1: set<nat>,
                    base: seq<Tree>, file: seq<Tree>, iblock: seq<Word>, n: nat, placed: nat, good: bool)
    requires e > 0 && Growing(L, e, cleared, d0, f0, d1, f1, base, file, iblock, n, placed, good)
    requires placed == n || |file| == 15 || !good
    requires ApartAll(base) && BlocksAll(base) !! f0
    ensures Grows(L, d0, f0, d1, f1)
    ensures placed == n <==> |f0| >= n + FileMeta(e, |base|, n) && n <= Room(e, |base|)
    ensures Spent(e, f0, f1, |base|, n)
    ensures placed == n ==> Grown(L, e, cleared, d0, f0, d1, f1, base, file, iblock, n)
                            && NodeCountAll(file) == NodeCountAll(base) + FileMeta(e, |base|, n)
  {
    hide Grown, Grows, Lowest, FileFull, ApartAll, BlocksAll, NodeCountAll, LeavesAll, Meta, Cap;
    MetaCapped(e, |base|, n);
    GrowsLowest(L, d0, f0, d1, f1, base, file, iblock, e, cleared, placed, good);
    if good {
      GrownCount(L, e, cleared, d0, f0, d1, f1, base, file, iblock, placed);
    }
  }

  lemma GrowsLowest(L: Layout, d0: seq<Block>, f0: set<nat>, d1: seq<Block>, f1: set<nat>, base: seq<Tree>,
                    file: seq<Tree>, iblock: seq<Word>, e: nat, cleared: bool, placed: nat, good: bool)
    requires if good then Grown(L, e, cleared, d0, f0, d1, f1, base, file, iblock, placed) else Grows(L, d0, f0, d1, f1)
    ensures Lowest(f0, f1)
  {
  }

  /** One entry of i_block: allocates the data block or the whole tree below it. */
  method GrowEntry(p: Partition, iblock: array<Word>, i: nat, n: nat, placed: nat, ghost d: seq<Block>,
                   ghost f: set<nat>,
                   ghost base: seq<Tree>, ghost file: seq<Tree>, ghost good: bool)
    returns (written: nat, ghost file': seq<Tree>, ghost good': bool)
    requires p.Valid() && iblock.Length == 15 && i < 15 && placed < n && (good ==> i == |file|)
    requires ApartAll(base) && BlocksAll(base) !! f && forall b :: b in BlocksAll(base) || b in f ==> b !in p.L.bitmaps
    requires Growing(p.L, p.L.Entries(), p.cleared, d, f, p.disk[..], p.Free(), base, file, iblock[..], n, placed, good)
    modifies p`groupFree, p`superFree, p.disk, iblock
    ensures p.Valid()
    ensures placed + written <= n
    ensures good' ==> |file'| == i + 1
    ensures written == 0 ==> !good'
    ensures good && i < 12 && written > 0 ==> good'
    ensures forall k :: 0 <= k < 15 && k != i ==> iblock[k] == old(iblock[k])
    ensures Growing(p.L, p.L.Entries(), p.cleared, d, f, p.disk[..], p.Free(), base, file', iblock[..], n, placed + written, good')
  {
    hide Growing, Outcome, Layout.Ok, Layout.Image, Layout.Sound, Layout.FreeSet;
    p.L.EntriesPositive();
    ghost var d1, f1, e := p.disk[..], p.Free(), p.L.Entries();
    var target: Word, w: nat;
    ghost var t: Tree;
    target, w, t := BuildLevel(p, Height(i), n - placed);
    file', good' := GrowingStep(p.L, e, p.cleared, d, f, d1, f1, p.disk[..], p.Free(), base, file, iblock[..],
                                n, placed, good, target, w, t, i);
    ghost var entries := iblock[..];
    iblock[i] := target;
    assert iblock[..] == entries[i := target];
    written := w;
  }

  /** The single, double and triple indirect entries, in turn, until n data blocks are placed. */
  method GrowTrees(p: Partition, iblock: array<Word>, n: nat, start: nat, ghost d: seq<Block>, ghost f: set<nat>,
                   ghost base: seq<Tree>, ghost begun: seq<Tree>)
    returns (placed: nat, ghost file: seq<Tree>, ghost good: bool)
    requires p.Valid() && iblock.Length == 15 && start < n && |begun| == 12
    requires ApartAll(base) && BlocksAll(base) !! f && forall b :: b in BlocksAll(base) || b in f ==> b !in p.L.bitmaps
    requires Growing(p.L, p.L.Entries(), p.cleared, d, f, p.disk[..], p.Free(), base, begun, iblock[..], n, start, true)
    modifies p`groupFree, p`superFree, p.disk, iblock
    ensures p.Valid() && placed <= n
    ensures placed == n || |file| == 15 || !good
    ensures Growing(p.L, p.L.Entries(), p.cleared, d, f, p.disk[..], p.Free(), base, file, iblock[..], n, placed, good)
  {
    hide Growing, Layout.Ok, Layout.Image, Layout.Sound, Layout.FreeSet;
    p.L.EntriesPositive();
    file, good, placed := begun, true, start;
    var i: nat := 12;
    while i < 15 && placed != n
      invariant p.Valid() && i <= 15 && placed <= n
      invariant Growing(p.L, p.L.Entries(), p.cleared, d, f, p.disk[..], p.Free(), base, file, iblock[..], n, placed, good)
      invariant good && placed != n ==> |file| == i
    {
      var written: nat;
      written, file, good := GrowEntry(p, iblock, i, n, placed, d, f, base, file, good);
      placed := placed + written;
      i := i + 1;
    }
  }

  /** Adds n data blocks to a file that so far uses at most its 12 direct entries; false when it could not. */
  method AllocateBlocks(p: Partition, iblock: array<Word>, n: nat, ghost base: seq<Tree>)
    returns (ok: bool, ghost file: seq<Tree>)
    requires p.Valid() && iblock.Length == 15 && Maps(p.disk[..], iblock[..], base) && |base| <= 12
    requires FileShape(p.L.Entries(), base) && ApartAll(base) && Owned(p.L, p.Free(), base)
    modifies p`groupFree, p`superFree, p.disk, iblock
    ensures p.Valid()
    ensures Grows(p.L, old(p.disk[..]), old(p.Free()), p.disk[..], p.Free())
    ensures var e := p.L.Entries();
            ok <==> |old(p.Free())| >= n + FileMeta(e, |base|, n) && n <= Room(e, |base|)
    ensures Spent(p.L.Entries(), old(p.Free()), p.Free(), |base|, n)
    ensures ok ==> Grown(p.L, p.L.Entries(), p.cleared, old(p.disk[..]), old(p.Free()), p.disk[..], p.Free(), base, file, iblock[..], n)
                   && NodeCountAll(file) == NodeCountAll(base) + FileMeta(p.L.Entries(), |base|, n)
  {
    hide Growing, Grown, Grows, Spent, Layout.Ok, Layout.Image, Layout.Sound, Layout.FreeSet, Maps, FileShape, ApartAll, Owned, FileMeta, Room,
         BlocksAll, LeavesAll, NodeCountAll;
    p.L.EntriesPositive();
    ghost var d, f, e := p.disk[..], p.Free(), p.L.Entries();
    ghost var good := true;
    BaseFacts(p, iblock, base);
    GrowingStart(p.L, e, p.cleared, d, f, base, iblock[..], n);
    file := base;
    var placed: nat, i: nat := 0, 0;
    while i < 12 && placed != n
      invariant p.Valid() && i <= 12 && placed <= n && good
      invariant Growing(p.L, e, p.cleared, d, f, p.disk[..], p.Free(), base, file, iblock[..], n, placed, true)
      invariant forall k :: i <= k < 12 ==> (iblock[k] == 0 <==> k >= |base|)
      invariant |file| == if i <= |base| then |base| else i
    {
      if iblock[i] == 0 {
        var written: nat;
        written, file, good := GrowEntry(p, iblock, i, n, placed, d, f, base, file, true);
        placed := placed + written;
        if written == 0 {
          GrowingDone(p.L, e, p.cleared, d, f, p.disk[..], p.Free(), base, file, iblock[..], n, placed, false);
          return false, file;
        }
      }
      i := i + 1;
    }
    if placed != n {
      placed, file, good := GrowTrees(p, iblock, n, placed, d, f, base, file);
    }
    GrowingDone(p.L, e, p.cleared, d, f, p.disk[..], p.Free(), base, file, iblock[..], n, placed, good);
    ok := placed == n;
  }
}
