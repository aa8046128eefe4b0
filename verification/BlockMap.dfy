/** The block of a file by its number, looked up top-down through the indirect blocks: the meaning of i_block. */
module BlockMap {
  import opened Codec
  import opened Arith
  import opened Layouts
  import opened Trees
  import opened Files
  import opened Walks
  import opened FileWalks
  import opened Reading
  import opened Writing
  import PointerBlocks

  /** Data block i below a pointer of the given height; 0 when a pointer on the way leaves the disk. */
  ghost function Descend(d: seq<Block>, e: nat, level: nat, pointer: nat, i: nat): nat
    requires e > 0
    decreases level
  {
    if level == 0 then pointer
    else
      var c := Cap(e, level - 1);
      if 0 < pointer < |d| && Quotient(i, c) < |d[pointer]| / 4 then
        Descend(d, e, level - 1, ToWords(d[pointer])[Quotient(i, c)], Remainder(i, c))
      else 0
  }

  /** Pointer j of the pointer block b: four bytes, the lowest first. */
  ghost function Slot(d: seq<Block>, b: nat, j: nat): nat {
    if 0 < b < |d| && 4 * j + 4 <= |d[b]| then Little(d[b], 4 * j) else 0
  }

  /** Block i below a double indirect block: pointer i mod e of the block at pointer i / e. */
  ghost function Double(d: seq<Block>, e: nat, b: nat, i: nat): nat
    requires e > 0
  {
    Slot(d, Slot(d, b, i / e), i % e)
  }

  /** Block i below a triple indirect block, below each of whose pointers there are `square` blocks. */
  ghost function Triple(d: seq<Block>, e: nat, square: nat, b: nat, i: nat): nat
    requires e > 0 && square > 0
  {
    Double(d, e, Slot(d, b, i / square), i % square)
  }

  /**
   Block k of a file, by the bytes of the pointer blocks: 12 direct entries, then the single, double and triple
   indirect ones.
   */
  ghost function FileBlock(d: seq<Block>, e: nat, iblock: seq<Word>, k: nat): nat
    requires e > 0 && |iblock| == 15
  {
    Positive(e);
    if k < 12 then iblock[k]
    else if k < 12 + e then Slot(d, iblock[12], k - 12)
    else if k < 12 + e + e * e then Double(d, e, iblock[13], k - 12 - e)
    else Triple(d, e, e * e, iblock[14], k - 12 - e - e * e)
  }

  lemma Positive(e: nat)
    requires e > 0
    ensures e * e > 0
  {
  }

  lemma SlotIs(d: seq<Block>, b: nat, j: nat)
    ensures Slot(d, b, j) == if 0 < b < |d| && j < |d[b]| / 4 then ToWords(d[b])[j] else 0
  {
    if 0 < b < |d| && j < |d[b]| / 4 {
      LittleIs(d[b], 4 * j);
    }
  }

  lemma DescendSingle(d: seq<Block>, e: nat, pointer: nat, i: nat)
    requires e > 0
    ensures Descend(d, e, 1, pointer, i) == Slot(d, pointer, i)
  {
    hide Slot, ToWords;
    PointerBlocks.Caps(e);
    QuotientIsDivision(i, 1);
    SlotIs(d, pointer, i);
  }

  lemma DescendDouble(d: seq<Block>, e: nat, pointer: nat, i: nat)
    requires e > 0
    ensures Descend(d, e, 2, pointer, i) == Double(d, e, pointer, i)
  {
    hide ToWords;
    PointerBlocks.Caps(e);
    QuotientIsDivision(i, e);
    SlotIs(d, pointer, i / e);
    DescendSingle(d, e, Slot(d, pointer, i / e), i % e);
  }

  lemma DescendTriple(d: seq<Block>, e: nat, pointer: nat, i: nat)
    requires e > 0
    ensures e * e > 0
    ensures Descend(d, e, 3, pointer, i) == Triple(d, e, e * e, pointer, i)
  {
    hide ToWords, Double;
    Positive(e);
    PointerBlocks.Caps(e);
    QuotientIsDivision(i, e * e);
    SlotIs(d, pointer, i / (e * e));
    DescendDouble(d, e, Slot(d, pointer, i / (e * e)), i % (e * e));
  }

  /** In a left-filled tree, leaf i is in subtree i / c, c being the capacity of a subtree. */
  lemma LeafAt(e: nat, level: nat, t: Tree, i: nat)
    requires 0 < e && 0 < level && Shape(e, level, t) && i < |Leaves(t)|
    ensures var c := Cap(e, level - 1);
            var j, r := Quotient(i, c), Remainder(i, c);
            j < |t.kids| && r < |Leaves(t.kids[j])| && Leaves(t)[i] == Leaves(t.kids[j])[r] && Shape(e, level - 1, t.kids[j])
  {
    hide FullAll, Cap, LeavesAll;
    var c, n := Cap(e, level - 1), |t.kids| - 1;
    var j, r := Quotient(i, c), Remainder(i, c);
    ShapeSizes(e, level, t, i);
    QuotientRemainder(i, c);
    MulSucc(n, c);
    if j > n {
      MulMonotone(n + 1, j, c);
    }
    FullSizes(e, level - 1, t.kids, j);
    LeavesAt(t.kids, j);
    var o := |LeavesAll(t.kids[..j])|;
    assert LeavesAll(t.kids)[o..o + |Leaves(t.kids[j])|][r] == LeavesAll(t.kids)[o + r];
  }

  /** Leaves before the last subtree, and in it. */
  lemma ShapeSizes(e: nat, level: nat, t: Tree, i: nat)
    requires 0 < e && 0 < level && Shape(e, level, t) && i < |Leaves(t)|
    ensures var c, n := Cap(e, level - 1), |t.kids| - 1;
            && 0 < c && 0 <= n && FullAll(e, level - 1, t.kids[..n]) && Shape(e, level - 1, t.kids[n])
            && Leaves(t) == LeavesAll(t.kids)
            && |Leaves(t)| == n * c + |Leaves(t.kids[n])| && |Leaves(t.kids[n])| <= c
  {
    var n := |t.kids| - 1;
    FullAllLeaves(e, level - 1, t.kids[..n]);
    ShapeLeaves(e, level - 1, t.kids[n]);
    LeavesAt(t.kids, n);
  }

  /** Full subtrees have equally many leaves. */
  lemma FullSizes(e: nat, level: nat, ts: seq<Tree>, j: nat)
    requires 0 < e && j < |ts| && FullAll(e, level, ts[..|ts| - 1])
    ensures |LeavesAll(ts[..j])| == j * Cap(e, level)
    ensures j < |ts| - 1 ==> |Leaves(ts[j])| == Cap(e, level) && Shape(e, level, ts[j])
  {
    var n := |ts| - 1;
    FullAllPrefix(e, level, ts[..n], j);
    assert ts[..n][..j] == ts[..j];
    FullAllLeaves(e, level, ts[..j]);
    if j < n {
      FullAllAt(e, level, ts[..n], j);
      FullIsShape(e, level, ts[j]);
      FullLeaves(e, level, ts[j]);
    }
  }

  /** The flat list of leaves is what top-down lookup gives. */
  lemma {:induction false} DescendIs(L: Layout, d: seq<Block>, level: nat, t: Tree, i: nat)
    requires L.Entries() > 0 && Rep(d, t) && Shape(L.Entries(), level, t) && i < |Leaves(t)|
    requires forall b :: b in Blocks(t) ==> 0 < b
    ensures Descend(d, L.Entries(), level, t.block, i) == Leaves(t)[i]
    decreases level
  {
    if level > 0 {
      LeafAt(L.Entries(), level, t, i);
      hide LeavesAll, BlocksAll, RepAll, FullAll;
      var j := Quotient(i, Cap(L.Entries(), level - 1));
      AllAt(d, t.kids, j);
      assert t.block in Blocks(t);
      DescendIs(L, d, level - 1, t.kids[j], Remainder(i, Cap(L.Entries(), level - 1)));
    }
  }

  /** How many blocks are below the entries before entry i. */
  function Before(e: nat, i: nat): nat {
    if i <= 12 then i else if i == 13 then 12 + e else 12 + e + e * e
  }

  /** The entries before entry i of a file that reaches it are in full use. */
  lemma {:induction false} EntriesBefore(e: nat, file: seq<Tree>, i: nat)
    requires 0 < e && FileShape(e, file) && i < |file|
    ensures |LeavesAll(file[..i])| == Before(e, i)
    decreases i
  {
    if i == 0 {
      assert file[..0] == [];
    } else {
      EntriesBefore(e, file, i - 1);
      LeavesStep(file, i - 1);
      PointerBlocks.Caps(e);
      FullLeaves(e, Height(i - 1), file[i - 1]);
    }
  }

  lemma EntryBlock(L: Layout, d: seq<Block>, iblock: seq<Word>, file: seq<Tree>, i: nat, k: nat)
    requires L.Entries() > 0 && Stored(L, d, iblock, file) && i < |file|
    requires |LeavesAll(file[..i])| <= k < |LeavesAll(file[..i])| + |Leaves(file[i])|
    ensures k < |LeavesAll(file)|
    ensures Descend(d, L.Entries(), Height(i), iblock[i], k - |LeavesAll(file[..i])|) == LeavesAll(file)[k]
  {
    AllAt(d, file, i);
    LeavesAt(file, i);
    var o := |LeavesAll(file[..i])|;
    DescendIs(L, d, Height(i), file[i], k - o);
    assert LeavesAll(file)[o..o + |Leaves(file[i])|][k - o] == LeavesAll(file)[k];
  }

  /** The entry below which block k of the file is. */
  lemma EntryOf(L: Layout, d: seq<Block>, iblock: seq<Word>, file: seq<Tree>, k: nat) returns (i: nat)
    requires k < |LeavesAll(file)|
    ensures i < |file| && |LeavesAll(file[..i])| <= k < |LeavesAll(file[..i])| + |Leaves(file[i])|
  {
    i := 0;
    assert file[..0] == [] && file[..|file|] == file;
    while k >= |LeavesAll(file[..i + 1])|
      invariant i < |file| && |LeavesAll(file[..i])| <= k
      decreases |file| - i
    {
      i := i + 1;
    }
    LeavesStep(file, i);
  }

  /**
   Block k of a stored file, by the numbers, is leaf k of its forest: reads and writes by the walk are reads and
   writes by block number.
   */
  lemma FileBlockIs(L: Layout, d: seq<Block>, iblock: seq<Word>, file: seq<Tree>, k: nat)
    requires L.Entries() > 0 && Stored(L, d, iblock, file) && k < |LeavesAll(file)|
    ensures FileBlock(d, L.Entries(), iblock, k) == LeavesAll(file)[k]
  {
    hide RepAll, LeavesAll, Leaves, Descend, Slot, Double, Triple, ToWords;
    var e := L.Entries();
    var i := EntryOf(L, d, iblock, file, k);
    EntryBlock(L, d, iblock, file, i, k);
    EntriesBefore(e, file, i);
    PointerBlocks.Caps(e);
    ShapeLeaves(e, Height(i), file[i]);
    if i < 12 {
      ZeroDescend(d, e, iblock[i]);
    } else if i == 12 {
      DescendSingle(d, e, iblock[12], k - 12);
    } else if i == 13 {
      DescendDouble(d, e, iblock[13], k - 12 - e);
    } else {
      DescendTriple(d, e, iblock[14], k - 12 - e - e * e);
    }
  }

  lemma ZeroDescend(d: seq<Block>, e: nat, pointer: nat)
    requires e > 0
    ensures Descend(d, e, 0, pointer, 0) == pointer
  {
  }

  // ----- What block transfers move, byte by byte -----

  /** Byte x of the listed blocks is byte x mod size of block x / size of the list. */
  lemma {:induction false} ConcatByte(d: seq<Block>, ls: seq<nat>, size: nat, x: nat)
    requires forall i :: 0 <= i < |ls| ==> ls[i] < |d|
    requires forall b :: 0 <= b < |d| ==> |d[b]| == size
    requires 0 < size && x < |ls| * size
    ensures 0 <= x / size < |ls| && 0 <= x % size < size && |Concat(d, ls)| == |ls| * size
    ensures Concat(d, ls)[x] == d[ls[x / size]][x % size]
    decreases |ls|
  {
    hide Concat;
    ConcatLength(d, ls, size);
    var n := |ls| - 1;
    MulSucc(n, size);
    ConcatStep(d, ls[..n], ls[n]);
    assert ls == ls[..n] + [ls[n]];
    ConcatLength(d, ls[..n], size);
    if x < n * size {
      ConcatByte(d, ls[..n], size, x);
    } else {
      QuotientUnique(x, size, n, x - n * size);
    }
  }

  /** In d, byte x of the file from its block `skip` on is v; its block is found by the pointers that m holds. */
  ghost predicate HoldsByte(m: seq<Block>, d: seq<Block>, size: nat, iblock: seq<Word>, skip: nat, x: nat, v: Byte)
    requires 4 <= size && |iblock| == 15
  {
    var b := FileBlock(m, size / 4, iblock, skip + x / size);
    b < |d| && |d[b]| == size && d[b][x % size] == v
  }

  /** The buffer from `at` on holds `count` blocks of the file from block `skip` on, and is otherwise as before. */
  ghost predicate Delivered(d: seq<Block>, size: nat, iblock: seq<Word>, skip: nat, count: nat, before: seq<Byte>,
                            at: nat, after: seq<Byte>)
    requires 4 <= size && |iblock| == 15
  {
    && |after| == |before|
    && forall y :: 0 <= y < |after| ==>
         if at <= y < at + count * size then HoldsByte(d, d, size, iblock, skip, y - at, after[y])
         else after[y] == before[y]
  }

  /**
   From d0 to d1, `count` blocks of the file from block `skip` on took over the source from `at` on; no other changed.
   */
  ghost predicate Deposited(d0: seq<Block>, d1: seq<Block>, size: nat, iblock: seq<Word>, skip: nat, count: nat,
                            source: seq<Byte>, at: nat)
    requires 4 <= size && |iblock| == 15
  {
    && |d1| == |d0|
    && (forall y :: at <= y < at + count * size ==>
                      y < |source| && HoldsByte(d0, d1, size, iblock, skip, y - at, source[y]))
    && (forall b :: 0 <= b < |d0| && (forall j :: skip <= j < skip + count ==> FileBlock(d0, size / 4, iblock, j) != b) ==>
                      d1[b] == d0[b])
  }

  /** Byte x of a stretch of the file. */
  lemma StretchByte(L: Layout, m: seq<Block>, d: seq<Block>, iblock: seq<Word>, file: seq<Tree>, skip: nat, count: nat,
                    x: nat)
    requires L.Ok() && L.Image(m) && L.Image(d) && Stored(L, m, iblock, file) && skip + count <= |LeavesAll(file)|
    requires forall i :: 0 <= i < |LeavesAll(file)| ==> LeavesAll(file)[i] < |d|
    requires x < count * L.blockSize && 4 <= L.blockSize && |iblock| == 15
    ensures 0 <= x / L.blockSize < count
    ensures var s := Concat(d, LeavesAll(file)[skip..skip + count]);
            x < |s| && HoldsByte(m, d, L.blockSize, iblock, skip, x, s[x])
  {
    hide LeavesAll, Stored, Concat, FileBlock;
    var ls := LeavesAll(file)[skip..skip + count];
    ConcatByte(d, ls, L.blockSize, x);
    FileBlockIs(L, m, iblock, file, skip + x / L.blockSize);
  }

  lemma FilledIs(L: Layout, d: seq<Block>, iblock: seq<Word>, file: seq<Tree>, skip: nat, count: nat,
                 before: seq<Byte>, at: nat, after: seq<Byte>)
    requires L.Ok() && L.Image(d) && Stored(L, d, iblock, file)
    requires forall i :: 0 <= i < |LeavesAll(file)| ==> LeavesAll(file)[i] < |d|
    requires Filled(d, LeavesAll(file), skip, count, before, at, after)
    ensures 4 <= L.blockSize && |iblock| == 15
    ensures Delivered(d, L.blockSize, iblock, skip, count, before, at, after)
  {
    hide LeavesAll, Stored, Concat, HoldsByte, Layout.Ok, Layout.Image;
    StoredLeaves(L, d, iblock, file);
    BlockSize(L, d);
    ConcatLength(d, LeavesAll(file)[skip..skip + count], L.blockSize);
    forall y: nat | at <= y < at + count * L.blockSize
      ensures y < |after| && HoldsByte(d, d, L.blockSize, iblock, skip, y - at, after[y])
    {
      StretchByte(L, d, d, iblock, file, skip, count, y - at);
    }
  }

  lemma WrittenIs(L: Layout, d0: seq<Block>, d1: seq<Block>, iblock: seq<Word>, file: seq<Tree>, skip: nat, count: nat,
                  source: seq<Byte>, at: nat)
    requires L.Ok() && L.Image(d0) && L.Image(d1) && Stored(L, d0, iblock, file)
    requires forall i :: 0 <= i < |LeavesAll(file)| ==> LeavesAll(file)[i] < |d0|
    requires Written(d0, d1, LeavesAll(file), skip, count, source, at, L.blockSize)
    ensures 4 <= L.blockSize && |iblock| == 15
    ensures Deposited(d0, d1, L.blockSize, iblock, skip, count, source, at)
  {
    hide LeavesAll, Stored, Concat, HoldsByte, FileBlock, Layout.Ok, Layout.Image;
    StoredLeaves(L, d0, iblock, file);
    BlockSize(L, d1);
    var ls := LeavesAll(file)[skip..skip + count];
    ConcatLength(d1, ls, L.blockSize);
    forall y: nat | at <= y < at + count * L.blockSize
      ensures y < |source| && HoldsByte(d0, d1, L.blockSize, iblock, skip, y - at, source[y])
    {
      StretchByte(L, d0, d1, iblock, file, skip, count, y - at);
    }
    forall b: nat | b < |d0| && b in ls ensures exists j :: skip <= j < skip + count && FileBlock(d0, L.blockSize / 4, iblock, j) == b {
      var i :| 0 <= i < |ls| && ls[i] == b;
      FileBlockIs(L, d0, iblock, file, skip + i);
    }
  }

  lemma BlockSize(L: Layout, d: seq<Block>)
    requires L.Ok() && L.Image(d)
    ensures 4 <= L.blockSize && L.Entries() == L.blockSize / 4 && forall b :: 0 <= b < |d| ==> |d[b]| == L.blockSize
  {
  }
}
