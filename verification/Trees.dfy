/**
 The block tree of a file. A `Tree` is a mathematical description of what hangs below one pointer;
 `Rep` says that a disk image stores it. A file is a forest: the trees below its nonzero i_block entries.
 */
module Trees {
  import opened Codec
  import opened Arith

  datatype Tree = Leaf(block: nat) | Node(block: nat, kids: seq<Tree>)

  /** The data blocks below a pointer, in file order. */
  function Leaves(t: Tree): (s: seq<nat>)
    decreases t, 0
  {
    match t
    case Leaf(b) => [b]
    case Node(_, kids) => LeavesAll(kids)
  }

  function LeavesAll(ts: seq<Tree>): (s: seq<nat>)
    decreases ts
  {
    if ts == [] then [] else LeavesAll(ts[..|ts| - 1]) + Leaves(ts[|ts| - 1])
  }

  /** The pointer blocks of a tree. */
  function Nodes(t: Tree): (s: set<nat>)
    decreases t, 0
  {
    match t
    case Leaf(_) => {}
    case Node(b, kids) => {b} + NodesAll(kids)
  }

  function NodesAll(ts: seq<Tree>): (s: set<nat>)
    decreases ts
  {
    if ts == [] then {} else NodesAll(ts[..|ts| - 1]) + Nodes(ts[|ts| - 1])
  }

  /** Every block a tree occupies. */
  function Blocks(t: Tree): (s: set<nat>)
    decreases t, 0
  {
    match t
    case Leaf(b) => {b}
    case Node(b, kids) => {b} + BlocksAll(kids)
  }

  function BlocksAll(ts: seq<Tree>): (s: set<nat>)
    decreases ts
  {
    if ts == [] then {} else BlocksAll(ts[..|ts| - 1]) + Blocks(ts[|ts| - 1])
  }

  function NodeCount(t: Tree): (n: nat)
    decreases t, 0
  {
    match t
    case Leaf(_) => 0
    case Node(_, kids) => 1 + NodeCountAll(kids)
  }

  function NodeCountAll(ts: seq<Tree>): (n: nat)
    decreases ts
  {
    if ts == [] then 0 else NodeCountAll(ts[..|ts| - 1]) + NodeCount(ts[|ts| - 1])
  }

  /** No block occurs twice in the tree. */
  predicate Apart(t: Tree)
    decreases t, 0
  {
    match t
    case Leaf(_) => true
    case Node(b, kids) => b !in BlocksAll(kids) && ApartAll(kids)
  }

  predicate ApartAll(ts: seq<Tree>)
    decreases ts
  {
    ts != [] ==>
      var n := |ts| - 1;
      ApartAll(ts[..n]) && Apart(ts[n]) && BlocksAll(ts[..n]) !! Blocks(ts[n])
  }

  /** Every block of a comes before every block of b. */
  predicate Precedes(a: set<nat>, b: set<nat>) {
    forall x, y :: x in a && y in b ==> x < y
  }

  /** Pointer blocks come before what hangs below them, and subtrees one after another. */
  predicate Rising(t: Tree)
    decreases t, 0
  {
    match t
    case Leaf(_) => true
    case Node(b, kids) => Precedes({b}, BlocksAll(kids)) && RisingAll(kids)
  }

  predicate RisingAll(ts: seq<Tree>)
    decreases ts
  {
    ts != [] ==>
      var n := |ts| - 1;
      RisingAll(ts[..n]) && Rising(ts[n]) && Precedes(BlocksAll(ts[..n]), Blocks(ts[n]))
  }

  /** Every pointer block of the tree is on the disk and points to the roots of its subtrees. */
  ghost predicate Rep(d: seq<Block>, t: Tree)
    decreases t, 0
  {
    match t
    case Leaf(_) => true
    case Node(b, kids) =>
      && b < |d| && |kids| <= |d[b]| / 4
      && (forall j :: 0 <= j < |kids| ==> ToWords(d[b])[j] == kids[j].block)
      && RepAll(d, kids)
  }

  ghost predicate RepAll(d: seq<Block>, ts: seq<Tree>)
    decreases ts
  {
    ts != [] ==> RepAll(d, ts[..|ts| - 1]) && Rep(d, ts[|ts| - 1])
  }

  /** Pointer slots past the last subtree are zero. */
  ghost predicate Ended(d: seq<Block>, t: Tree)
    decreases t, 0
  {
    match t
    case Leaf(_) => true
    case Node(b, kids) =>
      && b < |d|
      && (forall j :: |kids| <= j < |d[b]| / 4 ==> ToWords(d[b])[j] == 0)
      && EndedAll(d, kids)
  }

  ghost predicate EndedAll(d: seq<Block>, ts: seq<Tree>)
    decreases ts
  {
    ts != [] ==> EndedAll(d, ts[..|ts| - 1]) && Ended(d, ts[|ts| - 1])
  }

  /** A tree of the given height in which every pointer block has all its e slots in use. */
  predicate Full(e: nat, level: nat, t: Tree)
    decreases level, 0, 0
  {
    if level == 0 then t.Leaf? else t.Node? && |t.kids| == e && FullAll(e, level - 1, t.kids)
  }

  predicate FullAll(e: nat, level: nat, ts: seq<Tree>)
    decreases level, 1, |ts|
  {
    ts != [] ==> FullAll(e, level, ts[..|ts| - 1]) && Full(e, level, ts[|ts| - 1])
  }

  /** A tree of the given height filled from the left: only the rightmost path may have unused slots. */
  predicate Shape(e: nat, level: nat, t: Tree)
    decreases level
  {
    if level == 0 then t.Leaf?
    else
      && t.Node? && 1 <= |t.kids| <= e
      && FullAll(e, level - 1, t.kids[..|t.kids| - 1])
      && Shape(e, level - 1, t.kids[|t.kids| - 1])
  }

  lemma {:induction false} FullIsShape(e: nat, level: nat, t: Tree)
    requires e > 0 && Full(e, level, t)
    ensures Shape(e, level, t)
    decreases level
  {
    if level > 0 {
      FullIsShape(e, level - 1, t.kids[e - 1]);
    }
  }

  lemma {:induction false} FullAllAt(e: nat, level: nat, ts: seq<Tree>, i: nat)
    requires FullAll(e, level, ts) && i < |ts|
    ensures Full(e, level, ts[i])
    decreases |ts|
  {
    if i < |ts| - 1 {
      FullAllAt(e, level, ts[..|ts| - 1], i);
    }
  }

  lemma {:induction false} FullAllPrefix(e: nat, level: nat, ts: seq<Tree>, i: nat)
    requires FullAll(e, level, ts) && i <= |ts|
    ensures FullAll(e, level, ts[..i])
    decreases |ts|
  {
    if i < |ts| {
      FullAllPrefix(e, level, ts[..|ts| - 1], i);
      assert ts[..|ts| - 1][..i] == ts[..i];
    } else {
      assert ts[..i] == ts;
    }
  }

  /** Facts about one tree of a forest, from the same facts about the forest. */
  lemma {:induction false} AllAt(d: seq<Block>, ts: seq<Tree>, i: nat)
    requires i < |ts|
    ensures RepAll(d, ts) ==> Rep(d, ts[i])
    ensures EndedAll(d, ts) ==> Ended(d, ts[i])
    ensures ApartAll(ts) ==> Apart(ts[i])
    ensures Nodes(ts[i]) <= NodesAll(ts) && Blocks(ts[i]) <= BlocksAll(ts)
    decreases |ts|
  {
    if i < |ts| - 1 {
      AllAt(d, ts[..|ts| - 1], i);
    }
  }

  lemma {:induction false} AllPrefix(d: seq<Block>, ts: seq<Tree>, i: nat)
    requires i <= |ts|
    ensures RepAll(d, ts) ==> RepAll(d, ts[..i])
    ensures EndedAll(d, ts) ==> EndedAll(d, ts[..i])
    ensures ApartAll(ts) ==> ApartAll(ts[..i])
    ensures NodesAll(ts[..i]) <= NodesAll(ts) && BlocksAll(ts[..i]) <= BlocksAll(ts)
    ensures LeavesAll(ts[..i]) <= LeavesAll(ts)
    decreases |ts|
  {
    if i < |ts| {
      AllPrefix(d, ts[..|ts| - 1], i);
      assert ts[..|ts| - 1][..i] == ts[..i];
    } else {
      assert ts[..i] == ts;
    }
  }

  /** Step of every walk over a forest: one more tree. */
  lemma LeavesStep(ts: seq<Tree>, i: nat)
    requires i < |ts|
    ensures LeavesAll(ts[..i + 1]) == LeavesAll(ts[..i]) + Leaves(ts[i])
  {
    assert ts[..i + 1][..i] == ts[..i];
  }

  /** A forest that is appended to keeps its properties. */
  lemma Append(d: seq<Block>, ts: seq<Tree>, t: Tree)
    ensures LeavesAll(ts + [t]) == LeavesAll(ts) + Leaves(t)
    ensures NodesAll(ts + [t]) == NodesAll(ts) + Nodes(t)
    ensures BlocksAll(ts + [t]) == BlocksAll(ts) + Blocks(t)
    ensures NodeCountAll(ts + [t]) == NodeCountAll(ts) + NodeCount(t)
    ensures RepAll(d, ts) && Rep(d, t) <==> RepAll(d, ts + [t])
    ensures EndedAll(d, ts) && Ended(d, t) <==> EndedAll(d, ts + [t])
    ensures ApartAll(ts) && Apart(t) && BlocksAll(ts) !! Blocks(t) <==> ApartAll(ts + [t])
    ensures RisingAll(ts) && Rising(t) && Precedes(BlocksAll(ts), Blocks(t)) <==> RisingAll(ts + [t])
  {
    assert (ts + [t])[..|ts|] == ts;
  }

  lemma FullAppend(e: nat, level: nat, ts: seq<Tree>, t: Tree)
    ensures FullAll(e, level, ts) && Full(e, level, t) <==> FullAll(e, level, ts + [t])
  {
    assert (ts + [t])[..|ts|] == ts;
  }

  /** Only pointer blocks matter to what an image represents. */
  lemma {:induction false} RepFrame(d: seq<Block>, d': seq<Block>, t: Tree)
    requires |d| == |d'| && forall b :: b in Nodes(t) && b < |d| ==> d[b] == d'[b]
    ensures Rep(d, t) ==> Rep(d', t)
    ensures Ended(d, t) ==> Ended(d', t)
    decreases t, 0
  {
    if t.Node? {
      RepAllFrame(d, d', t.kids);
    }
  }

  lemma {:induction false} RepAllFrame(d: seq<Block>, d': seq<Block>, ts: seq<Tree>)
    requires |d| == |d'| && forall b :: b in NodesAll(ts) && b < |d| ==> d[b] == d'[b]
    ensures RepAll(d, ts) ==> RepAll(d', ts)
    ensures EndedAll(d, ts) ==> EndedAll(d', ts)
    decreases ts
  {
    if ts != [] {
      RepAllFrame(d, d', ts[..|ts| - 1]);
      RepFrame(d, d', ts[|ts| - 1]);
    }
  }

  ghost function ToSet(s: seq<nat>): set<nat> {
    set b | b in s :: b
  }

  ghost predicate NoDup(s: seq<nat>) {
    forall i, j :: 0 <= i < j < |s| ==> s[i] != s[j]
  }

  lemma ToSetConcat(a: seq<nat>, b: seq<nat>)
    ensures ToSet(a + b) == ToSet(a) + ToSet(b)
  {
    forall x | x in ToSet(a) + ToSet(b) ensures x in a + b {
      if x in a {
        var i :| 0 <= i < |a| && a[i] == x;
        assert (a + b)[i] == x;
      } else {
        var i :| 0 <= i < |b| && b[i] == x;
        assert (a + b)[|a| + i] == x;
      }
    }
  }

  lemma NoDupConcat(a: seq<nat>, b: seq<nat>)
    requires NoDup(a) && NoDup(b) && ToSet(a) !! ToSet(b)
    ensures NoDup(a + b)
  {
    forall i, j | 0 <= i < j < |a + b| ensures (a + b)[i] != (a + b)[j] {
      if i < |a| <= j {
        assert a[i] in a && b[j - |a|] in b;
        assert a[i] in ToSet(a) && b[j - |a|] in ToSet(b);
      }
    }
  }

  /** The blocks of a tree are its pointer blocks and its leaves. */
  lemma {:induction false} BlocksSplit(t: Tree)
    ensures Blocks(t) == Nodes(t) + ToSet(Leaves(t))
    decreases t, 0
  {
    if t.Node? {
      BlocksAllSplit(t.kids);
    } else {
      assert t.block in Leaves(t);
    }
  }

  lemma {:induction false} BlocksAllSplit(ts: seq<Tree>)
    ensures BlocksAll(ts) == NodesAll(ts) + ToSet(LeavesAll(ts))
    decreases ts
  {
    if ts != [] {
      BlocksAllSplit(ts[..|ts| - 1]);
      BlocksSplit(ts[|ts| - 1]);
      ToSetConcat(LeavesAll(ts[..|ts| - 1]), Leaves(ts[|ts| - 1]));
    }
  }

  lemma NothingListed()
    ensures NoDup([]) && ToSet([]) == {}
  {
  }

  /** In a tree without repetitions leaves are distinct, no leaf is a pointer block, and sizes add up. */
  lemma {:induction false} ApartFacts(t: Tree)
    requires Apart(t)
    ensures NoDup(Leaves(t)) && Nodes(t) !! ToSet(Leaves(t))
    ensures |Nodes(t)| == NodeCount(t) && |Blocks(t)| == NodeCount(t) + |Leaves(t)|
    decreases t, 0
  {
    if t.Node? {
      ApartAllFacts(t.kids);
      BlocksAllSplit(t.kids);
    }
  }

  lemma {:induction false} ApartAllFacts(ts: seq<Tree>)
    requires ApartAll(ts)
    ensures NoDup(LeavesAll(ts)) && NodesAll(ts) !! ToSet(LeavesAll(ts))
    ensures |NodesAll(ts)| == NodeCountAll(ts) && |BlocksAll(ts)| == NodeCountAll(ts) + |LeavesAll(ts)|
    decreases ts
  {
    hide NoDup, ToSet, Apart;
    if ts == [] {
      NothingListed();
    } else {
      var n := |ts| - 1;
      ApartAllFacts(ts[..n]);
      ApartFacts(ts[n]);
      BlocksAllSplit(ts[..n]);
      BlocksSplit(ts[n]);
      ToSetConcat(LeavesAll(ts[..n]), Leaves(ts[n]));
      NoDupConcat(LeavesAll(ts[..n]), Leaves(ts[n]));
      DisjointSizes(NodesAll(ts[..n]), Nodes(ts[n]));
      DisjointSizes(BlocksAll(ts[..n]), Blocks(ts[n]));
    }
  }

  lemma DisjointSizes(a: set<nat>, b: set<nat>)
    ensures a !! b ==> |a + b| == |a| + |b|
  {
  }

  // ----- Sizes -----

  /** Data blocks a tree of the given height can hold. */
  function Cap(e: nat, level: nat): (c: nat)
    ensures e > 0 ==> c > 0
  {
    if level == 0 then 1 else e * Cap(e, level - 1)
  }

  /** Pointer blocks of a left-filled tree of the given height with m leaves. */
  function Meta(e: nat, level: nat, m: nat): (n: nat)
    requires e > 0
    decreases level, m, 0
  {
    if level == 0 then 0 else 1 + Forest(e, level - 1, m)
  }

  /** Pointer blocks of as many trees of the given height as m leaves need. */
  function Forest(e: nat, level: nat, m: nat): (n: nat)
    requires e > 0
    decreases level, m, 1
  {
    if m == 0 then 0
    else if m <= Cap(e, level) then Meta(e, level, m)
    else Meta(e, level, Cap(e, level)) + Forest(e, level, m - Cap(e, level))
  }

  lemma {:induction false} FullLeaves(e: nat, level: nat, t: Tree)
    requires Full(e, level, t)
    ensures |Leaves(t)| == Cap(e, level)
    decreases level, 0, 0
  {
    if level > 0 {
      FullAllLeaves(e, level - 1, t.kids);
    }
  }

  lemma {:induction false} FullAllLeaves(e: nat, level: nat, ts: seq<Tree>)
    requires FullAll(e, level, ts)
    ensures |LeavesAll(ts)| == |ts| * Cap(e, level)
    decreases level, 1, |ts|
  {
    if ts != [] {
      FullAllLeaves(e, level, ts[..|ts| - 1]);
      FullLeaves(e, level, ts[|ts| - 1]);
      MulSucc(|ts| - 1, Cap(e, level));
    }
  }

  lemma {:induction false} ShapeLeaves(e: nat, level: nat, t: Tree)
    requires 0 < e && Shape(e, level, t)
    ensures 0 < |Leaves(t)| <= Cap(e, level)
    ensures |Leaves(t)| == Cap(e, level) ==> Full(e, level, t)
    decreases level
  {
    if level > 0 {
      var k, c := |t.kids| - 1, Cap(e, level - 1);
      FullAllLeaves(e, level - 1, t.kids[..k]);
      ShapeLeaves(e, level - 1, t.kids[k]);
      MulSucc(k, c);
      MulMonotone(k + 1, e, c);
      if k + 1 < e {
        MulSucc(k + 1, c);
        MulMonotone(k + 2, e, c);
      }
    }
  }
}
