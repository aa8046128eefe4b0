/** Reading and writing the data blocks of a file by walking its block tree. */
module Walks {
  import opened Codec
  import opened Arith
  import opened Layouts
  import opened Partitions
  import opened Trees
  import opened Builder

  /** The contents of the listed blocks, one after another. */
  ghost function Concat(d: seq<Block>, ls: seq<nat>): (s: seq<Byte>)
    requires forall i :: 0 <= i < |ls| ==> ls[i] < |d|
  {
    if ls == [] then [] else Concat(d, ls[..|ls| - 1]) + d[ls[|ls| - 1]]
  }

  lemma ConcatStep(d: seq<Block>, ls: seq<nat>, b: nat)
    requires b < |d| && forall k :: 0 <= k < |ls| ==> ls[k] < |d|
    ensures Concat(d, ls + [b]) == Concat(d, ls) + d[b]
  {
    assert (ls + [b])[..|ls|] == ls;
  }

  lemma {:induction false} ConcatSplit(d: seq<Block>, ls: seq<nat>, ms: seq<nat>)
    requires forall i :: 0 <= i < |ls| ==> ls[i] < |d|
    requires forall i :: 0 <= i < |ms| ==> ms[i] < |d|
    ensures forall i :: 0 <= i < |ls + ms| ==> (ls + ms)[i] < |d|
    ensures Concat(d, ls + ms) == Concat(d, ls) + Concat(d, ms)
    decreases |ms|
  {
    hide Concat;
    if ms == [] {
      assert ls + ms == ls;
      ConcatNothing(d);
    } else {
      var n := |ms| - 1;
      var init := ms[..n];
      ConcatSplit(d, ls, init);
      assert init + [ms[n]] == ms && (ls + init) + [ms[n]] == ls + ms;
      ConcatStep(d, init, ms[n]);
      ConcatStep(d, ls + init, ms[n]);
    }
  }

  lemma ConcatNothing(d: seq<Block>)
    ensures Concat(d, []) == []
  {
  }

  lemma {:induction false} ConcatLength(d: seq<Block>, ls: seq<nat>, size: nat)
    requires forall i :: 0 <= i < |ls| ==> ls[i] < |d|
    requires forall b :: 0 <= b < |d| ==> |d[b]| == size
    ensures |Concat(d, ls)| == |ls| * size
    decreases |ls|
  {
    if ls != [] {
      ConcatLength(d, ls[..|ls| - 1], size);
      MulSucc(|ls| - 1, size);
    }
  }

  /** Only the listed blocks matter to their contents. */
  lemma {:induction false} ConcatFrame(d: seq<Block>, d': seq<Block>, ls: seq<nat>)
    requires |d| == |d'| && forall i :: 0 <= i < |ls| ==> ls[i] < |d| && d[ls[i]] == d'[ls[i]]
    ensures Concat(d, ls) == Concat(d', ls)
    decreases |ls|
  {
    if ls != [] {
      ConcatFrame(d, d', ls[..|ls| - 1]);
    }
  }

  lemma ConcatRange(d: seq<Block>, ls: seq<nat>, skip: nat, count: nat, size: nat)
    requires forall i :: 0 <= i < |ls| ==> ls[i] < |d|
    requires forall b :: 0 <= b < |d| ==> |d[b]| == size
    requires skip + count <= |ls|
    ensures |Concat(d, ls[skip..skip + count])| == count * size
  {
    ConcatLength(d, ls[skip..skip + count], size);
  }

  /** The buffer offset after n blocks of the given size. */
  function After(at: nat, n: nat, size: nat): nat {
    at + n * size
  }

  lemma AfterIs(at: nat, n: nat, size: nat)
    ensures After(at, n, size) == at + n * size >= at
  {
  }

  lemma AfterMore(at: nat, n: nat, k: nat, size: nat)
    ensures After(After(at, n, size), k, size) == After(at, n + k, size)
    ensures After(at, 0, size) == at && After(at, 1, size) == at + size
  {
    MulDistributes(n, k, size);
  }

  lemma AfterOne(at: nat, n: nat, size: nat)
    ensures After(at, n + 1, size) == After(at, n, size) + size
  {
    MulSucc(n, size);
  }

  lemma AfterMonotone(at: nat, n: nat, k: nat, size: nat)
    requires n <= k
    ensures at <= After(at, n, size) <= After(at, k, size)
  {
    MulMonotone(n, k, size);
  }

  /** Data blocks that the walk gets: count of them, or all from skip on if there are fewer. */
  function Take(total: nat, skip: nat, count: nat): nat
    requires skip <= total
  {
    Min(count, total - skip)
  }

  /** Trees of the given height, filled from the left. */
  ghost predicate Packed(e: nat, level: nat, ts: seq<Tree>) {
    ts != [] ==> FullAll(e, level, ts[..|ts| - 1]) && Shape(e, level, ts[|ts| - 1])
  }

  /** The requested blocks are mapped below the given pointers, or the pointers are used up. */
  ghost predicate Fits(e: nat, level: nat, ts: seq<Tree>, slots: nat, skip: nat, count: nat) {
    && 0 < slots
    && skip < (if level == 0 then slots else e)
    && (skip + count <= |LeavesAll(ts)| || (|ts| == slots && FullAll(e, level, ts)))
  }

  /** Slots past the last tree are zero, all the way down. */
  ghost predicate Terminated(d: seq<Block>, slots: seq<Word>, ts: seq<Tree>) {
    EndedAll(d, ts) && forall i :: |ts| <= i < |slots| ==> slots[i] == 0
  }

  /** The forest ts of trees of the given height hangs below the first slots. */
  ghost predicate Readable(L: Layout, d: seq<Block>, level: nat, slots: seq<Word>, ts: seq<Tree>) {
    && |ts| <= |slots| && (forall i :: 0 <= i < |ts| ==> slots[i] == ts[i].block)
    && RepAll(d, ts) && Packed(L.Entries(), level, ts)
    && (forall b :: b in BlocksAll(ts) ==> L.IsBlock(b))
  }

  lemma ReadableLeaves(L: Layout, d: seq<Block>, level: nat, slots: seq<Word>, ts: seq<Tree>)
    requires Readable(L, d, level, slots, ts) && L.Image(d)
    ensures forall i :: 0 <= i < |LeavesAll(ts)| ==> L.IsBlock(LeavesAll(ts)[i]) && LeavesAll(ts)[i] < |d|
    ensures |ts| <= |slots|
  {
    BlocksAllSplit(ts);
    forall i | 0 <= i < |LeavesAll(ts)| ensures L.IsBlock(LeavesAll(ts)[i]) {
      assert LeavesAll(ts)[i] in LeavesAll(ts);
      assert LeavesAll(ts)[i] in ToSet(LeavesAll(ts));
    }
  }

  lemma ReadablePacked(L: Layout, d: seq<Block>, level: nat, slots: seq<Word>, ts: seq<Tree>)
    requires Readable(L, d, level, slots, ts)
    ensures Packed(L.Entries(), level, ts) && |ts| <= |slots|
  {
  }

  lemma ReadableEmpty(L: Layout, d: seq<Block>, level: nat, slots: seq<Word>)
    ensures Readable(L, d, level, slots, [])
  {
  }

  /** Trees of height 0 are the data blocks themselves. */
  lemma {:induction false} LeafList(e: nat, ts: seq<Tree>)
    requires Packed(e, 0, ts)
    ensures |LeavesAll(ts)| == |ts| && forall i :: 0 <= i < |ts| ==> ts[i].Leaf? && LeavesAll(ts)[i] == ts[i].block
    decreases |ts|
  {
    if ts != [] {
      var init := ts[..|ts| - 1];
      if init != [] {
        FullAllAt(e, 0, init, |init| - 1);
        FullAllPrefix(e, 0, init, |init| - 1);
      }
      LeafList(e, init);
    }
  }

  /** What one tree of a packed forest is: its subtrees are packed, and full unless it is the last. */
  lemma PackedAt(e: nat, level: nat, ts: seq<Tree>, i: nat)
    requires 0 < e && Packed(e, level, ts) && i < |ts|
    ensures Shape(e, level, ts[i])
    ensures i < |ts| - 1 || FullAll(e, level, ts) ==> Full(e, level, ts[i])
    ensures level > 0 ==> ts[i].Node? && |ts[i].kids| <= e && Packed(e, level - 1, ts[i].kids)
  {
    if i < |ts| - 1 {
      FullAllAt(e, level, ts[..|ts| - 1], i);
      FullIsShape(e, level, ts[i]);
    } else if FullAll(e, level, ts) {
      FullAllAt(e, level, ts, i);
    }
  }

  /** The leaves of tree i are a stretch of the leaves of the forest. */
  lemma LeavesAt(ts: seq<Tree>, i: nat)
    requires i < |ts|
    ensures var o := |LeavesAll(ts[..i])|;
            && o + |Leaves(ts[i])| <= |LeavesAll(ts)|
            && LeavesAll(ts)[o..o + |Leaves(ts[i])|] == Leaves(ts[i])
            && |LeavesAll(ts[..i + 1])| == o + |Leaves(ts[i])|
            && (i + 1 == |ts| ==> o + |Leaves(ts[i])| == |LeavesAll(ts)|)
  {
    LeavesStep(ts, i);
    AllPrefix([], ts, i + 1);
    if i + 1 == |ts| {
      assert ts[..i + 1] == ts;
    }
  }

  /** The request handed down to tree i, when n of count blocks have been moved. */
  lemma FitsBelow(e: nat, level: nat, ts: seq<Tree>, slots: nat, skip: nat, count: nat, i: nat, n: nat, left: nat)
    requires 0 < e && 0 < level && Packed(e, level, ts) && |ts| <= slots && i < slots
    requires Fits(e, level, ts, slots, skip, count) && n < count && i <= |ts|
    requires if i == 0 then n == 0 && left == skip else left == 0 && n + skip == |LeavesAll(ts[..i])|
    ensures i < |ts| && ts[i].Node?
    ensures Fits(e, level - 1, ts[i].kids, e, left, count - n) && left < |Leaves(ts[i])|
    ensures |LeavesAll(ts[..i])| + left == skip + n
    ensures i + 1 < |ts| || |ts| < slots || Take(|Leaves(ts[i])|, left, count - n) + n == Take(|LeavesAll(ts)|, skip, count)
    ensures i + 1 == |ts| && |ts| < slots ==> skip + count <= |LeavesAll(ts)|
    ensures skip <= |LeavesAll(ts)|
  {
    assert ts[..|ts|] == ts;
    if i < |ts| {
      LeavesAt(ts, i);
      PackedAt(e, level, ts, i);
      ShapeLeaves(e, level, ts[i]);
      if Full(e, level, ts[i]) {
        FullLeaves(e, level, ts[i]);
        CapGrows(e, level);
      }
    }
  }

  lemma FitsSkip(e: nat, level: nat, ts: seq<Tree>, slots: nat, skip: nat, count: nat)
    requires 0 < e && 0 < level && 0 < count && Packed(e, level, ts) && |ts| <= slots
    requires Fits(e, level, ts, slots, skip, count)
    ensures skip <= |LeavesAll(ts)|
  {
    FitsBelow(e, level, ts, slots, skip, count, 0, 0, skip);
  }

  lemma CapGrows(e: nat, level: nat)
    requires 0 < e && 0 < level
    ensures Cap(e, level) >= e
  {
    MulMonotone(1, Cap(e, level - 1), e);
  }

  lemma ReadableBelow(L: Layout, d: seq<Block>, level: nat, slots: seq<Word>, ts: seq<Tree>, i: nat)
    requires L.Ok() && L.Image(d) && 0 < level && Readable(L, d, level, slots, ts) && i < |ts|
    ensures ts[i].Node? && L.IsBlock(ts[i].block) && slots[i] == ts[i].block
    ensures |ToWords(d[ts[i].block])| == L.Entries()
    ensures Readable(L, d, level - 1, ToWords(d[ts[i].block]), ts[i].kids)
    ensures Terminated(d, slots, ts) ==> Terminated(d, ToWords(d[ts[i].block]), ts[i].kids)
  {
    AllAt(d, ts, i);
    PackedAt(L.Entries(), level, ts, i);
    assert ts[i].block in Blocks(ts[i]);
  }

  /** The subtrees below slot i, as far as they are known. */
  ghost function KidsAt(ts: seq<Tree>, i: nat): seq<Tree> {
    if i < |ts| && ts[i].Node? then ts[i].kids else []
  }

  /** What is below one slot. */
  lemma SlotReadable(L: Layout, d: seq<Block>, level: nat, slots: seq<Word>, ts: seq<Tree>, i: nat)
    requires L.Ok() && L.Image(d) && 0 < level && Readable(L, d, level, slots, ts) && i < |slots|
    ensures if L.IsBlock(slots[i]) then
              && Readable(L, d, level - 1, ToWords(d[slots[i]]), KidsAt(ts, i))
              && (i < |ts| && Terminated(d, slots, ts) ==> Terminated(d, ToWords(d[slots[i]]), KidsAt(ts, i)))
            else
              i >= |ts| && KidsAt(ts, i) == []
    ensures i < |ts| ==> ts[i].Node?
    ensures i >= |ts| && Terminated(d, slots, ts) ==> slots[i] == 0
  {
    if i < |ts| {
      ReadableBelow(L, d, level, slots, ts, i);
    } else if L.IsBlock(slots[i]) {
      ReadableEmpty(L, d, level - 1, ToWords(d[slots[i]]));
    }
  }

  lemma NoTreesNoLeaves()
    ensures LeavesAll([]) == []
  {
  }

  lemma SlotInRange(L: Layout, d: seq<Block>, level: nat, slots: seq<Word>, ts: seq<Tree>, i: nat)
    requires L.Ok() && L.Image(d) && 0 < level && Readable(L, d, level, slots, ts) && i < |slots|
    ensures forall k :: 0 <= k < |LeavesAll(KidsAt(ts, i))| ==> LeavesAll(KidsAt(ts, i))[k] < |d|
  {
    hide *;
    NoTreesNoLeaves();
    L.ImageFacts(d);
    SlotReadable(L, d, level, slots, ts, i);
    if L.IsBlock(slots[i]) {
      ReadableLeaves(L, d, level - 1, ToWords(d[slots[i]]), KidsAt(ts, i));
    }
  }

  /** What a walk over `slots` slots made of a request for `count` blocks after the first `skip`. */
  ghost predicate Walked(e: nat, level: nat, slots: nat, ended: bool, ts: seq<Tree>, count: nat, skip: nat,
                         r: IoResult, left: nat) {
    && (r.Done? ==> r.count <= count && (r.count > 0 ==> left == 0))
    && (Fits(e, level, ts, slots, skip, count) ==>
          skip <= |LeavesAll(ts)| && r == Done(Take(|LeavesAll(ts)|, skip, count)) && r.count > 0)
    && (ended && r.Done? && r.count > 0 ==> r.count + skip <= |LeavesAll(ts)|)
  }

  /** State of a walk after the first i slots, with n blocks moved. */
  ghost predicate Walking(e: nat, level: nat, slots: nat, ended: bool, ts: seq<Tree>, count: nat, skip: nat, i: nat,
                          n: nat, left: nat) {
    && i <= slots && n <= count && |ts| <= slots
    && (if i == 0 then n == 0 && left == skip else left == 0 && n > 0)
    && (Fits(e, level, ts, slots, skip, count) ==>
          && i <= |ts| && skip + n <= |LeavesAll(ts)|
          && (i > 0 && n < count ==> n + skip == |LeavesAll(ts[..i])|))
    && (ended ==> i <= |ts| && (i > 0 ==> n + skip <= |LeavesAll(ts[..i])|))
  }

  lemma WalkStart(e: nat, level: nat, slots: nat, ended: bool, ts: seq<Tree>, count: nat, skip: nat)
    requires 0 < e && 0 < level && 0 < count && Packed(e, level, ts) && |ts| <= slots
    ensures Walking(e, level, slots, ended, ts, count, skip, 0, 0, skip)
  {
    if Fits(e, level, ts, slots, skip, count) {
      FitsBelow(e, level, ts, slots, skip, count, 0, 0, skip);
    }
  }

  /** The step of a walk: what is asked of tree i, and what its answer means. */
  lemma WalkStep(e: nat, level: nat, slots: nat, ended: bool, ts: seq<Tree>, count: nat, skip: nat,
                 i: nat, n: nat, left: nat, kids: seq<Tree>, r: IoResult, left': nat)
    requires 0 < e && 0 < level && Packed(e, level, ts)
    requires Walking(e, level, slots, ended, ts, count, skip, i, n, left)
    requires n < count && i < slots && (ended ==> i < |ts|)
    requires i < |ts| ==> ts[i].Node? && kids == ts[i].kids
    requires Walked(e, level - 1, e, ended, kids, count - n, left, r, left')
    ensures r.Done? && r.count > 0 ==> Walking(e, level, slots, ended, ts, count, skip, i + 1, n + r.count, left')
    ensures Fits(e, level, ts, slots, skip, count) ==>
              && i < |ts| && Fits(e, level - 1, kids, e, left, count - n)
              && r.Done? && 0 < r.count <= count - n
              && |LeavesAll(ts[..i])| + left == skip + n && skip + n + r.count <= |LeavesAll(ts)|
  {
    hide FullAll, Shape, Packed, Fits;
    if i < |ts| {
      LeavesAt(ts, i);
    }
    if Fits(e, level, ts, slots, skip, count) {
      FitsBelow(e, level, ts, slots, skip, count, i, n, left);
    }
  }

  /** A zero pointer met on the way means that the request was not mapped. */
  lemma WalkHole(e: nat, level: nat, slots: nat, ended: bool, ts: seq<Tree>, count: nat, skip: nat, i: nat, n: nat,
                 left: nat)
    requires 0 < e && 0 < level && Packed(e, level, ts)
    requires Walking(e, level, slots, ended, ts, count, skip, i, n, left)
    requires n < count && i < slots && i >= |ts|
    ensures !Fits(e, level, ts, slots, skip, count)
  {
    if Fits(e, level, ts, slots, skip, count) {
      FitsBelow(e, level, ts, slots, skip, count, i, n, left);
      assert false;
    }
  }

  lemma WalkEnd(e: nat, level: nat, slots: nat, ended: bool, ts: seq<Tree>, count: nat, skip: nat, i: nat, n: nat,
                left: nat)
    requires 0 < count && Walking(e, level, slots, ended, ts, count, skip, i, n, left)
    requires n == count || i == slots
    ensures Walked(e, level, slots, ended, ts, count, skip, Done(n), left)
  {
    assert i == |ts| ==> ts[..i] == ts;
    if ended && n > 0 {
      AllPrefix([], ts, i);
    }
  }

  lemma WalkStopped(e: nat, level: nat, slots: nat, ended: bool, ts: seq<Tree>, count: nat, skip: nat, r: IoResult,
                    left: nat)
    requires !Fits(e, level, ts, slots, skip, count) && (r == Failed || r == Done(0))
    ensures Walked(e, level, slots, ended, ts, count, skip, r, left)
  {
  }

  lemma WalkedWeaker(e: nat, level: nat, slots: nat, ended: bool, ended': bool, ts: seq<Tree>, count: nat, skip: nat,
                     r: IoResult, left: nat)
    requires Walked(e, level, slots, ended, ts, count, skip, r, left) && (ended' ==> ended)
    ensures Walked(e, level, slots, ended', ts, count, skip, r, left)
  {
  }

  /** What happened at slot i when the request is mapped. */
  ghost predicate SlotDelivers(e: nat, level: nat, ts: seq<Tree>, count: nat, skip: nat, i: nat, n: nat, left: nat,
                               r: IoResult)
    requires 0 < level
  {
    && i < |ts| && r.Done? && 0 < r.count <= count - n
    && Fits(e, level - 1, KidsAt(ts, i), e, left, count - n)
    && |LeavesAll(ts[..i])| + left == skip + n && skip + n + r.count <= |LeavesAll(ts)|
    && |LeavesAll(ts[..i])| + |LeavesAll(KidsAt(ts, i))| <= |LeavesAll(ts)|
    && LeavesAll(ts)[|LeavesAll(ts[..i])|..|LeavesAll(ts[..i])| + |LeavesAll(KidsAt(ts, i))|] == LeavesAll(KidsAt(ts, i))
  }

  lemma SlotGoes(e: nat, level: nat, slots: nat, ended: bool, ts: seq<Tree>, count: nat, skip: nat,
                 i: nat, n: nat, left: nat, r: IoResult, left': nat)
    requires 0 < e && 0 < level && Packed(e, level, ts)
    requires Walking(e, level, slots, ended, ts, count, skip, i, n, left)
    requires n < count && i < slots && (ended ==> i < |ts|) && (i < |ts| ==> ts[i].Node?)
    requires Walked(e, level - 1, e, ended, KidsAt(ts, i), count - n, left, r, left')
    ensures r.Done? && r.count > 0 ==>
              n + r.count <= count && Walking(e, level, slots, ended, ts, count, skip, i + 1, n + r.count, left')
    ensures Fits(e, level, ts, slots, skip, count) ==>
              && i < |ts| && r.Done? && r.count > 0 && Fits(e, level - 1, KidsAt(ts, i), e, left, count - n)
              && SlotDelivers(e, level, ts, count, skip, i, n, left, r)
  {
    hide Packed, FullAll, Shape, Fits, Walking;
    WalkStep(e, level, slots, ended, ts, count, skip, i, n, left, KidsAt(ts, i), r, left');
    if i < |ts| {
      LeavesAt(ts, i);
    }
  }

  /** The step of a walk over slots: either it ends here and the request was not mapped, or it goes on. */
  lemma SlotStep(L: Layout, d: seq<Block>, level: nat, slots: seq<Word>, ts: seq<Tree>, ended: bool, count: nat,
                 skip: nat,
                 i: nat, n: nat, left: nat, r: IoResult, left': nat)
    requires L.Ok() && L.Image(d) && 0 < level && Readable(L, d, level, slots, ts)
    requires Walking(L.Entries(), level, |slots|, ended, ts, count, skip, i, n, left)
    requires n < count && i < |slots| && (ended ==> Terminated(d, slots, ts))
    requires slots[i] == 0 ==> r == Failed
    requires slots[i] != 0 ==>
               Walked(L.Entries(), level - 1, L.Entries(), L.IsBlock(slots[i]) && Terminated(d, ToWords(d[slots[i]]), KidsAt(ts, i)),
                      KidsAt(ts, i), count - n, left, r, left')
    ensures r == Failed || r == Done(0) ==>
              && Walked(L.Entries(), level, |slots|, ended, ts, count, skip, r, left')
              && !Fits(L.Entries(), level, ts, |slots|, skip, count)
    ensures r.Done? && r.count > 0 ==>
              && n + r.count <= count
              && Walking(L.Entries(), level, |slots|, ended, ts, count, skip, i + 1, n + r.count, left')
    ensures Fits(L.Entries(), level, ts, |slots|, skip, count) ==>
              && i < |ts| && L.IsBlock(slots[i]) && r.Done? && Fits(L.Entries(), level - 1, KidsAt(ts, i), L.Entries(), left, count - n)
              && SlotDelivers(L.Entries(), level, ts, count, skip, i, n, left, r)
  {
    hide *;
    L.ImageFacts(d);
    ReadablePacked(L, d, level, slots, ts);
    var e := L.Entries();
    L.EntriesPositive();
    SlotReadable(L, d, level, slots, ts, i);
    if slots[i] == 0 {
      WalkHole(e, level, |slots|, ended, ts, count, skip, i, n, left);
    } else {
      WalkedWeaker(e, level - 1, e, L.IsBlock(slots[i]) && Terminated(d, ToWords(d[slots[i]]), KidsAt(ts, i)), ended,
                   KidsAt(ts, i), count - n, left, r, left');
      SlotGoes(e, level, |slots|, ended, ts, count, skip, i, n, left, r, left');
    }
    if r == Failed || r == Done(0) {
      WalkStopped(e, level, |slots|, ended, ts, count, skip, r, left');
    }
  }
}
