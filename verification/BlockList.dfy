/** Flattening a file into the list of its data blocks, and freeing them. */
module BlockList {
  import opened Codec
  import opened Layouts
  import opened Partitions
  import opened Trees
  import opened Files
  import opened Walks
  import opened FileWalks
  import opened BlockMap
  import Allocator

  const INODE_BLOCK_END := 0xFFFF_FFFF

  /** The list holds the given blocks from `at` on, and is otherwise as before. */
  ghost predicate Listed(before: seq<Word>, at: nat, ls: seq<nat>, after: seq<Word>) {
    && at + |ls| <= |before| == |after|
    && (forall k :: 0 <= k < |ls| ==> after[at + k] == ls[k])
    && (forall k :: 0 <= k < |before| && !(at <= k < at + |ls|) ==> after[k] == before[k])
  }

  lemma ListedJoin(before: seq<Word>, at: nat, ls: seq<nat>, mid: seq<Word>, ms: seq<nat>, after: seq<Word>)
    requires Listed(before, at, ls, mid) && Listed(mid, at + |ls|, ms, after)
    ensures Listed(before, at, ls + ms, after)
  {
    forall k | 0 <= k < |ls + ms| ensures after[at + k] == (ls + ms)[k] {
      if k >= |ls| {
        assert after[(at + |ls|) + (k - |ls|)] == ms[k - |ls|];
      }
    }
  }

  /** A tree stored with zeroes behind its last pointers, in real blocks. */
  ghost predicate Loadable(L: Layout, d: seq<Block>, level: nat, t: Tree) {
    && Rep(d, t) && Ended(d, t) && Shape(L.Entries(), level, t)
    && forall b :: b in Blocks(t) ==> L.IsBlock(b)
  }

  lemma LoadableBelow(L: Layout, d: seq<Block>, level: nat, t: Tree, i: nat)
    requires L.Ok() && L.Image(d) && 0 < level && Loadable(L, d, level, t)
    ensures t.Node? && L.IsBlock(t.block) && t.block < |d| && |t.kids| <= L.Entries()
    ensures i < |t.kids| ==> Loadable(L, d, level - 1, t.kids[i]) && ToWords(d[t.block])[i] == t.kids[i].block
    ensures i < |t.kids| ==> 0 < t.kids[i].block < INODE_BLOCK_END && (level == 1 ==> Leaves(t.kids[i]) == [t.kids[i].block])
    ensures |t.kids| <= i < L.Entries() ==> ToWords(d[t.block])[i] == 0
  {
    if i < |t.kids| {
      AllAt(d, t.kids, i);
      var n := |t.kids| - 1;
      if i < n {
        FullAllAt(L.Entries(), level - 1, t.kids[..n], i);
        FullIsShape(L.Entries(), level - 1, t.kids[i]);
      }
      assert t.kids[i].block in Blocks(t.kids[i]);
    }
  }

  /**
   The functions that load the list below a single, double and triple indirect block, by height.
   They stop at the first zero or end mark. Block 0 is not read: the list is then empty if the buffer was cleared.
   */
  method LoadLevel(p: Partition, level: nat, block: Word, list: array<Word>, at: nat, ghost t: Tree) returns (n: nat)
    requires p.Shaped() && 0 < level
    requires if block == 0 then p.cleared
             else Loadable(p.L, p.disk[..], level, t) && t.block == block && at + |Leaves(t)| <= list.Length
    modifies list
    ensures block == 0 ==> n == 0 && list[..] == old(list[..])
    ensures block != 0 ==> n == |Leaves(t)| && Listed(old(list[..]), at, Leaves(t), list[..])
    decreases level
  {
    hide *;
    p.ShapedFacts();
    ghost var d, kids, before := p.disk[..], KidsOf(t), list[..];
    if block != 0 {
      LoadableBelow(p.L, d, level, t, 0);
      LoadingStart(t, before, at);
    }
    var words: seq<Word> := p.Malloc();
    var status, data := p.ReadBlock(block, ToBytes(words));
    WordsOfBytes(words);
    words := ToWords(data);
    n := 0;
    var i: nat := 0;
    while i < |words|
      invariant block == 0 ==> i == 0 && n == 0 && list[..] == before
      invariant block != 0 ==> Loading(kids, before, at, i, n, list[..])
    {
      if block != 0 {
        LoadableBelow(p.L, d, level, t, i);
      }
      if words[i] == 0 || words[i] == INODE_BLOCK_END {
        break;
      }
      LoadingRoom(t, before, at, i, n, list[..]);
      ghost var now := list[..];
      var more: nat := 1;
      if level == 1 {
        list[at + n] := words[i];
        ListedOne(now, at + n, words[i], list[..]);
      } else {
        more := LoadLevel(p, level - 1, words[i], list, at + n, kids[i]);
      }
      LoadingStep(kids, before, at, i, n, now, list[..]);
      n := n + more;
      i := i + 1;
    }
    if block != 0 {
      LoadableBelow(p.L, d, level, t, i);
      LoadingEnd(t, before, at, i, n, list[..]);
    }
  }

  /** State of the loading loop after i subtrees. */
  ghost predicate Loading(kids: seq<Tree>, before: seq<Word>, at: nat, i: nat, n: nat, now: seq<Word>) {
    i <= |kids| && n == |LeavesAll(kids[..i])| && Listed(before, at, LeavesAll(kids[..i]), now)
  }

  lemma LoadingStart(t: Tree, before: seq<Word>, at: nat)
    requires t.Node? && at + |Leaves(t)| <= |before|
    ensures KidsOf(t) == t.kids && Loading(t.kids, before, at, 0, 0, before)
  {
  }

  lemma LoadingRoom(t: Tree, before: seq<Word>, at: nat, i: nat, n: nat, now: seq<Word>)
    requires t.Node? && Loading(t.kids, before, at, i, n, now) && i < |t.kids| && at + |Leaves(t)| <= |before|
    ensures |now| == |before| && at + n + |Leaves(t.kids[i])| <= |before|
  {
    LeavesAt(t.kids, i);
  }

  lemma LoadingStep(kids: seq<Tree>, before: seq<Word>, at: nat, i: nat, n: nat, now: seq<Word>, after: seq<Word>)
    requires Loading(kids, before, at, i, n, now) && i < |kids| && Listed(now, at + n, Leaves(kids[i]), after)
    ensures Loading(kids, before, at, i + 1, n + |Leaves(kids[i])|, after)
  {
    LeavesStep(kids, i);
    ListedJoin(before, at, LeavesAll(kids[..i]), now, Leaves(kids[i]), after);
  }

  lemma LoadingEnd(t: Tree, before: seq<Word>, at: nat, i: nat, n: nat, now: seq<Word>)
    requires t.Node? && Loading(t.kids, before, at, i, n, now) && i >= |t.kids|
    ensures n == |Leaves(t)| && Listed(before, at, Leaves(t), now)
  {
    assert t.kids[..|t.kids|] == t.kids;
  }

  ghost function KidsOf(t: Tree): seq<Tree> {
    if t.Node? then t.kids else []
  }

  lemma ListedNothing(list: seq<Word>, at: nat)
    requires at <= |list|
    ensures Listed(list, at, [], list)
  {
  }

  lemma ListedOne(before: seq<Word>, at: nat, b: Word, after: seq<Word>)
    requires at < |before| && after == before[at := b]
    ensures Listed(before, at, [b], after)
  {
  }

  lemma EntryLoadable(L: Layout, d: seq<Block>, iblock: seq<Word>, file: seq<Tree>, i: nat)
    requires L.Ok() && Stored(L, d, iblock, file) && FileEnded(d, iblock, file) && i < |file|
    ensures Loadable(L, d, Height(i), file[i]) && iblock[i] == file[i].block && 0 < file[i].block
    ensures i < 12 ==> Leaves(file[i]) == [file[i].block]
  {
    AllAt(d, file, i);
    assert file[i].block in Blocks(file[i]);
  }

  /**
   The lists of n blocks that can be loaded: direct blocks only, or everything below the first entries.
   With any other n below the size of the file the array would be overrun.
   */
  ghost predicate Sized(file: seq<Tree>, n: nat) {
    && n <= |LeavesAll(file)|
    && (n <= 12 || exists j :: 12 < j <= |file| && n == |LeavesAll(file[..j])|)
  }

  lemma SizedWhole(file: seq<Tree>, n: nat)
    requires n == |LeavesAll(file)|
    ensures 12 < |file| ==> Sized(file, n)
    ensures n <= 12 ==> Sized(file, n)
  {
    assert file[..|file|] == file;
  }

  /** The direct entries, up to the length of the list. */
  method LoadDirect(p: Partition, iblock: seq<Word>, list: array<Word>, ghost file: seq<Tree>) returns (index: nat)
    requires p.Shaped() && Stored(p.L, p.disk[..], iblock, file) && FileEnded(p.disk[..], iblock, file)
    modifies list
    ensures |LeavesAll(Direct(file))| == |Direct(file)|
    ensures index == if list.Length <= |Direct(file)| then list.Length else |Direct(file)|
    ensures Listed(old(list[..]), 0, LeavesAll(Direct(file))[..index], list[..])
  {
    hide Listed, Layout.Ok, Layout.Image, Stored, RepAll, EndedAll;
    p.ShapedFacts();
    ghost var ls := LeavesAll(Direct(file));
    StoredCount(p.L, p.disk[..], iblock, file);
    index := 0;
    ListedNothing(list[..], 0);
    var i: nat := 0;
    while i < 12 && index < list.Length
      invariant i <= 12 && index == (if i <= |Direct(file)| then i else |Direct(file)|)
      invariant index <= list.Length && Listed(old(list[..]), 0, ls[..index], list[..])
    {
      if i < |file| {
        EntryLoadable(p.L, p.disk[..], iblock, file, i);
      }
      DirectReadable(p.L, p.disk[..], iblock, file);
      if iblock[i] > 0 {
        ghost var now := list[..];
        list[index] := iblock[i];
        ListedOne(now, index, iblock[i], list[..]);
        ListedJoin(old(list[..]), 0, ls[..index], now, [iblock[i] as nat], list[..]);
        assert ls[..index] + [iblock[i] as nat] == ls[..index + 1];
        index := index + 1;
      }
      i := i + 1;
    }
  }

  ghost function Front(file: seq<Tree>, i: nat): seq<Tree> {
    if i < |file| then file[..i] else file
  }

  /** The next entry: a tree that still fits in the list, or nothing. */
  lemma NextEntry(L: Layout, d: seq<Block>, iblock: seq<Word>, file: seq<Tree>, i: nat, n: nat)
    requires L.Ok() && Stored(L, d, iblock, file) && FileEnded(d, iblock, file) && 12 <= i < 15
    requires (Sized(file, n) || |LeavesAll(file)| < n) && |LeavesAll(Front(file, i))| < n
    ensures |iblock| == 15 && |LeavesAll(Front(file, i + 1))| <= n
    ensures i < |file| ==> Loadable(L, d, Height(i), file[i]) && iblock[i] == file[i].block != 0
    ensures i < |file| ==> LeavesAll(Front(file, i + 1)) == LeavesAll(Front(file, i)) + Leaves(file[i])
    ensures i >= |file| ==> iblock[i] == 0 && Front(file, i + 1) == Front(file, i) && |LeavesAll(file)| < n
  {
    if i < |file| {
      EntryLoadable(L, d, iblock, file, i);
      LeavesStep(file, i);
      assert i + 1 == |file| ==> file[..i + 1] == file;
      if |LeavesAll(file)| >= n {
        DirectReadable(L, d, iblock, file);
        NextBoundary(file, i, n);
      } else {
        AllPrefix([], file, i + 1);
      }
    }
  }

  /** The next entry ends at or before the boundary at which the list ends. */
  lemma NextBoundary(file: seq<Tree>, i: nat, n: nat)
    requires 12 <= i < |file| && Sized(file, n) && |LeavesAll(file[..i])| < n && |LeavesAll(file[..12])| == 12
    ensures |LeavesAll(file[..i + 1])| <= n
  {
    AllPrefix([], file[..i], 12);
    assert file[..i][..12] == file[..12];
    var j :| 12 < j <= |file| && n == |LeavesAll(file[..j])|;
    PrefixOrder(file, j, i);
    PrefixOrder(file, i + 1, j);
  }

  /** A longer front has at least as many leaves. */
  lemma PrefixOrder(file: seq<Tree>, i: nat, j: nat)
    ensures i <= j <= |file| ==> |LeavesAll(file[..i])| <= |LeavesAll(file[..j])|
  {
    if i <= j <= |file| {
      AllPrefix([], file[..j], i);
      assert file[..j][..i] == file[..i];
    }
  }

  lemma ListedEnd(before: seq<Word>, ls: seq<nat>, after: seq<Word>, all: seq<nat>)
    requires Listed(before, 0, ls, after) && |ls| == |after| && ls <= all
    ensures after == all[..|after|]
  {
  }

  /** The direct entries are the front of the file. */
  lemma DirectFront(file: seq<Tree>, index: nat)
    requires index <= |LeavesAll(Direct(file))|
    ensures Direct(file) == Front(file, 12) && LeavesAll(Direct(file))[..index] <= LeavesAll(file)
    ensures LeavesAll(Direct(file))[..|LeavesAll(Direct(file))|] == LeavesAll(Direct(file))
  {
    if 12 < |file| {
      AllPrefix([], file, 12);
    }
  }

  lemma FrontPrefix(file: seq<Tree>, i: nat)
    ensures LeavesAll(Front(file, i)) <= LeavesAll(file)
    ensures i >= |file| ==> Front(file, i) == file
  {
    if i < |file| {
      AllPrefix([], file, i);
    }
  }

  /**
   ext2_load_block_list for a file that is to have n blocks. It never writes past its array, succeeds when the file has
   that many blocks, and gives up when it has fewer.
   */
  method LoadBlockList(p: Partition, iblock: seq<Word>, n: nat, ghost file: seq<Tree>)
    returns (ok: bool, list: array<Word>)
    requires p.Shaped() && Stored(p.L, p.disk[..], iblock, file) && FileEnded(p.disk[..], iblock, file)
    requires Sized(file, n) || (|LeavesAll(file)| < n && p.cleared)
    ensures fresh(list) && list.Length == n
    ensures ok <==> n <= |LeavesAll(file)|
    ensures ok ==> list[..] == LeavesAll(file)[..n]
    ensures ok ==> |iblock| == 15 && p.L.Entries() > 0
                   && forall k :: 0 <= k < n ==> list[k] == FileBlock(p.disk[..], p.L.Entries(), iblock, k)
  {
    hide Listed, Layout.Ok, Layout.Image, Stored, FileEnded, LeavesAll, RepAll, EndedAll, Loadable, Sized, Direct, Front,
         FileBlock;
    p.ShapedFacts();
    list := new Word[n];
    ghost var before, d, all := list[..], p.disk[..], LeavesAll(file);
    StoredCount(p.L, d, iblock, file);
    SizedCount(file, n);
    var index: nat := LoadDirect(p, iblock, list, file);
    DirectFront(file, index);
    if index == n {
      ListedEnd(before, LeavesAll(Direct(file))[..index], list[..], all);
    }
    var i: nat := 12;
    while i < 15
      invariant 12 <= i <= 15 && index <= n && index <= |all|
      invariant index == n ==> list[..] == all[..n]
      invariant index < n ==> index == |LeavesAll(Front(file, i))| && Listed(before, 0, LeavesAll(Front(file, i)), list[..])
    {
      if index < n {
        NextEntry(p.L, d, iblock, file, i, n);
        ghost var now, t := list[..], if i < |file| then file[i] else Leaf(0);
        var more: nat := LoadLevel(p, i - 11, iblock[i], list, index, t);
        if i < |file| {
          ListedJoin(before, 0, LeavesAll(Front(file, i)), now, Leaves(t), list[..]);
        }
        index := index + more;
        FrontPrefix(file, i + 1);
        if index == n {
          ListedEnd(before, LeavesAll(Front(file, i + 1)), list[..], all);
        }
      }
      i := i + 1;
    }
    FrontPrefix(file, 15);
    ok := index == n;
    if ok {
      ListedBlocks(p.L, d, iblock, file, list[..], n);
    }
  }

  /** The blocks of the list, by their numbers in the file. */
  lemma ListedBlocks(L: Layout, d: seq<Block>, iblock: seq<Word>, file: seq<Tree>, list: seq<Word>, n: nat)
    requires L.Entries() > 0 && Stored(L, d, iblock, file) && n <= |LeavesAll(file)| && list == LeavesAll(file)[..n]
    ensures |iblock| == 15 && forall k :: 0 <= k < n ==> list[k] == FileBlock(d, L.Entries(), iblock, k)
  {
    hide FileBlock;
    forall k | 0 <= k < n ensures |iblock| == 15 && list[k] == FileBlock(d, L.Entries(), iblock, k) {
      FileBlockIs(L, d, iblock, file, k);
    }
  }

  lemma StoredCount(L: Layout, d: seq<Block>, iblock: seq<Word>, file: seq<Tree>)
    requires Stored(L, d, iblock, file)
    ensures |iblock| == 15 && |file| <= 15
    ensures |LeavesAll(Direct(file))| == |Direct(file)|
  {
    DirectReadable(L, d, iblock, file);
  }

  lemma SizedCount(file: seq<Tree>, n: nat)
    ensures Sized(file, n) ==> n <= |LeavesAll(file)|
  {
  }

  // ----- Freeing -----

  /** Nothing but bitmaps changed. */
  ghost predicate BitmapsOnly(L: Layout, d0: seq<Block>, d1: seq<Block>) {
    |d0| == |d1| && forall b :: 0 <= b < |d0| && b !in L.bitmaps ==> d1[b] == d0[b]
  }

  lemma MarkFreeBitmapsOnly(L: Layout, d0: seq<Block>, d: seq<Block>, b: nat)
    requires L.Ok() && L.Image(d) && L.IsBlock(b) && BitmapsOnly(L, d0, d)
    ensures BitmapsOnly(L, d0, L.MarkFree(d, b))
  {
    L.NumberOfBlock(b);
  }

  /** One more block at the front of a list without repetitions. */
  lemma FrontStep(blocks: seq<Word>, i: nat, n: nat, free: set<nat>)
    requires i < n <= |blocks|
    ensures ToSet(blocks[i..n]) == {blocks[i] as nat} + ToSet(blocks[i + 1..n])
    ensures NoDup(blocks[i..n]) && ToSet(blocks[i..n]) !! free <==>
            && NoDup(blocks[i + 1..n]) && ToSet(blocks[i + 1..n]) !! free
            && blocks[i] !in free + ToSet(blocks[i + 1..n])
  {
    var s: seq<nat>, t: seq<nat>, b: nat := blocks[i..n], blocks[i + 1..n], blocks[i];
    var one: seq<nat> := [b];
    assert s == one + t;
    ToSetConcat(one, t);
    assert one[0] in one;
    assert ToSet(one) == {b};
    if NoDup(t) && b !in ToSet(t) {
      NoDupConcat(one, t);
    }
    if NoDup(s) {
      forall j, k | 0 <= j < k < |t| ensures t[j] != t[k] {
        assert s[j + 1] != s[k + 1];
      }
      forall k | 0 <= k < |t| ensures t[k] != blocks[i] {
        assert s[k + 1] != s[0];
      }
    }
  }

  lemma {:induction false} BackSteps(blocks: seq<Word>, i: nat, j: nat, n: nat, free: set<nat>)
    requires j <= i <= n <= |blocks|
    requires NoDup(blocks[j..n]) && ToSet(blocks[j..n]) !! free
    ensures NoDup(blocks[i..n]) && ToSet(blocks[i..n]) !! free
    decreases i - j
  {
    if j < i {
      FrontStep(blocks, j, n, free);
      BackSteps(blocks, i, j + 1, n, free);
    }
  }

  lemma InUse(p: Partition)
    requires p.Valid()
    ensures p.Shaped() && p.L.Ok() && p.L.Image(p.disk[..]) && p.Free() == p.L.FreeSet(p.disk[..])
  {
  }

  /**
   Frees the first n listed blocks, last to first. It gives up at the first block that is free already;
   that happens unless the blocks are distinct and all in use.
   */
  method DeallocateBlocks(p: Partition, blocks: array<Word>, n: nat) returns (freed: nat)
    requires p.Valid() && n <= blocks.Length
    requires forall k :: 0 <= k < n ==> p.L.IsBlock(blocks[k]) && !p.L.Reserved(blocks[k])
    modifies p`groupFree, p`superFree, p.disk
    ensures p.Valid()
    ensures BitmapsOnly(p.L, old(p.disk[..]), p.disk[..])
    ensures freed == n || freed == 0
    ensures freed == n <==> n == 0 || (NoDup(blocks[..n]) && ToSet(blocks[..n]) !! old(p.Free()))
    ensures freed == n ==> p.Free() == old(p.Free()) + ToSet(blocks[..n])
    ensures freed != n ==> exists i :: 0 <= i < n && p.Free() == old(p.Free()) + ToSet(blocks[i + 1..n]) && blocks[i] in p.Free()
  {
    hide *;
    InUse(p);
    ghost var d, free, all := p.disk[..], p.Free(), blocks[..];
    NothingFreed(p.L, d, all, n, free);
    freed := 0;
    var i: int := n - 1;
    while i >= 0
      invariant -1 <= i < n && freed == n - 1 - i
      invariant p.Valid() && p.Shaped() && BitmapsOnly(p.L, d, p.disk[..])
      invariant Freeing(all, i + 1, n, free, p.Free())
    {
      InUse(p);
      ghost var now, left := p.disk[..], p.Free();
      var one := Allocator.DeallocateBlock(p, blocks[i]);
      InUse(p);
      if one == 0 {
        FreeingStopped(all, i, n, free, left);
        return 0;
      }
      FreeingStep(all, i, n, free, left);
      MarkFreeBitmapsOnly(p.L, d, now, blocks[i]);
      freed := freed + 1;
      i := i - 1;
    }
    FreeingDone(all, n, free, p.Free());
  }

  /** The blocks from index i on are freed. */
  ghost predicate Freeing(blocks: seq<Word>, i: nat, n: nat, free: set<nat>, now: set<nat>) {
    i <= n <= |blocks| && now == free + ToSet(blocks[i..n]) && NoDup(blocks[i..n]) && ToSet(blocks[i..n]) !! free
  }

  lemma FreeingStep(blocks: seq<Word>, i: nat, n: nat, free: set<nat>, now: set<nat>)
    requires i < n && Freeing(blocks, i + 1, n, free, now) && blocks[i] as nat !in now
    ensures Freeing(blocks, i, n, free, now + {blocks[i] as nat})
  {
    hide NoDup, ToSet;
    FrontStep(blocks, i, n, free);
  }

  lemma FreeingStopped(blocks: seq<Word>, i: nat, n: nat, free: set<nat>, now: set<nat>)
    requires i < n && Freeing(blocks, i + 1, n, free, now) && blocks[i] as nat in now
    ensures n <= |blocks| && now == free + ToSet(blocks[i + 1..n]) && !(NoDup(blocks[..n]) && ToSet(blocks[..n]) !! free)
  {
    hide NoDup, ToSet;
    FrontStep(blocks, i, n, free);
    if NoDup(blocks[..n]) && ToSet(blocks[..n]) !! free {
      assert blocks[0..n] == blocks[..n];
      BackSteps(blocks, i, 0, n, free);
    }
  }

  lemma FreeingDone(blocks: seq<Word>, n: nat, free: set<nat>, now: set<nat>)
    requires Freeing(blocks, 0, n, free, now)
    ensures n <= |blocks| && now == free + ToSet(blocks[..n]) && NoDup(blocks[..n]) && ToSet(blocks[..n]) !! free
  {
    hide NoDup, ToSet;
    assert blocks[0..n] == blocks[..n];
  }

  lemma NothingFreed(L: Layout, d: seq<Block>, blocks: seq<Word>, n: nat, free: set<nat>)
    requires n <= |blocks|
    ensures BitmapsOnly(L, d, d) && Freeing(blocks, n, n, free, free)
  {
  }
}
