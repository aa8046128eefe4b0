/** The 15 entries of an inode as the top of the walk: 12 direct entries, then the trees of height 1, 2 and 3. */
module FileWalks {
  import opened Codec
  import opened Layouts
  import opened Partitions
  import opened Trees
  import opened Files
  import opened Walks

  /** The disk stores the file below the first entries, in real blocks. */
  ghost predicate Stored(L: Layout, d: seq<Block>, iblock: seq<Word>, file: seq<Tree>) {
    && |iblock| == 15 && |file| <= 15
    && (forall i :: 0 <= i < |file| ==> iblock[i] == file[i].block)
    && RepAll(d, file) && FileShape(L.Entries(), file)
    && forall b :: b in BlocksAll(file) ==> L.IsBlock(b)
  }

  /** Nothing but the file is below the entries: all other pointers are zero. */
  ghost predicate FileEnded(d: seq<Block>, iblock: seq<Word>, file: seq<Tree>)
    requires |iblock| == 15
  {
    EndedAll(d, file) && forall i :: |file| <= i < 15 ==> iblock[i] == 0
  }

  /** The requested blocks exist, and start among the 12 direct ones. */
  predicate InFile(file: seq<Tree>, skip: nat, count: nat) {
    skip < 12 && skip + count <= |LeavesAll(file)|
  }

  function Direct(file: seq<Tree>): seq<Tree> {
    if |file| <= 12 then file else file[..12]
  }

  /** What is known to hang below entry i. */
  function Entry(file: seq<Tree>, i: nat): seq<Tree> {
    if i < |file| then [file[i]] else []
  }

  lemma StoredLeaves(L: Layout, d: seq<Block>, iblock: seq<Word>, file: seq<Tree>)
    requires Stored(L, d, iblock, file) && L.Image(d)
    ensures forall i :: 0 <= i < |LeavesAll(file)| ==> L.IsBlock(LeavesAll(file)[i]) && LeavesAll(file)[i] < |d|
    ensures |iblock| == 15 && |file| <= 15
  {
    BlocksAllSplit(file);
    forall i | 0 <= i < |LeavesAll(file)| ensures L.IsBlock(LeavesAll(file)[i]) {
      assert LeavesAll(file)[i] in LeavesAll(file);
      assert LeavesAll(file)[i] in ToSet(LeavesAll(file));
    }
  }

  lemma {:induction false} LeafFull(e: nat, ts: seq<Tree>)
    requires forall i :: 0 <= i < |ts| ==> ts[i].Leaf?
    ensures FullAll(e, 0, ts)
    decreases |ts|
  {
    if ts != [] {
      LeafFull(e, ts[..|ts| - 1]);
    }
  }

  lemma DirectReadable(L: Layout, d: seq<Block>, iblock: seq<Word>, file: seq<Tree>)
    requires Stored(L, d, iblock, file)
    ensures |iblock| == 15 && Readable(L, d, 0, iblock[..12], Direct(file))
    ensures FileEnded(d, iblock, file) ==> Terminated(d, iblock[..12], Direct(file))
    ensures FullAll(L.Entries(), 0, Direct(file)) && |LeavesAll(Direct(file))| == |Direct(file)|
    ensures forall i :: 0 <= i < |Direct(file)| ==> LeavesAll(Direct(file))[i] == iblock[i]
  {
    var ts := Direct(file);
    if |file| > 12 {
      AllPrefix(d, file, 12);
    }
    assert forall i :: 0 <= i < |ts| ==> Shape(L.Entries(), Height(i), file[i]);
    LeafFull(L.Entries(), ts);
    if ts != [] {
      FullAllPrefix(L.Entries(), 0, ts, |ts| - 1);
    }
    LeafList(L.Entries(), ts);
  }

  lemma EntryReadable(L: Layout, d: seq<Block>, iblock: seq<Word>, file: seq<Tree>, i: nat)
    requires Stored(L, d, iblock, file) && i < 15
    ensures Readable(L, d, Height(i), [iblock[i]], Entry(file, i))
    ensures |iblock| == 15 && (FileEnded(d, iblock, file) ==> Terminated(d, [iblock[i]], Entry(file, i)))
    ensures i < |file| ==> LeavesAll(Entry(file, i)) == Leaves(file[i])
  {
    if i < |file| {
      AllAt(d, file, i);
      var ts := [file[i]];
      assert ts[..0] == [];
      assert FullAll(L.Entries(), Height(i), []);
    }
  }

  /** State of the walk after the first i entries, with n blocks moved. */
  ghost predicate FileWalking(file: seq<Tree>, ended: bool, count: nat, skip: nat, i: nat, n: nat) {
    && 12 <= i <= 15 && n <= count
    && (InFile(file, skip, count) ==> n == count || (i < |file| && n + skip == |LeavesAll(file[..i])|))
    && (ended ==> n + skip <= |LeavesAll(file)| && (i < |file| ==> n + skip <= |LeavesAll(file[..i])|))
  }

  /** After the direct entries. */
  lemma FileWalkStart(L: Layout, d: seq<Block>, iblock: seq<Word>, file: seq<Tree>, ended: bool, count: nat,
                      skip: nat, r: IoResult, left: nat)
    requires L.Ok() && L.Image(d) && Stored(L, d, iblock, file) && (ended ==> FileEnded(d, iblock, file)) && 0 < count
    requires Walked(L.Entries(), 0, 12, ended, Direct(file), count, skip, r, left)
    ensures r == Failed || r == Done(0) ==> !InFile(file, skip, count)
    ensures r.Done? && r.count > 0 ==> r.count <= count && left == 0 && FileWalking(file, ended, count, skip, 12, r.count)
    ensures InFile(file, skip, count) ==>
              && Fits(L.Entries(), 0, Direct(file), 12, skip, count)
              && r.Done? && skip + r.count <= |LeavesAll(file)|
              && |LeavesAll(Direct(file))| <= |LeavesAll(file)|
              && LeavesAll(file)[0..|LeavesAll(Direct(file))|] == LeavesAll(Direct(file))
  {
    DirectReadable(L, d, iblock, file);
    if |file| > 12 {
      AllPrefix(d, file, 12);
    }
  }

  /** One of the entries 12 to 14. */
  lemma FileWalkStep(L: Layout, d: seq<Block>, iblock: seq<Word>, file: seq<Tree>, ended: bool, count: nat, skip: nat,
                     i: nat, n: nat, r: IoResult, left: nat)
    requires L.Ok() && L.Image(d) && Stored(L, d, iblock, file) && (ended ==> FileEnded(d, iblock, file)) && 0 < n < count
    requires i < 15 && FileWalking(file, ended, count, skip, i, n)
    requires Walked(L.Entries(), Height(i), 1, ended, Entry(file, i), count - n, 0, r, left)
    ensures r == Failed || r == Done(0) ==> !InFile(file, skip, count)
    ensures r.Done? && r.count > 0 ==>
              n + r.count <= count && left == 0 && FileWalking(file, ended, count, skip, i + 1, n + r.count)
    ensures InFile(file, skip, count) ==>
              && i < |file| && Fits(L.Entries(), Height(i), Entry(file, i), 1, 0, count - n) && r.Done?
              && |LeavesAll(file[..i])| == skip + n && skip + n + r.count <= |LeavesAll(file)|
              && |LeavesAll(file[..i])| + |LeavesAll(Entry(file, i))| <= |LeavesAll(file)|
              && LeavesAll(file)[|LeavesAll(file[..i])|..|LeavesAll(file[..i])| + |LeavesAll(Entry(file, i))|] == LeavesAll(Entry(file, i))
  {
    hide Shape, RepAll, EndedAll, BlocksAll, FullAll, Readable, Layout.Ok, Layout.Image;
    L.EntriesPositive();
    EntryReadable(L, d, iblock, file, i);
    if i < |file| {
      LeavesAt(file, i);
      AllPrefix(d, file, i + 1);
      EntryFull(L, d, iblock, file, i);
    }
  }

  /** An entry with another one behind it is in full use. */
  lemma EntryFull(L: Layout, d: seq<Block>, iblock: seq<Word>, file: seq<Tree>, i: nat)
    requires Stored(L, d, iblock, file) && i < |file|
    ensures i + 1 < |file| ==> FullAll(L.Entries(), Height(i), Entry(file, i))
  {
    if i + 1 < |file| {
      FullAppend(L.Entries(), Height(i), [], file[i]);
      assert [] + [file[i]] == [file[i]];
    }
  }

  lemma FileWalkEnd(file: seq<Tree>, ended: bool, count: nat, skip: nat, i: nat, n: nat)
    requires FileWalking(file, ended, count, skip, i, n) && |file| <= 15 && (i == 15 || n == count)
    ensures InFile(file, skip, count) ==> n == count
    ensures ended && n == count && skip < 12 ==> InFile(file, skip, count)
  {
  }

  lemma HeightPositive(i: nat)
    requires 12 <= i < 15
    ensures Height(i) == i - 11 > 0
  {
  }
}
