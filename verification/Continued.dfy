/**
 A VARIANT of the read walk, not what the program does: it goes on past a level, or a subtree, that was skipped as a
 whole. The program stops there, so that it reads nothing from block 12 on; the variant reads from every block.
 */
module Continued {
  import opened Codec
  import opened Layouts
  import opened Partitions
  import opened Trees
  import opened Files
  import opened Walks
  import opened FileWalks
  import opened Reading

  /** The requested blocks are mapped below the given pointers, or the pointers are used up; any number is skipped. */
  ghost predicate FitsAny(e: nat, level: nat, ts: seq<Tree>, slots: nat, skip: nat, count: nat) {
    skip + count <= |LeavesAll(ts)| || (|ts| == slots && FullAll(e, level, ts))
  }

  /** What the walk makes of such a request: the blocks that are there, and what is left to skip behind them. */
  ghost predicate Passed(total: nat, count: nat, skip: nat, r: IoResult, left: nat) {
    && r == Done(if skip < total then Take(total, skip, count) else 0)
    && left == if skip < total then 0 else skip - total
  }

  /** State of the walk in front of the blocks from index o on. */
  predicate Passing(o: nat, count: nat, skip: nat, n: nat, left: nat) {
    o + left == skip + n && (left == 0 || n == 0) && n < count
  }

  /** The request handed down to tree i. */
  lemma PassBelow(e: nat, level: nat, ts: seq<Tree>, slots: nat, count: nat, skip: nat, i: nat, n: nat, left: nat)
    requires 0 < e && 0 < level && Packed(e, level, ts) && i < slots && FitsAny(e, level, ts, slots, skip, count)
    requires i <= |ts| <= slots && Passing(|LeavesAll(ts[..i])|, count, skip, n, left)
    ensures i < |ts| && ts[i].Node? && KidsAt(ts, i) == ts[i].kids && LeavesAll(KidsAt(ts, i)) == Leaves(ts[i])
    ensures FitsAny(e, level - 1, KidsAt(ts, i), e, left, count - n) && 0 < |Leaves(ts[i])|
    ensures var o := |LeavesAll(ts[..i])|;
            && o + |Leaves(ts[i])| == |LeavesAll(ts[..i + 1])| <= |LeavesAll(ts)|
            && LeavesAll(ts)[o..o + |Leaves(ts[i])|] == Leaves(ts[i])
  {
    assert ts[..|ts|] == ts;
    if i < |ts| {
      LeavesAt(ts, i);
      PackedAt(e, level, ts, i);
      ShapeLeaves(e, level, ts[i]);
    }
  }

  /** What its answer means. */
  lemma PassStep(o: nat, size: nat, count: nat, skip: nat, n: nat, left: nat, r: IoResult, left': nat)
    requires Passing(o, count, skip, n, left) && Passed(size, count - n, left, r, left')
    ensures r.Done? && n + r.count <= count
    ensures n + r.count < count ==> Passing(o + size, count, skip, n + r.count, left')
    ensures n + r.count == count ==> left' == 0 && skip + count <= o + size
    ensures left == 0 && 0 < size ==> r.count > 0
    ensures left < size ==> left + r.count <= size && o + left == skip + n
    ensures left >= size ==> r.count == 0
  {
  }

  lemma PassEnd(total: nat, count: nat, skip: nat, n: nat, left: nat)
    requires 0 < count && n <= count
    requires n == count ==> left == 0 && skip + count <= total
    requires n < count ==> Passing(total, count, skip, n, left)
    ensures Passed(total, count, skip, Done(n), left)
  {
  }

  /** The blocks read, or nothing at all behind the last one. */
  ghost predicate Delivered(d: seq<Block>, ls: seq<nat>, skip: nat, k: nat, before: seq<Byte>, at: nat,
                            after: seq<Byte>)
    requires forall i :: 0 <= i < |ls| ==> ls[i] < |d|
  {
    if skip <= |ls| then Filled(d, ls, skip, k, before, at, after) else k == 0 && after == before
  }

  /** The blocks of a request that a subtree answers, behind those of the subtrees before it. */
  lemma PassJoin(d: seq<Block>, size: nat, ls: seq<nat>, kl: seq<nat>, o: nat, count: nat, skip: nat, n: nat,
                 left: nat, k: nat,
                 before: seq<Byte>, at: nat, mid: seq<Byte>, after: seq<Byte>)
    requires forall i :: 0 <= i < |ls| ==> ls[i] < |d|
    requires forall i :: 0 <= i < |kl| ==> kl[i] < |d|
    requires forall b :: 0 <= b < |d| ==> |d[b]| == size
    requires o + |kl| <= |ls| && ls[o..o + |kl|] == kl && Passing(o, count, skip, n, left)
    requires Delivered(d, ls, skip, n, before, at, mid) && Delivered(d, kl, left, k, mid, After(at, n, size), after)
    ensures Delivered(d, ls, skip, n + k, before, at, after)
  {
    hide Filled, After;
    if left <= |kl| {
      FilledJoin(d, size, ls, kl, o, skip, n, left, k, before, at, mid, after);
    }
  }

  lemma DeliveredNone(d: seq<Block>, ls: seq<nat>, skip: nat, before: seq<Byte>, at: nat)
    requires forall i :: 0 <= i < |ls| ==> ls[i] < |d|
    requires at <= |before|
    ensures Delivered(d, ls, skip, 0, before, at, before)
  {
  }

  lemma DeliveredFilled(d: seq<Block>, ls: seq<nat>, skip: nat, k: nat, before: seq<Byte>, at: nat, after: seq<Byte>)
    requires forall i :: 0 <= i < |ls| ==> ls[i] < |d|
    requires skip <= |ls|
    ensures Delivered(d, ls, skip, k, before, at, after) <==> Filled(d, ls, skip, k, before, at, after)
  {
  }

  /** VARIANT: the data blocks that a pointer block names. */
  method ReadLeavesOn(p: Partition, words: seq<Word>, buffer: array<Byte>, at: nat, count: nat, skip: nat,
                      ghost ts: seq<Tree>)
    returns (r: IoResult, left: nat)
    requires p.Shaped() && 0 < count && After(at, count, p.L.blockSize) <= buffer.Length
    requires Readable(p.L, p.disk[..], 0, words, ts)
    modifies buffer
    ensures r.Done? ==> r.count <= count
    ensures FitsAny(p.L.Entries(), 0, ts, |words|, skip, count) ==>
              (ReadableLeaves(p.L, p.disk[..], 0, words, ts);
               && Passed(|LeavesAll(ts)|, count, skip, r, left)
               && Delivered(p.disk[..], LeavesAll(ts), skip, r.count, old(buffer[..]), at, buffer[..]))
  {
    hide Filled, After, Splice, RepAll, FullAll, Packed, BlocksAll;
    ReadableLeaves(p.L, p.disk[..], 0, words, ts);
    LeafList(p.L.Entries(), ts);
    AfterMonotone(at, 0, count, p.L.blockSize);
    AfterMore(at, 0, 0, p.L.blockSize);
    DeliveredNone(p.disk[..], LeavesAll(ts), skip, buffer[..], at);
    r, left := ReadDirect(p, words, buffer, at, count, skip, LeavesAll(ts));
  }

  /** VARIANT: one slot. */
  method ReadSlotOn(p: Partition, level: nat, slot: Word, buffer: array<Byte>, at: nat, count: nat, skip: nat,
                    ghost kids: seq<Tree>)
    returns (r: IoResult, left: nat)
    requires p.Shaped() && 0 < count && After(at, count, p.L.blockSize) <= buffer.Length
    requires if p.L.IsBlock(slot) then Readable(p.L, p.disk[..], level, ToWords(p.disk[slot]), kids) else kids == []
    modifies buffer
    ensures r.Done? ==> r.count <= count
    ensures p.L.IsBlock(slot) && FitsAny(p.L.Entries(), level, kids, p.L.Entries(), skip, count) ==>
              (ReadableLeaves(p.L, p.disk[..], level, ToWords(p.disk[slot]), kids);
               && Passed(|LeavesAll(kids)|, count, skip, r, left)
               && Delivered(p.disk[..], LeavesAll(kids), skip, r.count, old(buffer[..]), at, buffer[..]))
    decreases level, 1
  {
    hide Filled, After, Splice, Readable, FitsAny, Passed, Delivered, Take;
    p.L.EntriesPositive();
    var words: seq<Word> := p.Malloc();
    var status, data := p.ReadBlock(slot, ToBytes(words));
    if status == Done(0) {
      return Failed, skip;
    }
    words := ToWords(data);
    ReadableEmpty(p.L, p.disk[..], level, words);
    ReadableLeaves(p.L, p.disk[..], level, words, kids);
    if level == 0 {
      r, left := ReadLeavesOn(p, words, buffer, at, count, skip, kids);
    } else {
      r, left := ReadLevelOn(p, level, words, buffer, at, count, skip, kids);
    }
  }

  lemma PassStart(ts: seq<Tree>, count: nat, skip: nat)
    requires 0 < count
    ensures Passing(|LeavesAll(ts[..0])|, count, skip, 0, skip)
  {
  }

  /** A slot with a tree below it names a block. */
  lemma SlotIsBlock(L: Layout, d: seq<Block>, level: nat, slots: seq<Word>, ts: seq<Tree>, i: nat)
    requires L.Ok() && L.Image(d) && 0 < level && Readable(L, d, level, slots, ts) && i < |ts|
    ensures i < |slots| && L.IsBlock(slots[i])
  {
    ReadableBelow(L, d, level, slots, ts, i);
  }

  lemma AllOf(ts: seq<Tree>)
    ensures ts[..|ts|] == ts
  {
  }

  lemma FitsEnd(e: nat, level: nat, ts: seq<Tree>, slots: nat, count: nat, skip: nat, i: nat, n: nat, left: nat)
    requires FitsAny(e, level, ts, slots, skip, count) && i == slots && i <= |ts| <= slots && i <= |ts|
    requires Passing(|LeavesAll(ts[..i])|, count, skip, n, left)
    ensures Passing(|LeavesAll(ts)|, count, skip, n, left)
  {
    AllOf(ts);
  }

  /**
   VARIANT: the slots of one level. A subtree that answers nothing ends the walk only if nothing was to be skipped.
   */
  method ReadLevelOn(p: Partition, level: nat, slots: seq<Word>, buffer: array<Byte>, at: nat, count: nat, skip: nat,
                     ghost ts: seq<Tree>)
    returns (r: IoResult, left: nat)
    requires p.Shaped() && 0 < level && 0 < count && After(at, count, p.L.blockSize) <= buffer.Length
    requires Readable(p.L, p.disk[..], level, slots, ts)
    modifies buffer
    ensures r.Done? ==> r.count <= count
    ensures FitsAny(p.L.Entries(), level, ts, |slots|, skip, count) ==>
              (ReadableLeaves(p.L, p.disk[..], level, slots, ts);
               && Passed(|LeavesAll(ts)|, count, skip, r, left)
               && Delivered(p.disk[..], LeavesAll(ts), skip, r.count, old(buffer[..]), at, buffer[..]))
    decreases level, 0
  {
    hide *;
    p.ShapedFacts();
    ghost var e, d, ls := p.L.Entries(), p.disk[..], LeavesAll(ts);
    ghost var fits := FitsAny(e, level, ts, |slots|, skip, count);
    ReadableLeaves(p.L, d, level, slots, ts);
    ReadablePacked(p.L, d, level, slots, ts);
    AfterMore(at, 0, 0, p.L.blockSize);
    AfterMonotone(at, 0, count, p.L.blockSize);
    DeliveredNone(d, ls, skip, buffer[..], at);
    PassStart(ts, count, skip);
    left := skip;
    var n: nat, pos: nat, i: nat := 0, at, 0;
    while i < |slots|
      invariant i <= |slots| && n < count && pos == After(at, n, p.L.blockSize)
      invariant fits ==> i <= |ts| && Passing(|LeavesAll(ts[..i])|, count, skip, n, left)
      invariant fits ==> Delivered(d, ls, skip, n, old(buffer[..]), at, buffer[..])
    {
      ghost var now, kids := buffer[..], KidsAt(ts, i);
      var skipped := left;
      SlotReadable(p.L, d, level, slots, ts, i);
      SlotInRange(p.L, d, level, slots, ts, i);
      AfterMore(at, n, count - n, p.L.blockSize);
      if fits {
        PassBelow(e, level, ts, |slots|, count, skip, i, n, left);
        SlotIsBlock(p.L, d, level, slots, ts, i);
      }
      r, left := ReadSlotOn(p, level - 1, slots[i], buffer, pos, count - n, left, kids);
      if fits {
        PassStep(|LeavesAll(ts[..i])|, |LeavesAll(kids)|, count, skip, n, skipped, r, left);
        PassJoin(d, p.L.blockSize, ls, LeavesAll(kids), |LeavesAll(ts[..i])|, count, skip, n, skipped, r.count,
                 old(buffer[..]), at, now, buffer[..]);
      }
      if r == Failed || (r == Done(0) && skipped == 0) {
        return;
      }
      AfterMore(at, n, r.count, p.L.blockSize);
      pos := After(pos, r.count, p.L.blockSize);
      n := n + r.count;
      i := i + 1;
      if n == count {
        break;
      }
    }
    if fits {
      if n < count {
        FitsEnd(e, level, ts, |slots|, count, skip, i, n, left);
      }
      PassEnd(|ls|, count, skip, n, left);
    }
    return Done(n), left;
  }

  // ----- The 15 entries of an inode -----

  /** The direct entries. */
  lemma FirstPass(L: Layout, d: seq<Block>, iblock: seq<Word>, file: seq<Tree>, count: nat, skip: nat)
    requires L.Ok() && L.Image(d) && Stored(L, d, iblock, file) && 0 < count && skip + count <= |LeavesAll(file)|
    ensures |iblock| == 15 && Readable(L, d, 0, iblock[..12], Direct(file))
    ensures FitsAny(L.Entries(), 0, Direct(file), 12, skip, count) && Passing(0, count, skip, 0, skip)
    ensures |LeavesAll(Direct(file))| <= |LeavesAll(file)|
    ensures LeavesAll(file)[0..|LeavesAll(Direct(file))|] == LeavesAll(Direct(file))
    ensures |file| <= 12 ==> Direct(file) == file
    ensures 12 < |file| ==> Direct(file) == file[..12]
  {
    DirectReadable(L, d, iblock, file);
    if |file| > 12 {
      AllPrefix(d, file, 12);
    }
  }

  /** One of the entries 12 to 14. */
  lemma EntryPass(L: Layout, d: seq<Block>, iblock: seq<Word>, file: seq<Tree>, count: nat, skip: nat, i: nat, n: nat,
                  left: nat)
    requires L.Ok() && L.Image(d) && Stored(L, d, iblock, file) && skip + count <= |LeavesAll(file)|
    requires 12 <= i < 15 && i <= |file| && Passing(|LeavesAll(file[..i])|, count, skip, n, left)
    ensures i < |file| && Readable(L, d, Height(i), [iblock[i]], Entry(file, i))
    ensures FitsAny(L.Entries(), Height(i), Entry(file, i), 1, left, count - n)
    ensures var o, k := |LeavesAll(file[..i])|, |LeavesAll(Entry(file, i))|;
            && o + k == |LeavesAll(file[..i + 1])| <= |LeavesAll(file)| && LeavesAll(file)[o..o + k] == LeavesAll(Entry(file, i))
  {
    hide Shape, RepAll, EndedAll, BlocksAll, FullAll, Readable, Layout.Ok, Layout.Image;
    assert file[..|file|] == file;
    EntryReadable(L, d, iblock, file, i);
    if i < |file| {
      LeavesAt(file, i);
      AllPrefix(d, file, i + 1);
      EntryFull(L, d, iblock, file, i);
    }
  }

  /** A request within the file is met before its entries are used up. */
  lemma NeverPast(file: seq<Tree>, count: nat, skip: nat, n: nat, left: nat)
    requires skip + count <= |LeavesAll(file)|
    ensures !Passing(|LeavesAll(file)|, count, skip, n, left)
  {
  }

  /**
   VARIANT: any stretch of the file's blocks is read, whatever is skipped. On the stretches that the program can read, it
   and the variant do the same.
   */
  method ReadBlocksOn(p: Partition, iblock: seq<Word>, buffer: array<Byte>, at: nat, count: nat, skip: nat,
                      ghost file: seq<Tree>)
    returns (r: IoResult)
    requires p.Shaped() && After(at, count, p.L.blockSize) <= buffer.Length
    requires Stored(p.L, p.disk[..], iblock, file) && skip + count <= |LeavesAll(file)|
    modifies buffer
    ensures count == 0 ==> r == Done(0) && buffer[..] == old(buffer[..])
    ensures 0 < count ==>
              (StoredLeaves(p.L, p.disk[..], iblock, file);
               r == Done(count) && Filled(p.disk[..], LeavesAll(file), skip, count, old(buffer[..]), at, buffer[..]))
  {
    hide *;
    if count == 0 {
      return Done(0);
    }
    p.ShapedFacts();
    StoredLeaves(p.L, p.disk[..], iblock, file);
    ghost var d, ls, before := p.disk[..], LeavesAll(file), buffer[..];
    FirstPass(p.L, d, iblock, file, count, skip);
    ReadableLeaves(p.L, d, 0, iblock[..12], Direct(file));
    AfterMore(at, 0, 0, p.L.blockSize);
    AfterMonotone(at, 0, count, p.L.blockSize);
    DeliveredNone(d, ls, skip, before, at);
    var left: nat;
    r, left := ReadLeavesOn(p, iblock[..12], buffer, at, count, skip, Direct(file));
    PassStep(0, |LeavesAll(Direct(file))|, count, skip, 0, skip, r, left);
    PassJoin(d, p.L.blockSize, ls, LeavesAll(Direct(file)), 0, count, skip, 0, skip, r.count, before, at, before, buffer[..]);
    var n: nat, i: nat := r.count, 12;
    if |file| <= 12 {
      NeverPast(file, count, skip, n, left);
    }
    while i < 15 && n < count
      invariant 12 <= i <= 15 && n <= count
      invariant n < count ==> i <= |file| && Passing(|LeavesAll(file[..i])|, count, skip, n, left)
      invariant Delivered(d, ls, skip, n, before, at, buffer[..])
    {
      ghost var now := buffer[..];
      var skipped := left;
      EntryPass(p.L, d, iblock, file, count, skip, i, n, left);
      ReadableLeaves(p.L, d, Height(i), [iblock[i]], Entry(file, i));
      HeightPositive(i);
      AfterMore(at, n, count - n, p.L.blockSize);
      r, left := ReadLevelOn(p, i - 11, [iblock[i]], buffer, After(at, n, p.L.blockSize), count - n, left, Entry(file, i));
      PassStep(|LeavesAll(file[..i])|, |LeavesAll(Entry(file, i))|, count, skip, n, skipped, r, left);
      PassJoin(d, p.L.blockSize, ls, LeavesAll(Entry(file, i)), |LeavesAll(file[..i])|, count, skip, n, skipped,
               r.count, before, at, now, buffer[..]);
      n := n + r.count;
      i := i + 1;
    }
    if n < count {
      AllOf(file);
      NeverPast(file, count, skip, n, left);
    }
    DeliveredFilled(d, ls, skip, n, before, at, buffer[..]);
    return Done(n);
  }
}
