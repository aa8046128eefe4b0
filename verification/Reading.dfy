/** Reading data blocks into a buffer by walking the block tree. */
module Reading {
  import opened Codec
  import opened Partitions
  import opened Trees
  import opened Walks

  /** memcpy of a block into a larger buffer. */
  method CopyIn(buffer: array<Byte>, at: nat, data: seq<Byte>)
    requires at + |data| <= buffer.Length
    modifies buffer
    ensures buffer[..] == Splice(old(buffer[..]), at, data)
  {
    forall k | 0 <= k < |data| {
      buffer[at + k] := data[k];
    }
  }

  /** The bytes of `count` of the blocks `ls`, after the first `skip`, placed in the buffer at `at`. */
  ghost predicate Filled(d: seq<Block>, ls: seq<nat>, skip: nat, count: nat, before: seq<Byte>, at: nat,
                         after: seq<Byte>)
    requires forall i :: 0 <= i < |ls| ==> ls[i] < |d|
  {
    && skip + count <= |ls|
    && at + |Concat(d, ls[skip..skip + count])| <= |before|
    && after == Splice(before, at, Concat(d, ls[skip..skip + count]))
  }

  lemma FilledStart(d: seq<Block>, ls: seq<nat>, skip: nat, before: seq<Byte>, at: nat)
    requires forall i :: 0 <= i < |ls| ==> ls[i] < |d|
    requires at <= |before|
    ensures skip <= |ls| ==> Filled(d, ls, skip, 0, before, at, before)
  {
  }

  lemma FilledStep(d: seq<Block>, ls: seq<nat>, skip: nat, count: nat, size: nat,
                   before: seq<Byte>, at: nat, after: seq<Byte>, after': seq<Byte>)
    requires forall i :: 0 <= i < |ls| ==> ls[i] < |d|
    requires forall b :: 0 <= b < |d| ==> |d[b]| == size
    requires skip + count < |ls| && Filled(d, ls, skip, count, before, at, after)
    requires After(at, count + 1, size) <= |before|
    requires after' == Splice(after, After(at, count, size), d[ls[skip + count]])
    ensures Filled(d, ls, skip, count + 1, before, at, after')
  {
    ConcatRange(d, ls, skip, count, size);
    ConcatStep(d, ls[skip..skip + count], ls[skip + count]);
    assert ls[skip..skip + count + 1] == ls[skip..skip + count] + [ls[skip + count]];
    AfterOne(at, count, size);
    SpliceSplice(before, at, Concat(d, ls[skip..skip + count]), d[ls[skip + count]]);
  }

  /** The direct walk. The first m entries name blocks of the partition. */
  method ReadDirect(p: Partition, blocks: seq<Word>, buffer: array<Byte>, at: nat, count: nat, skip: nat,
                    ghost ls: seq<nat>)
    returns (r: IoResult, left: nat)
    requires p.Shaped() && 0 < count && After(at, count, p.L.blockSize) <= buffer.Length
    requires |ls| <= |blocks| && forall i :: 0 <= i < |ls| ==> blocks[i] == ls[i] && p.L.IsBlock(ls[i])
    modifies buffer
    ensures left == if skip > |blocks| then skip - |blocks| else 0
    ensures r.Done? ==> r.count <= count && (r.count > 0 ==> skip < |blocks|)
    ensures skip >= |blocks| ==> r == Done(0) && buffer[..] == old(buffer[..])
    ensures skip < |blocks| && (skip + count <= |ls| || |ls| == |blocks|)
            ==> r == Done(Take(|ls|, skip, count)) && Filled(p.disk[..], ls, skip, r.count, old(buffer[..]), at, buffer[..])
    ensures (forall i :: |ls| <= i < |blocks| ==> blocks[i] == 0) && r.Done? && r.count > 0 ==> r.count + skip <= |ls|
  {
    hide Filled, Splice, After;
    AfterMore(at, 0, 0, p.L.blockSize);
    AfterMonotone(at, 0, count, p.L.blockSize);
    left := skip;
    var n: nat, pos: nat := 0, at;
    assert at <= buffer.Length;
    FilledStart(p.disk[..], ls, skip, buffer[..], at);
    var i: nat := 0;
    while i < |blocks|
      invariant i <= |blocks| && n < count && pos == After(at, n, p.L.blockSize)
      invariant if i <= skip then left == skip - i && n == 0 else left == 0 && n == i - skip
      invariant n == 0 ==> buffer[..] == old(buffer[..])
      invariant skip + n <= |ls| ==> Filled(p.disk[..], ls, skip, n, old(buffer[..]), at, buffer[..])
      invariant i <= |ls| || n == 0 || exists k :: |ls| <= k < |blocks| && blocks[k] != 0
    {
      if left > 0 {
        left := left - 1;
        i := i + 1;
        continue;
      }
      assert i == skip + n;
      AfterOne(at, n, p.L.blockSize);
      AfterMonotone(at, n + 1, count, p.L.blockSize);
      var status, data := p.ReadBlock(blocks[i], buffer[pos..pos + p.L.blockSize]);
      if status == Failed {
        return Failed, left;
      }
      if status == Done(0) {
        return Done(n), left;
      }
      ghost var filled := buffer[..];
      CopyIn(buffer, pos, data);
      if i < |ls| {
        FilledStep(p.disk[..], ls, skip, n, p.L.blockSize, old(buffer[..]), at, filled, buffer[..]);
      }
      pos := pos + p.L.blockSize;
      n := n + 1;
      i := i + 1;
      if n == count {
        break;
      }
    }
    return Done(n), left;
  }

  /** A stretch read below one tree continues what was read below the trees before it. */
  lemma FilledJoin(d: seq<Block>, size: nat, ls: seq<nat>, kl: seq<nat>, o: nat, skip: nat, n: nat, left: nat, n1: nat,
                   before: seq<Byte>, at: nat, mid: seq<Byte>, after: seq<Byte>)
    requires forall i :: 0 <= i < |ls| ==> ls[i] < |d|
    requires forall i :: 0 <= i < |kl| ==> kl[i] < |d|
    requires forall b :: 0 <= b < |d| ==> |d[b]| == size
    requires o + |kl| <= |ls| && ls[o..o + |kl|] == kl && o + left == skip + n
    requires Filled(d, ls, skip, n, before, at, mid) && Filled(d, kl, left, n1, mid, After(at, n, size), after)
    ensures Filled(d, ls, skip, n + n1, before, at, after)
  {
    var a, b := ls[skip..skip + n], kl[left..left + n1];
    forall k | 0 <= k < n1 ensures b[k] == ls[skip + n + k] {
      assert ls[o..o + |kl|][left + k] == ls[o + left + k];
    }
    assert b == ls[skip + n..skip + n + n1];
    assert ls[skip..skip + n + n1] == a + b;
    ConcatSplit(d, a, b);
    ConcatRange(d, ls, skip, n, size);
    SpliceSplice(before, at, Concat(d, a), Concat(d, b));
  }

  lemma SlotJoin(d: seq<Block>, size: nat, e: nat, level: nat, ts: seq<Tree>, count: nat, skip: nat, i: nat, n: nat,
                 left: nat,
                 r: IoResult, before: seq<Byte>, at: nat, now: seq<Byte>, now': seq<Byte>)
    requires forall i :: 0 <= i < |LeavesAll(ts)| ==> LeavesAll(ts)[i] < |d|
    requires forall k :: 0 <= k < |LeavesAll(KidsAt(ts, i))| ==> LeavesAll(KidsAt(ts, i))[k] < |d|
    requires forall b :: 0 <= b < |d| ==> |d[b]| == size
    requires 0 < level && n < count && SlotDelivers(e, level, ts, count, skip, i, n, left, r)
    requires Filled(d, LeavesAll(ts), skip, n, before, at, now)
    requires r.Done? && Filled(d, LeavesAll(KidsAt(ts, i)), left, r.count, now, After(at, n, size), now')
    ensures Filled(d, LeavesAll(ts), skip, n + r.count, before, at, now')
  {
    hide Filled, Fits, KidsAt, LeavesAll, Splice;
    FilledJoin(d, size, LeavesAll(ts), LeavesAll(KidsAt(ts, i)), |LeavesAll(ts[..i])|, skip, n, left, r.count, before, at, now, now');
  }

  /** One slot: reads the pointer block it names and walks the trees below. A zero slot ends the walk. */
  method ReadSlot(p: Partition, level: nat, slot: Word, buffer: array<Byte>, at: nat, count: nat, skip: nat,
                  ghost kids: seq<Tree>)
    returns (r: IoResult, left: nat)
    requires p.Shaped() && 0 < count && After(at, count, p.L.blockSize) <= buffer.Length
    requires if p.L.IsBlock(slot) then Readable(p.L, p.disk[..], level, ToWords(p.disk[slot]), kids) else kids == []
    modifies buffer
    ensures slot == 0 ==> r == Failed && left == skip && buffer[..] == old(buffer[..])
    ensures slot != 0 ==>
              Walked(p.L.Entries(), level, p.L.Entries(), p.L.IsBlock(slot) && Terminated(p.disk[..], ToWords(p.disk[slot]), kids),
                     kids, count, skip, r, left)
    ensures p.L.IsBlock(slot) && Fits(p.L.Entries(), level, kids, p.L.Entries(), skip, count) ==>
              (ReadableLeaves(p.L, p.disk[..], level, ToWords(p.disk[slot]), kids);
               Filled(p.disk[..], LeavesAll(kids), skip, r.count, old(buffer[..]), at, buffer[..]))
    decreases level, 1
  {
    hide Filled, After, Splice;
    p.L.EntriesPositive();
    var words: seq<Word> := p.Malloc();
    var status, data := p.ReadBlock(slot, ToBytes(words));
    if status == Done(0) {
      return Failed, skip;
    }
    words := ToWords(data);
    ReadableEmpty(p.L, p.disk[..], level, words);
    ReadableLeaves(p.L, p.disk[..], level, words, kids);
    if level == 0 {
      LeafList(p.L.Entries(), kids);
      r, left := ReadDirect(p, words, buffer, at, count, skip, LeavesAll(kids));
    } else {
      r, left := ReadLevel(p, level, words, buffer, at, count, skip, kids);
    }
  }

  /**
   The walks over single, double and triple indirect blocks: each slot leads to a tree of the given height.
   A read that the disk refuses leaves the pointer buffer as malloc returned it, and the walk goes on.
   */
  method ReadLevel(p: Partition, level: nat, slots: seq<Word>, buffer: array<Byte>, at: nat, count: nat, skip: nat,
                   ghost ts: seq<Tree>)
    returns (r: IoResult, left: nat)
    requires p.Shaped() && 0 < level && 0 < count && After(at, count, p.L.blockSize) <= buffer.Length
    requires Readable(p.L, p.disk[..], level, slots, ts)
    modifies buffer
    ensures Walked(p.L.Entries(), level, |slots|, Terminated(p.disk[..], slots, ts), ts, count, skip, r, left)
    ensures Fits(p.L.Entries(), level, ts, |slots|, skip, count) ==>
              (ReadableLeaves(p.L, p.disk[..], level, slots, ts);
               Filled(p.disk[..], LeavesAll(ts), skip, r.count, old(buffer[..]), at, buffer[..]))
    decreases level, 0
  {
    hide *;
    p.ShapedFacts();
    ghost var e, d, ls := p.L.Entries(), p.disk[..], LeavesAll(ts);
    ghost var ended, fits := Terminated(d, slots, ts), Fits(e, level, ts, |slots|, skip, count);
    ReadableLeaves(p.L, d, level, slots, ts);
    ReadablePacked(p.L, d, level, slots, ts);
    WalkStart(e, level, |slots|, ended, ts, count, skip);
    AfterMore(at, 0, 0, p.L.blockSize);
    AfterMonotone(at, 0, count, p.L.blockSize);
    FilledStart(d, ls, skip, buffer[..], at);
    if fits {
      FitsSkip(e, level, ts, |slots|, skip, count);
    }
    left := skip;
    var n: nat, pos: nat, i: nat := 0, at, 0;
    while i < |slots|
      invariant i <= |slots| && n < count && pos == After(at, n, p.L.blockSize)
      invariant Walking(e, level, |slots|, ended, ts, count, skip, i, n, left)
      invariant fits ==> Filled(d, ls, skip, n, old(buffer[..]), at, buffer[..])
    {
      ghost var now, left0, kids := buffer[..], left, KidsAt(ts, i);
      SlotReadable(p.L, d, level, slots, ts, i);
      AfterMore(at, n, count - n, p.L.blockSize);
      r, left := ReadSlot(p, level - 1, slots[i], buffer, pos, count - n, left, kids);
      SlotStep(p.L, d, level, slots, ts, ended, count, skip, i, n, left0, r, left);
      if r == Failed || r == Done(0) {
        return r, left;
      }
      if fits {
        SlotReadable(p.L, d, level, slots, ts, i);
        ReadableLeaves(p.L, d, level - 1, ToWords(d[slots[i]]), kids);
        SlotJoin(d, p.L.blockSize, p.L.Entries(), level, ts, count, skip, i, n, left0, r, old(buffer[..]), at, now, buffer[..]);
      }
      AfterMore(at, n, r.count, p.L.blockSize);
      pos := After(pos, r.count, p.L.blockSize);
      n := n + r.count;
      i := i + 1;
      if n == count {
        break;
      }
    }
    WalkEnd(e, level, |slots|, ended, ts, count, skip, i, n, left);
    return Done(n), left;
  }
}
