/** Writing data blocks from a buffer by walking the block tree, on the disk that also holds the tree. */
module Writing {
  import opened Codec
  import opened Layouts
  import opened Partitions
  import opened Trees
  import opened Walks

  /** From d0 to d1 only the listed blocks may have changed. */
  ghost predicate Confined(d0: seq<Block>, d1: seq<Block>, ls: seq<nat>) {
    |d0| == |d1| && forall b :: 0 <= b < |d0| && b !in ls ==> d1[b] == d0[b]
  }

  /**
   From d0 to d1, n of the blocks ls after the first `skip` took over the source bytes from `at` on; nothing else
   changed.
   */
  ghost predicate Written(d0: seq<Block>, d1: seq<Block>, ls: seq<nat>, skip: nat, n: nat, source: seq<Byte>,
                          at: nat, size: nat)
    requires forall i :: 0 <= i < |ls| ==> ls[i] < |d0|
  {
    && skip + n <= |ls| && at <= After(at, n, size) <= |source|
    && Confined(d0, d1, ls[skip..skip + n])
    && Concat(d1, ls[skip..skip + n]) == source[at..After(at, n, size)]
  }

  lemma WrittenStart(d: seq<Block>, ls: seq<nat>, skip: nat, source: seq<Byte>, at: nat, size: nat)
    requires forall i :: 0 <= i < |ls| ==> ls[i] < |d|
    requires at <= |source|
    ensures skip <= |ls| ==> Written(d, d, ls, skip, 0, source, at, size)
  {
  }

  lemma WrittenJoin(d0: seq<Block>, d1: seq<Block>, d2: seq<Block>, size: nat, ls: seq<nat>, kl: seq<nat>, o: nat,
                    skip: nat, n: nat, left: nat, n1: nat, source: seq<Byte>, at: nat)
    requires forall i :: 0 <= i < |ls| ==> ls[i] < |d0|
    requires forall i :: 0 <= i < |kl| ==> kl[i] < |d1|
    requires NoDup(ls) && o + |kl| <= |ls| && ls[o..o + |kl|] == kl && o + left == skip + n
    requires Written(d0, d1, ls, skip, n, source, at, size)
    requires Written(d1, d2, kl, left, n1, source, After(at, n, size), size)
    ensures Written(d0, d2, ls, skip, n + n1, source, at, size)
  {
    hide Concat, NoDup, After;
    var a, b := ls[skip..skip + n], kl[left..left + n1];
    SliceWithin(ls, kl, o, left, n1);
    assert ls[skip..skip + n + n1] == a + b;
    SlicesApart(ls, skip, n, n1, a, b);
    ConcatFrame(d1, d2, a);
    ConcatSplit(d2, a, b);
    AfterMore(at, n, n1, size);
    AfterMonotone(at, n, n + n1, size);
    assert source[at..After(at, n, size)] + source[After(at, n, size)..After(at, n + n1, size)] == source[at..After(at, n + n1, size)];
  }

  /** A slice of a slice. */
  lemma SliceWithin(ls: seq<nat>, kl: seq<nat>, o: nat, left: nat, n: nat)
    requires o + |kl| <= |ls| && ls[o..o + |kl|] == kl && left + n <= |kl|
    ensures kl[left..left + n] == ls[o + left..o + left + n]
  {
    var t := kl[left..left + n];
    forall k | 0 <= k < n ensures t[k] == ls[o + left..o + left + n][k] {
      assert kl[left + k] == ls[o..o + |kl|][left + k];
    }
  }

  /** Neighbouring slices of a list without repetitions share nothing. */
  lemma SlicesApart(ls: seq<nat>, skip: nat, n: nat, n1: nat, a: seq<nat>, b: seq<nat>)
    requires NoDup(ls) && skip + n + n1 <= |ls| && a == ls[skip..skip + n] && b == ls[skip + n..skip + n + n1]
    ensures forall i :: 0 <= i < |a| ==> a[i] !in b
  {
    forall i | 0 <= i < |a| ensures a[i] !in b {
      assert a[i] == ls[skip + i];
    }
  }

  lemma WrittenOne(d: seq<Block>, b: nat, source: seq<Byte>, at: nat, size: nat)
    requires b < |d| && at + size <= |source|
    ensures Written(d, d[b := source[at..at + size]], [b], 0, 1, source, at, size)
  {
    AfterOne(at, 0, size);
    assert [b][0..1] == [b] && [b][..0] == [];
    assert Concat(d[b := source[at..at + size]], [b]) == Concat(d[b := source[at..at + size]], []) + source[at..at + size];
  }

  method WriteDirect(p: Partition, blocks: seq<Word>, source: seq<Byte>, at: nat, count: nat, skip: nat,
                     ghost ls: seq<nat>)
    returns (r: IoResult, left: nat)
    requires p.Shaped() && 0 < count && After(at, count, p.L.blockSize) <= |source|
    requires |ls| <= |blocks| && NoDup(ls) && forall i :: 0 <= i < |ls| ==> blocks[i] == ls[i] && p.L.IsBlock(ls[i])
    modifies p.disk
    ensures p.Shaped()
    ensures left == if skip > |blocks| then skip - |blocks| else 0
    ensures r.Done? ==> r.count <= count && (r.count > 0 ==> skip < |blocks|)
    ensures skip >= |blocks| ==> r == Done(0) && p.disk[..] == old(p.disk[..])
    ensures skip < |blocks| && (skip + count <= |ls| || |ls| == |blocks|)
            ==> r == Done(Take(|ls|, skip, count))
                && Written(old(p.disk[..]), p.disk[..], ls, skip, r.count, source, at, p.L.blockSize)
    ensures (forall i :: |ls| <= i < |blocks| ==> blocks[i] == 0) ==> Confined(old(p.disk[..]), p.disk[..], ls)
    ensures (forall i :: |ls| <= i < |blocks| ==> blocks[i] == 0) && r.Done? && r.count > 0 ==> r.count + skip <= |ls|
  {
    hide Written, After;
    ghost var d := p.disk[..];
    AfterMore(at, 0, 0, p.L.blockSize);
    AfterMonotone(at, 0, count, p.L.blockSize);
    WrittenStart(d, ls, skip, source, at, p.L.blockSize);
    left := skip;
    var n: nat, pos: nat, i: nat := 0, at, 0;
    while i < |blocks|
      invariant p.Shaped()
      invariant i <= |blocks| && n < count && pos == After(at, n, p.L.blockSize)
      invariant if i <= skip then left == skip - i && n == 0 else left == 0 && n == i - skip
      invariant n == 0 ==> p.disk[..] == d
      invariant skip + n <= |ls| ==> Written(d, p.disk[..], ls, skip, n, source, at, p.L.blockSize)
      invariant i <= |ls| ==> Confined(d, p.disk[..], ls)
      invariant i <= |ls| || n == 0 || exists k :: |ls| <= k < |blocks| && blocks[k] != 0
    {
      if left > 0 {
        left := left - 1;
        i := i + 1;
        continue;
      }
      assert i == skip + n;
      AfterOne(at, n, p.L.blockSize);
      AfterMonotone(at, n + 1, count, p.L.blockSize);
      ghost var now := p.disk[..];
      r := p.WriteBlock(blocks[i], source[pos..pos + p.L.blockSize]);
      if r == Failed {
        return Failed, left;
      }
      if r == Done(0) {
        return Done(n), left;
      }
      if i < |ls| {
        WrittenOne(now, ls[i], source, pos, p.L.blockSize);
        WrittenJoin(d, now, p.disk[..], p.L.blockSize, ls, [ls[i]], i, skip, n, 0, 1, source, at);
      }
      pos := pos + p.L.blockSize;
      n := n + 1;
      i := i + 1;
      if n == count {
        break;
      }
    }
    return Done(n), left;
  }

  /** The tree below the slots survives writes confined to its leaves. */
  lemma ReadableFrame(L: Layout, d0: seq<Block>, d1: seq<Block>, level: nat, slots: seq<Word>, ts: seq<Tree>,
                      ls: seq<nat>)
    requires Readable(L, d0, level, slots, ts) && NodesAll(ts) !! ToSet(ls)
    requires Confined(d0, d1, ls)
    ensures Readable(L, d1, level, slots, ts)
    ensures Terminated(d0, slots, ts) ==> Terminated(d1, slots, ts)
  {
    hide Packed, BlocksAll;
    forall b | b in NodesAll(ts) && b < |d0| ensures d0[b] == d1[b] {
      assert b !in ToSet(ls);
    }
    RepAllFrame(d0, d1, ts);
  }

  lemma ConfinedJoin(d0: seq<Block>, d1: seq<Block>, d2: seq<Block>, ls: seq<nat>, kl: seq<nat>, o: nat)
    requires Confined(d0, d1, ls) && Confined(d1, d2, kl) && o + |kl| <= |ls| && ls[o..o + |kl|] == kl
    ensures Confined(d0, d2, ls)
  {
    forall b | b in kl ensures b in ls {
      var i :| 0 <= i < |kl| && kl[i] == b;
      assert ls[o..o + |kl|][i] == ls[o + i];
    }
  }

  lemma ConfinedRefl(d: seq<Block>, ls: seq<nat>)
    ensures Confined(d, d, ls)
  {
  }

  lemma WrittenConfined(d0: seq<Block>, d1: seq<Block>, ls: seq<nat>, skip: nat, n: nat, source: seq<Byte>, at: nat,
                        size: nat)
    requires forall i :: 0 <= i < |ls| ==> ls[i] < |d0|
    requires Written(d0, d1, ls, skip, n, source, at, size)
    ensures Confined(d0, d1, ls)
  {
    ConfinedRefl(d0, ls);
    ConfinedJoin(d0, d0, d1, ls, ls[skip..skip + n], skip);
  }

  /** The facts about subtrees that writing relies on. */
  lemma SlotApart(L: Layout, ts: seq<Tree>, i: nat)
    requires ApartAll(ts)
    ensures ApartAll(KidsAt(ts, i)) && NoDup(LeavesAll(KidsAt(ts, i))) && NodesAll(KidsAt(ts, i)) !! ToSet(LeavesAll(KidsAt(ts, i)))
  {
    if i < |ts| {
      AllAt([], ts, i);
    }
    ApartAllFacts(KidsAt(ts, i));
  }

  /** One slot: reads the pointer block it names and writes below it. A zero slot ends the walk. */
  method WriteSlot(p: Partition, level: nat, slot: Word, source: seq<Byte>, at: nat, count: nat, skip: nat,
                   ghost kids: seq<Tree>)
    returns (r: IoResult, left: nat)
    requires p.Shaped() && 0 < count && After(at, count, p.L.blockSize) <= |source| && ApartAll(kids)
    requires if p.L.IsBlock(slot) then Readable(p.L, p.disk[..], level, ToWords(p.disk[slot]), kids) else kids == []
    modifies p.disk
    ensures p.Shaped()
    ensures slot == 0 ==> r == Failed && left == skip && p.disk[..] == old(p.disk[..])
    ensures slot != 0 ==>
              Walked(p.L.Entries(), level, p.L.Entries(),
                     p.L.IsBlock(slot) && Terminated(old(p.disk[..]), ToWords(old(p.disk[..])[slot]), kids),
                     kids, count, skip, r, left)
    ensures p.L.IsBlock(slot) && Fits(p.L.Entries(), level, kids, p.L.Entries(), skip, count) ==>
              (ReadableLeaves(p.L, old(p.disk[..]), level, ToWords(old(p.disk[..])[slot]), kids);
               Written(old(p.disk[..]), p.disk[..], LeavesAll(kids), skip, r.count, source, at, p.L.blockSize))
    ensures p.L.IsBlock(slot) && (Fits(p.L.Entries(), level, kids, p.L.Entries(), skip, count)
                                  || Terminated(old(p.disk[..]), ToWords(old(p.disk[..])[slot]), kids)) ==>
              Confined(old(p.disk[..]), p.disk[..], LeavesAll(kids))
    decreases level, 1
  {
    hide Written, After, Splice;
    p.L.EntriesPositive();
    var words: seq<Word> := p.Malloc();
    var status, data := p.ReadBlock(slot, ToBytes(words));
    if status == Done(0) {
      return Failed, skip;
    }
    words := ToWords(data);
    ReadableEmpty(p.L, p.disk[..], level, words);
    ReadableLeaves(p.L, p.disk[..], level, words, kids);
    if level == 0 {
      LeafList(p.L.Entries(), kids);
      ApartAllFacts(kids);
      ghost var d := p.disk[..];
      r, left := WriteDirect(p, words, source, at, count, skip, LeavesAll(kids));
      if Fits(p.L.Entries(), level, kids, p.L.Entries(), skip, count) {
        WrittenConfined(d, p.disk[..], LeavesAll(kids), skip, r.count, source, at, p.L.blockSize);
      }
    } else {
      r, left := WriteLevel(p, level, words, source, at, count, skip, kids);
    }
  }

  /** The writing walks over single, double and triple indirect blocks. */
  method WriteLevel(p: Partition, level: nat, slots: seq<Word>, source: seq<Byte>, at: nat, count: nat, skip: nat,
                    ghost ts: seq<Tree>)
    returns (r: IoResult, left: nat)
    requires p.Shaped() && 0 < level && 0 < count && After(at, count, p.L.blockSize) <= |source| && ApartAll(ts)
    requires Readable(p.L, p.disk[..], level, slots, ts)
    modifies p.disk
    ensures p.Shaped()
    ensures Walked(p.L.Entries(), level, |slots|, Terminated(old(p.disk[..]), slots, ts), ts, count, skip, r, left)
    ensures Fits(p.L.Entries(), level, ts, |slots|, skip, count) ==>
              (ReadableLeaves(p.L, old(p.disk[..]), level, slots, ts);
               Written(old(p.disk[..]), p.disk[..], LeavesAll(ts), skip, r.count, source, at, p.L.blockSize))
    ensures Fits(p.L.Entries(), level, ts, |slots|, skip, count) || Terminated(old(p.disk[..]), slots, ts) ==>
              Confined(old(p.disk[..]), p.disk[..], LeavesAll(ts))
    decreases level, 0
  {
    hide *;
    p.ShapedFacts();
    ghost var e, d, size := p.L.Entries(), p.disk[..], p.L.blockSize;
    // A request that runs into unknown pointers may write anywhere: nothing is tracked for it.
    ghost var good := Fits(e, level, ts, |slots|, skip, count) || Terminated(d, slots, ts);
    ghost var us := if good then ts else [];
    ghost var ls, ended, fits := LeavesAll(us), good && Terminated(d, slots, ts), good && Fits(e, level, ts, |slots|, skip, count);
    WriteStart(p.L, d, level, slots, ts, us, good, count, skip);
    AfterMore(at, 0, 0, size);
    AfterMonotone(at, 0, count, size);
    WrittenStart(d, ls, skip, source, at, size);
    left := skip;
    var n: nat, pos: nat, i: nat := 0, at, 0;
    while i < |slots|
      invariant p.Shaped() && i <= |slots| && n < count && pos == After(at, n, p.L.blockSize)
      invariant Readable(p.L, p.disk[..], level, slots, us)
      invariant ended ==> Terminated(p.disk[..], slots, us)
      invariant Walking(e, level, |slots|, ended, us, count, skip, i, n, left)
      invariant fits ==> Written(d, p.disk[..], ls, skip, n, source, at, size)
      invariant good ==> Confined(d, p.disk[..], ls)
    {
      p.ShapedFacts();
      ghost var now, left0, kids := p.disk[..], left, KidsAt(us, i);
      SlotReadable(p.L, now, level, slots, us, i);
      SlotInRange(p.L, now, level, slots, us, i);
      SlotApart(p.L, us, i);
      AfterMore(at, n, count - n, p.L.blockSize);
      r, left := WriteSlot(p, level - 1, slots[i], source, pos, count - n, left, kids);
      p.ShapedFacts();
      WriteStep(p.L, d, now, p.disk[..], level, slots, us, ended, good, count, skip, i, n, left0, r, left, source, at);
      if r == Failed || r == Done(0) {
        WriteStopped(e, level, |slots|, good, Terminated(d, slots, ts), ts, us, ended, count, skip, r, left);
        return r, left;
      }
      AfterMore(at, n, r.count, p.L.blockSize);
      pos := After(pos, r.count, p.L.blockSize);
      n := n + r.count;
      i := i + 1;
      if n == count {
        break;
      }
    }
    WalkEnd(e, level, |slots|, ended, us, count, skip, i, n, left);
    WriteStopped(e, level, |slots|, good, Terminated(d, slots, ts), ts, us, ended, count, skip, Done(n), left);
    return Done(n), left;
  }

  lemma WriteStart(L: Layout, d: seq<Block>, level: nat, slots: seq<Word>, ts: seq<Tree>, us: seq<Tree>, good: bool,
                   count: nat, skip: nat)
    requires L.Ok() && L.Image(d) && 0 < level && 0 < count && Readable(L, d, level, slots, ts) && ApartAll(ts)
    requires us == if good then ts else []
    requires good <==> Fits(L.Entries(), level, ts, |slots|, skip, count) || Terminated(d, slots, ts)
    ensures Readable(L, d, level, slots, us) && ApartAll(us)
    ensures forall i :: 0 <= i < |LeavesAll(us)| ==> LeavesAll(us)[i] < |d|
    ensures Walking(L.Entries(), level, |slots|, good && Terminated(d, slots, ts), us, count, skip, 0, 0, skip)
    ensures good && Fits(L.Entries(), level, ts, |slots|, skip, count) ==> skip <= |LeavesAll(us)|
    ensures Fits(L.Entries(), level, us, |slots|, skip, count) ==> good && Fits(L.Entries(), level, ts, |slots|, skip, count)
    ensures if good then Fits(L.Entries(), level, us, |slots|, skip, count) || Terminated(d, slots, ts) else us == []
    ensures Confined(d, d, LeavesAll(us))
  {
    hide Packed, FullAll, Shape, Walking, RepAll, EndedAll;
    ReadableEmpty(L, d, level, slots);
    ReadableLeaves(L, d, level, slots, us);
    ReadablePacked(L, d, level, slots, us);
    WalkStart(L.Entries(), level, |slots|, good && Terminated(d, slots, ts), us, count, skip);
    if good && Fits(L.Entries(), level, ts, |slots|, skip, count) {
      FitsSkip(L.Entries(), level, ts, |slots|, skip, count);
    }
  }

  lemma WriteStopped(e: nat, level: nat, slots: nat, good: bool, term: bool, ts: seq<Tree>, us: seq<Tree>, ended: bool,
                     count: nat, skip: nat, r: IoResult, left: nat)
    requires Walked(e, level, slots, ended, us, count, skip, r, left)
    requires us == (if good then ts else []) && ended == (good && term)
    requires good <==> Fits(e, level, ts, slots, skip, count) || term
    ensures Walked(e, level, slots, term, ts, count, skip, r, left)
  {
  }

  lemma WriteStep(L: Layout, d0: seq<Block>, now: seq<Block>, d1: seq<Block>, level: nat, slots: seq<Word>,
                  us: seq<Tree>,
                  ended: bool, good: bool, count: nat, skip: nat, i: nat, n: nat, left: nat, r: IoResult, left': nat,
                  source: seq<Byte>, at: nat)
    requires L.Ok() && L.Image(d0) && L.Image(now) && L.Image(d1) && 0 < level && ApartAll(us)
    requires Readable(L, now, level, slots, us) && (ended ==> Terminated(now, slots, us))
    requires forall k :: 0 <= k < |LeavesAll(us)| ==> LeavesAll(us)[k] < |d0|
    requires forall k :: 0 <= k < |LeavesAll(KidsAt(us, i))| ==> LeavesAll(KidsAt(us, i))[k] < |now|
    requires Walking(L.Entries(), level, |slots|, ended, us, count, skip, i, n, left) && n < count && i < |slots|
    requires if good then ended || Fits(L.Entries(), level, us, |slots|, skip, count) else us == []
    requires slots[i] == 0 ==> r == Failed && d1 == now
    requires slots[i] != 0 ==>
               Walked(L.Entries(), level - 1, L.Entries(), L.IsBlock(slots[i]) && Terminated(now, ToWords(now[slots[i]]), KidsAt(us, i)),
                      KidsAt(us, i), count - n, left, r, left')
    requires L.IsBlock(slots[i]) && r.Done? && Fits(L.Entries(), level - 1, KidsAt(us, i), L.Entries(), left, count - n) ==>
               Written(now, d1, LeavesAll(KidsAt(us, i)), left, r.count, source, After(at, n, L.blockSize), L.blockSize)
    requires L.IsBlock(slots[i]) && (Fits(L.Entries(), level - 1, KidsAt(us, i), L.Entries(), left, count - n)
                                     || Terminated(now, ToWords(now[slots[i]]), KidsAt(us, i))) ==>
               Confined(now, d1, LeavesAll(KidsAt(us, i)))
    requires Fits(L.Entries(), level, us, |slots|, skip, count) ==> Written(d0, now, LeavesAll(us), skip, n, source, at, L.blockSize)
    requires good ==> Confined(d0, now, LeavesAll(us))
    ensures r == Failed || r == Done(0) ==>
              && Walked(L.Entries(), level, |slots|, ended, us, count, skip, r, left')
              && !Fits(L.Entries(), level, us, |slots|, skip, count)
    ensures r.Done? && r.count > 0 ==>
              && n + r.count <= count
              && Walking(L.Entries(), level, |slots|, ended, us, count, skip, i + 1, n + r.count, left')
    ensures Readable(L, d1, level, slots, us) && (ended ==> Terminated(d1, slots, us))
    ensures good ==> Confined(d0, d1, LeavesAll(us))
    ensures Fits(L.Entries(), level, us, |slots|, skip, count) ==>
              r.Done? && Written(d0, d1, LeavesAll(us), skip, n + r.count, source, at, L.blockSize)
  {
    hide *;
    L.ImageFacts(d0);
    L.ImageFacts(now);
    SlotStep(L, now, level, slots, us, ended, count, skip, i, n, left, r, left');
    SlotReadable(L, now, level, slots, us, i);
    ReadableEmpty(L, d1, level, slots);
    ApartAllFacts(us);
    if good {
      if slots[i] != 0 {
        SlotLeaves(us, i);
        ConfinedJoin(d0, now, d1, LeavesAll(us), LeavesAll(KidsAt(us, i)), |LeavesAll(us[..i])|);
        ConfinedRefl(now, LeavesAll(us));
        ConfinedJoin(now, now, d1, LeavesAll(us), LeavesAll(KidsAt(us, i)), |LeavesAll(us[..i])|);
      } else {
        ConfinedRefl(now, LeavesAll(us));
      }
      ReadableFrame(L, now, d1, level, slots, us, LeavesAll(us));
    }
    if Fits(L.Entries(), level, us, |slots|, skip, count) {
      SlotWritten(L.Entries(), d0, now, d1, L.blockSize, level, us, count, skip, i, n, left, r, source, at);
    }
  }

  lemma SlotLeaves(ts: seq<Tree>, i: nat)
    requires i < |ts| && ts[i].Node?
    ensures |LeavesAll(ts[..i])| + |LeavesAll(KidsAt(ts, i))| <= |LeavesAll(ts)|
    ensures LeavesAll(ts)[|LeavesAll(ts[..i])|..|LeavesAll(ts[..i])| + |LeavesAll(KidsAt(ts, i))|] == LeavesAll(KidsAt(ts, i))
  {
    LeavesAt(ts, i);
  }

  lemma SlotWritten(e: nat, d0: seq<Block>, now: seq<Block>, d1: seq<Block>, size: nat, level: nat, ts: seq<Tree>,
                    count: nat,
                    skip: nat, i: nat, n: nat, left: nat, r: IoResult, source: seq<Byte>, at: nat)
    requires forall k :: 0 <= k < |LeavesAll(ts)| ==> LeavesAll(ts)[k] < |d0|
    requires forall k :: 0 <= k < |LeavesAll(KidsAt(ts, i))| ==> LeavesAll(KidsAt(ts, i))[k] < |now|
    requires NoDup(LeavesAll(ts)) && 0 < level && n < count && SlotDelivers(e, level, ts, count, skip, i, n, left, r)
    requires Written(d0, now, LeavesAll(ts), skip, n, source, at, size)
    requires r.Done? && Written(now, d1, LeavesAll(KidsAt(ts, i)), left, r.count, source, After(at, n, size), size)
    ensures Written(d0, d1, LeavesAll(ts), skip, n + r.count, source, at, size)
  {
    hide Written, Fits, KidsAt, LeavesAll, After, NoDup;
    WrittenJoin(d0, now, d1, size, LeavesAll(ts), LeavesAll(KidsAt(ts, i)), |LeavesAll(ts[..i])|, skip, n, left, r.count, source, at);
  }
}
