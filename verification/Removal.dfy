/** Removing a directory record in place. */
module Removal {
  import opened Codec
  import opened Chains
  import opened Dentries
  import opened Reading

  /**
   The offset of the first entry for an inode, and of the entry before it (itself when it is the first); b, when there
   is none.
   */
  function FindAt(s: seq<Byte>, a: nat, b: nat, inode: Word): (o: nat)
    requires Tiled(s, a, b)
    ensures a <= o <= b
    ensures o < b ==> Fits(s, o, b)
    decreases b - a
  {
    if a == b || WordAt(s, a) == inode then a else FindAt(s, a + RecLen(s, a), b, inode)
  }

  /** What the walk has behind it when it stands at the entry it looks for. */
  lemma {:induction false} FindIs(s: seq<Byte>, a: nat, b: nat, inode: Word)
    requires Tiled(s, a, b)
    ensures var o := FindAt(s, a, b, inode);
            && Tiled(s, a, o) && Tiled(s, o, b) && Parse(s, a, b) == Parse(s, a, o) + Parse(s, o, b)
            && (forall j :: 0 <= j < |Parse(s, a, o)| ==> Parse(s, a, o)[j].inode != inode)
            && (o < b ==> WordAt(s, o) == inode)
    decreases b - a
  {
    hide At, HalfAt, WordAt;
    var o := FindAt(s, a, b, inode);
    if o == a {
      assert Parse(s, a, a) == [];
    } else {
      var n := a + RecLen(s, a);
      FindIs(s, n, b, inode);
      EntryFacts(s, a, b);
      assert Fits(s, a, o);
      assert Parse(s, a, o) == [At(s, a)] + Parse(s, n, o);
      assert [At(s, a)] + (Parse(s, n, o) + Parse(s, o, b)) == ([At(s, a)] + Parse(s, n, o)) + Parse(s, o, b);
    }
  }

  const CLEARED: seq<Byte> := [0, 0, 0, 0, 0, 0, 0, 0, 0]

  /**
   The bytes after the entry at o is cleared, its first name byte included, and the one at prev (if it is another)
   took over its bytes.
   */
  function Erased(s: seq<Byte>, prev: nat, o: nat): (r: seq<Byte>)
    requires o + HEADER < |s| && prev + HEADER <= |s| && (prev == o || RecLen(s, prev) + RecLen(s, o) < 0x1_0000)
    ensures |r| == |s|
  {
    if prev == o then Splice(s, o, CLEARED)
    else Splice(Splice(s, prev + REC_OFFSET, HalfBytes(RecLen(s, prev) + RecLen(s, o))), o, CLEARED)
  }

  /**
   From s to t, byte by byte: below `limit`, header and first name byte of the entry at o are zero, the record length of
   the one at prev (if it is another) grew by that of the entry at o, and every other byte is kept.
   */
  predicate Cleared(s: seq<Byte>, t: seq<Byte>, limit: nat, prev: nat, o: nat) {
    && |t| == |s| && prev + 8 <= |s| && o + 8 <= |s|
    && (forall k :: o <= k <= o + 8 && k < |s| && k < limit ==> t[k] == 0)
    && (prev != o ==> t[prev + 4] as int + 0x100 * t[prev + 5] as int ==
                      (s[prev + 4] as int + 0x100 * s[prev + 5] as int) + (s[o + 4] as int + 0x100 * s[o + 5] as int))
    && forall k :: 0 <= k < |s| && !(o <= k <= o + 8 && k < limit) && !(prev != o && prev + 4 <= k < prev + 6) ==> t[k] == s[k]
  }

  /** There is an entry at o with its predecessor at prev in the chain. */
  ghost predicate Between(s: seq<Byte>, size: nat, prev: nat, o: nat) {
    && Tiled(s, 0, size) && Tiled(s, 0, prev) && Fits(s, prev, size) && prev + RecLen(s, prev) == o
    && Fits(s, o, size) && Tiled(s, o + RecLen(s, o), size)
  }

  /** From s to t the first record for an inode was removed from a directory of the given size, byte by byte. */
  ghost predicate Deleted(s: seq<Byte>, t: seq<Byte>, size: nat, target: Word) {
    && Tiled(s, 0, size) && size <= |s|
    && var o := FindAt(s, 0, size, target);
       && o < size
       && if o == 0 then Cleared(s, t, size, 0, 0)
          else Tiled(s, 0, o) && Between(s, size, LastAt(s, 0, o), o) && Cleared(s, t, size, LastAt(s, 0, o), o)
  }

  lemma {:induction false} FindAtFrame(s: seq<Byte>, t: seq<Byte>, a: nat, b: nat, inode: Word)
    requires Tiled(s, a, b) && b <= |t| && forall k :: a <= k < b ==> s[k] == t[k]
    ensures Tiled(t, a, b) && FindAt(t, a, b, inode) == FindAt(s, a, b, inode)
    decreases b - a
  {
    hide HalfAt;
    ChainFrame(s, t, a, b);
    if a < b {
      EntryFrame(s, t, a, b);
      EntryFacts(s, a, b);
      EntryFacts(t, a, b);
      if WordAt(s, a) != inode {
        FindAtFrame(s, t, a + RecLen(s, a), b, inode);
      }
    }
  }

  /** Removing a record from a copy of the directory's bytes and writing the copy back removes it from the directory. */
  lemma DeletedStored(all: seq<Byte>, read: seq<Byte>, buffer: seq<Byte>, data: seq<Byte>, size: nat, target: Word,
                      prev: nat, o: nat)
    requires Tiled(read, 0, size) && size <= |all| && size <= |read| == |buffer| && read[..size] == all[..size]
    requires data == Splice(all, 0, buffer[..size]) && o == FindAt(read, 0, size, target) < size
    requires if o == 0 then prev == 0 else Tiled(read, 0, o) && Between(read, size, prev, o) && prev == LastAt(read, 0, o)
    requires Cleared(read, buffer, |read|, prev, o)
    ensures Deleted(all, data, size, target)
  {
    hide FindAt, LastAt, Cleared, Between, Tiled;
    assert forall k :: 0 <= k < size ==> read[k] == read[..size][k] && all[k] == all[..size][k];
    FindAtFrame(read, all, 0, size, target);
    if 0 < o {
      ChainFrame(read, all, 0, o);
      LastFrame(read, all, 0, o);
      BetweenFrame(read, all, size, prev, o);
    }
    ClearedStored(all, read, buffer, data, size, prev, o);
  }

  lemma BetweenFrame(s: seq<Byte>, t: seq<Byte>, size: nat, prev: nat, o: nat)
    requires Between(s, size, prev, o) && size <= |t| && forall k :: 0 <= k < size ==> s[k] == t[k]
    ensures Between(t, size, prev, o)
  {
    hide Tiled, At, HalfAt;
    ChainFrame(s, t, 0, size);
    ChainFrame(s, t, 0, prev);
    EntryFrame(s, t, prev, size);
    EntryFrame(s, t, o, size);
    ChainFrame(s, t, o + RecLen(s, o), size);
  }

  lemma ClearedStored(all: seq<Byte>, read: seq<Byte>, buffer: seq<Byte>, data: seq<Byte>, size: nat, prev: nat, o: nat)
    requires size <= |all| && size <= |read| == |buffer| && forall k :: 0 <= k < size ==> read[k] == all[k]
    requires data == Splice(all, 0, buffer[..size]) && Cleared(read, buffer, |read|, prev, o)
    requires prev + HEADER <= size && o + HEADER <= size
    ensures Cleared(all, data, size, prev, o)
  {
    assert forall k :: 0 <= k < size ==> data[k] == buffer[k];
  }

  lemma ErasedCleared(s: seq<Byte>, prev: nat, o: nat)
    requires o + HEADER < |s| && prev + HEADER <= |s| && (prev == o || RecLen(s, prev) + RecLen(s, o) < 0x1_0000)
    requires prev == o || prev + HEADER <= o
    ensures Cleared(s, Erased(s, prev, o), |s|, prev, o)
  {
    hide HalfBytes, Splice, CLEARED;
    if prev == o {
      Zeroed(s, o);
    } else {
      var rec := RecLen(s, prev) + RecLen(s, o);
      HalfStored(s, prev + REC_OFFSET, rec);
      Zeroed(Splice(s, prev + REC_OFFSET, HalfBytes(rec)), o);
    }
  }

  lemma Zeroed(m: seq<Byte>, o: nat)
    requires o + HEADER < |m|
    ensures |CLEARED| == 9
    ensures forall k :: 0 <= k < |m| ==> Splice(m, o, CLEARED)[k] == if o <= k <= o + 8 then 0 else m[k]
  {
  }

  lemma HalfStored(s: seq<Byte>, i: nat, h: int)
    requires i + 2 <= |s| && 0 <= h < 0x1_0000
    ensures var t := Splice(s, i, HalfBytes(h));
            && t[i] as int + 0x100 * t[i + 1] as int == h
            && forall k :: 0 <= k < |s| && !(i <= k < i + 2) ==> t[k] == s[k]
  {
  }

  /** Clearing the first name byte of the entry at o hurts no other entry. */
  predicate Harmless(s: seq<Byte>, o: nat, size: nat)
    requires o + HEADER < |s|
  {
    RecLen(s, o) > HEADER || o + HEADER >= size || s[o + HEADER] == 0
  }

  /** An entry without predecessor leaves a record length of 0 behind: the walk no longer gets past it. */
  lemma FirstErased(s: seq<Byte>, size: nat)
    requires Tiled(s, 0, size) && 0 < size && HEADER < |s|
    ensures RecLen(Erased(s, 0, 0), 0) == 0 && !Tiled(Erased(s, 0, 0), 0, size)
  {
    assert Erased(s, 0, 0)[4] == 0 && Erased(s, 0, 0)[5] == 0;
  }

  lemma ErasedBytes(s: seq<Byte>, prev: nat, o: nat, size: nat)
    requires Fits(s, prev, size) && prev + RecLen(s, prev) == o && Fits(s, o, size) && size < |s| && size < 0x1_0000
    ensures var t := Erased(s, prev, o);
            && Fits(t, prev, size) && RecLen(t, prev) == RecLen(s, prev) + RecLen(s, o)
            && At(t, prev) == At(s, prev).(recLen := RecLen(s, prev) + RecLen(s, o))
            && (forall k :: 0 <= k < prev ==> t[k] == s[k])
            && (forall k :: o + HEADER < k < |s| ==> t[k] == s[k])
            && (forall k :: prev + HEADER <= k < o ==> t[k] == s[k])
            && t[o + HEADER] == 0
  {
    hide At, HalfAt;
    var rec := RecLen(s, prev) + RecLen(s, o);
    var m := Splice(s, prev + REC_OFFSET, HalfBytes(rec));
    var t := Erased(s, prev, o);
    RecLenStored(s, prev, size, rec);
    assert Need(s[prev + LEN_OFFSET]) >= HEADER + s[prev + LEN_OFFSET];
    HeaderFrame(m, t, prev);
  }

  lemma HeaderFrame(s: seq<Byte>, t: seq<Byte>, o: nat)
    requires o + HEADER <= |s| == |t| && o + HEADER + s[o + LEN_OFFSET] <= |s|
    requires forall k :: o <= k < o + HEADER + s[o + LEN_OFFSET] ==> t[k] == s[k]
    ensures RecLen(t, o) == RecLen(s, o) && t[o + LEN_OFFSET] == s[o + LEN_OFFSET] && At(t, o) == At(s, o)
  {
    assert t[o + HEADER..o + HEADER + t[o + LEN_OFFSET]] == s[o + HEADER..o + HEADER + s[o + LEN_OFFSET]];
  }

  /** There is an entry at o, its predecessor is at prev, and whole chains lie before and behind them. */
  ghost predicate Middle(s: seq<Byte>, size: nat, prev: nat, o: nat) {
    && Tiled(s, 0, prev) && Fits(s, prev, size) && prev + RecLen(s, prev) == o
    && Fits(s, o, size) && Tiled(s, o + RecLen(s, o), size) && size < |s| && size < 0x1_0000
  }

  lemma MiddleFacts(s: seq<Byte>, size: nat, prev: nat, o: nat)
    requires Middle(s, size, prev, o)
    ensures prev < o && o + HEADER < |s| && prev + HEADER <= |s| && RecLen(s, prev) + RecLen(s, o) < 0x1_0000
    ensures prev + HEADER + s[prev + LEN_OFFSET] <= |s|
  {
  }

  /** The entries with the one at o gone, and its bytes given to the one at prev. */
  ghost function Without(s: seq<Byte>, size: nat, prev: nat, o: nat): seq<Dirent>
    requires Middle(s, size, prev, o)
  {
    MiddleFacts(s, size, prev, o);
    Parse(s, 0, prev) + [At(s, prev).(recLen := RecLen(s, prev) + RecLen(s, o))] + Parse(s, o + RecLen(s, o), size)
  }

  /**
   Removing a later entry keeps the chain tiled, and the entries behind it are intact exactly when that is harmless.
   */
  lemma ErasedParse(s: seq<Byte>, size: nat, prev: nat, o: nat)
    requires Middle(s, size, prev, o)
    ensures (MiddleFacts(s, size, prev, o);
             && Tiled(Erased(s, prev, o), 0, size)
             && (Harmless(s, o, size) <==> Parse(Erased(s, prev, o), 0, size) == Without(s, size, prev, o)))
  {
    hide At, HalfAt, WordAt, Erased, Splice, Harmless;
    MiddleFacts(s, size, prev, o);
    var t, n := Erased(s, prev, o), o + RecLen(s, o);
    ErasedBytes(s, prev, o, size);
    ChainFrame(s, t, 0, prev);
    NextFrame(s, t, o, n, size);
    ChainOne(t, prev, size);
    ChainJoin(t, 0, prev, size);
    var front, last := Parse(s, 0, prev), At(s, prev).(recLen := RecLen(s, prev) + RecLen(s, o));
    assert Parse(t, 0, size) == front + ([last] + Parse(t, n, size));
    assert front + ([last] + Parse(t, n, size)) == (front + [last]) + Parse(t, n, size);
    SameTail(front + [last], Parse(t, n, size), Parse(s, n, size));
  }

  lemma SameTail(front: seq<Dirent>, x: seq<Dirent>, y: seq<Dirent>)
    ensures front + x == front + y <==> x == y
  {
    if front + x == front + y {
      assert x == (front + x)[|front|..] && y == (front + y)[|front|..];
    }
  }

  /** The entries behind the erased one: at most the low byte of the next inode number is lost. */
  lemma NextFrame(s: seq<Byte>, t: seq<Byte>, o: nat, n: nat, size: nat)
    requires Fits(s, o, size) && n == o + RecLen(s, o) && Tiled(s, n, size) && size < |s| == |t|
    requires (forall k :: o + HEADER < k < |s| ==> t[k] == s[k]) && t[o + HEADER] == 0
    ensures Tiled(t, n, size) && (Harmless(s, o, size) <==> Parse(t, n, size) == Parse(s, n, size))
  {
    hide At, HalfAt, WordAt;
    if Harmless(s, o, size) {
      ChainFrame(s, t, n, size);
    } else {
      var rec := RecLen(s, n);
      TailFrame(s, t, n, size);
      assert Tiled(t, n, size);
      InodesDiffer(s, t, n);
      EntryFacts(s, n, size);
      EntryFacts(t, n, size);
      assert Parse(t, n, size)[0] == At(t, n) && Parse(s, n, size)[0] == At(s, n);
    }
  }

  lemma TailFrame(s: seq<Byte>, t: seq<Byte>, n: nat, size: nat)
    requires Fits(s, n, size) && Tiled(s, n, size) && |s| == |t| && forall k :: n < k < |s| ==> t[k] == s[k]
    ensures Fits(t, n, size) && RecLen(t, n) == RecLen(s, n) && Tiled(t, n + RecLen(t, n), size)
  {
    ChainFrame(s, t, n + RecLen(s, n), size);
  }

  lemma InodesDiffer(s: seq<Byte>, t: seq<Byte>, n: nat)
    requires n + 4 <= |s| == |t| && t[n] == 0 != s[n] && t[n + 1] == s[n + 1] && t[n + 2] == s[n + 2] && t[n + 3] == s[n + 3]
    ensures WordAt(s, n) != WordAt(t, n)
  {
  }

  lemma FoundFirst(es: seq<Dirent>, inode: Word)
    requires es != [] && es[0].inode == inode
    ensures Index(es, inode) == 0
  {
  }

  /** Where the walk stands: the entry before, if any, and no entry for the inode so far. */
  ghost predicate Standing(s: seq<Byte>, size: nat, inode: Word, prev: nat, o: nat) {
    && Tiled(s, 0, size) && Tiled(s, o, size) && Tiled(s, 0, o) && FindAt(s, 0, size, inode) == FindAt(s, o, size, inode)
    && (o == 0 ==> prev == 0)
    && (o > 0 ==> Tiled(s, 0, prev) && Fits(s, prev, size) && prev + RecLen(s, prev) == o)
    && (o > 0 ==> Parse(s, 0, o) == Parse(s, 0, prev) + [At(s, prev)])
  }

  lemma StandingStart(s: seq<Byte>, size: nat, inode: Word)
    requires Tiled(s, 0, size)
    ensures Standing(s, size, inode, 0, 0)
  {
  }

  lemma StandingStep(s: seq<Byte>, size: nat, inode: Word, prev: nat, o: nat)
    requires Standing(s, size, inode, prev, o) && o < size && WordAt(s, o) != inode
    ensures Fits(s, o, size) && Standing(s, size, inode, o, o + RecLen(s, o))
  {
    hide At, HalfAt, WordAt;
    var n := o + RecLen(s, o);
    ChainOne(s, o, size);
    ChainJoin(s, 0, o, n);
    assert FindAt(s, o, size, inode) == FindAt(s, n, size, inode);
  }

  lemma StandingFits(s: seq<Byte>, size: nat, inode: Word, prev: nat, o: nat)
    requires Standing(s, size, inode, prev, o) && o < size
    ensures Fits(s, o, size)
  {
  }

  /**
   Removing entry i hurts no other entry: the byte behind its header is its own, or nobody's, or the next inode number
   ends in a zero byte.
   */
  predicate SafeToRemove(es: seq<Dirent>, i: nat)
    requires i < |es|
  {
    es[i].recLen > HEADER || i + 1 == |es| || es[i + 1].inode % 0x100 == 0
  }

  /** What follows the entry at o. */
  lemma Follower(s: seq<Byte>, size: nat, o: nat)
    requires Tiled(s, o, size) && o < size
    ensures Fits(s, o, size) && o + HEADER <= |s| && HEADER <= RecLen(s, o) && Tiled(s, o + RecLen(s, o), size)
    ensures o + HEADER + s[o + LEN_OFFSET] <= |s| && Parse(s, o, size) == [At(s, o)] + Parse(s, o + RecLen(s, o), size)
    ensures At(s, o).recLen == RecLen(s, o) && At(s, o).inode == WordAt(s, o)
    ensures o + RecLen(s, o) <= size <= |s|
    ensures o + RecLen(s, o) == size ==> Parse(s, o + RecLen(s, o), size) == []
  {
    hide At, HalfAt, WordAt;
    EntryFacts(s, o, size);
    NeedRoom(s[o + LEN_OFFSET]);
  }

  lemma HarmlessIs(s: seq<Byte>, size: nat, o: nat, front: seq<Dirent>)
    requires Tiled(s, o, size) && o < size < |s|
    ensures Fits(s, o, size)
    ensures var es := front + Parse(s, o, size);
            |front| < |es| && (Harmless(s, o, size) <==> SafeToRemove(es, |front|))
  {
    hide At, HalfAt, WordAt, RecLen, Tiled, Parse, Fits, Need;
    Follower(s, size, o);
    var n := o + RecLen(s, o);
    var es, rest := front + Parse(s, o, size), Parse(s, n, size);
    assert es == front + ([At(s, o)] + rest);
    if n < size {
      Follower(s, size, n);
      assert es[|front| + 1] == rest[0] == At(s, n);
      LowByte(s, n);
    }
  }

  lemma LowByte(s: seq<Byte>, n: nat)
    requires n + 4 <= |s|
    ensures WordAt(s, n) % 0x100 == s[n]
  {
  }

  /** The walk met the entry: what erasing it makes of the list. */
  lemma StandingFound(s: seq<Byte>, size: nat, inode: Word, prev: nat, o: nat)
    requires Standing(s, size, inode, prev, o) && o < size && WordAt(s, o) == inode && size < |s| && size < 0x1_0000
    ensures Fits(s, o, size) && o + HEADER < |s| && o == FindAt(s, 0, size, inode)
    ensures Index(Parse(s, 0, size), inode) < |Parse(s, 0, size)|
    ensures o == 0 <==> Index(Parse(s, 0, size), inode) == 0
    ensures o == 0 ==> prev == 0 && !Tiled(Erased(s, 0, 0), 0, size)
    ensures o > 0 ==> Middle(s, size, prev, o) && (MiddleFacts(s, size, prev, o); Tiled(Erased(s, prev, o), 0, size))
    ensures o > 0 ==> (MiddleFacts(s, size, prev, o);
                       SafeToRemove(Parse(s, 0, size), Index(Parse(s, 0, size), inode)) <==>
                       Parse(Erased(s, prev, o), 0, size) == Removed(Parse(s, 0, size), inode))
  {
    hide At, HalfAt, WordAt, Erased, Harmless, Removed, Index, SafeToRemove;
    FindIs(s, 0, size, inode);
    HarmlessIs(s, size, o, Parse(s, 0, o));
    EntryFacts(s, o, size);
    var n := o + RecLen(s, o);
    assert Parse(s, o, size) == [At(s, o)] + Parse(s, n, size);
    if o == 0 {
      FirstErased(s, size);
      FoundFirst(Parse(s, 0, size), inode);
    } else {
      EntryFacts(s, prev, size);
      ErasedParse(s, size, prev, o);
      RemovedIs(Parse(s, 0, prev), At(s, prev), At(s, o), Parse(s, n, size), inode);
    }
  }

  lemma StandingBetween(s: seq<Byte>, size: nat, inode: Word, prev: nat, o: nat)
    requires Standing(s, size, inode, prev, o) && o < size
    ensures if o == 0 then prev == 0 else
              prev + HEADER <= o && Between(s, size, prev, o) && Tiled(s, 0, o) && prev == LastAt(s, 0, o)
  {
    hide At, HalfAt, FindAt;
    if o > 0 {
      NeedRoom(s[prev + LEN_OFFSET]);
      LastOfOne(s, 0, prev, o);
    }
  }

  lemma StandingEnd(s: seq<Byte>, size: nat, inode: Word, prev: nat)
    requires Standing(s, size, inode, prev, size)
    ensures Index(Parse(s, 0, size), inode) == |Parse(s, 0, size)|
  {
    FindIs(s, 0, size, inode);
    IndexIs(Parse(s, 0, size), inode, |Parse(s, 0, size)|);
  }

  /**
   The record editing of ext2_delete_dentry. The first entry for the inode goes if there is one; the chain survives that
   exactly when it is not the first entry of all, and the list is as it should be exactly when no other entry was hurt.
   */
  method Remove(buffer: array<Byte>, size: nat, inode: Word) returns (deleted: bool, ghost prev: nat, ghost at: nat)
    requires size < buffer.Length && size < 0x1_0000 && Tiled(buffer[..], 0, size)
    modifies buffer
    ensures var s := old(buffer[..]); var es := Parse(s, 0, size); var i := Index(es, inode);
            && (deleted <==> i < |es|)
            && (!deleted ==> buffer[..] == s)
            && (deleted ==> (Tiled(buffer[..], 0, size) <==> i > 0))
            && (deleted && i > 0 ==> (SafeToRemove(es, i) <==> Parse(buffer[..], 0, size) == Removed(es, inode)))
    ensures deleted ==> var s := old(buffer[..]);
                        && at == FindAt(s, 0, size, inode) < size && (at == 0 ==> prev == 0) && (at > 0 ==> Middle(s, size, prev, at))
                        && at + HEADER < |s| && prev + HEADER <= |s| && (prev == at || RecLen(s, prev) + RecLen(s, at) < 0x1_0000)
                        && buffer[..] == Erased(s, prev, at)
                        && (at > 0 <==> Index(Parse(s, 0, size), inode) > 0)
                        && Cleared(s, buffer[..], buffer.Length, prev, at)
                        && (at > 0 ==> Between(s, size, prev, at) && Tiled(s, 0, at) && prev == LastAt(s, 0, at))
    ensures deleted ==> forall k :: size < k < buffer.Length ==> buffer[k] == old(buffer[k])
  {
    hide Standing, Middle, Parse, Removed, Index, Harmless, SafeToRemove, FindAt, Tiled, Splice, At, Cleared, Between, LastAt;
    ghost var s := buffer[..];
    var previous: nat, o: nat := 0, 0;
    StandingStart(s, size, inode);
    while o < size
      invariant o <= size && Standing(s, size, inode, previous, o) && buffer[..] == s
      decreases size - o
    {
      StandingFits(s, size, inode, previous, o);
      if WordAt(buffer[..], o) == inode {
        StandingFound(s, size, inode, previous, o);
        if o > 0 {
          MiddleFacts(s, size, previous, o);
          CopyIn(buffer, previous + REC_OFFSET, HalfBytes(RecLen(buffer[..], previous) + RecLen(buffer[..], o)));
        }
        CopyIn(buffer, o, CLEARED);
        StandingBetween(s, size, inode, previous, o);
        ErasedCleared(s, previous, o);
        return true, previous, o;
      }
      StandingStep(s, size, inode, previous, o);
      previous, o := o, o + RecLen(buffer[..], o);
    }
    StandingEnd(s, size, inode, previous);
    return false, 0, 0;
  }
}
