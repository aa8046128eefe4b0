/** The packed records of a directory: a chain of entries that tiles the bytes from one offset to another. */
module Chains {
  import opened Codec

  const HEADER: nat := 8
  const REC_OFFSET: nat := 4
  const LEN_OFFSET: nat := 6

  /** The part of a name that its one-byte length keeps. */
  function Short(name: seq<Byte>): (r: seq<Byte>)
    ensures |r| == |name| % 0x100
  {
    name[..|name| % 0x100]
  }

  datatype Dirent = Dirent(inode: Word, recLen: int, fileType: Byte, name: seq<Byte>)

  /** Bytes of an entry with a name of n bytes, rounded up to a multiple of 4. */
  function Need(n: nat): nat {
    (HEADER + n + 3) / 4 * 4
  }

  /** The least multiple of 4 that holds header and name; a length that is no multiple of 4 leaves room for the NUL. */
  lemma NeedRoom(n: nat)
    ensures Need(n) % 4 == 0 && 8 + n <= Need(n) < 8 + n + 4
    ensures HEADER + n <= Need(n) < HEADER + n + 4
    ensures Need(n) == HEADER + n <==> n % 4 == 0
  {
  }

  function RecLen(s: seq<Byte>, o: nat): (r: nat)
    requires o + HEADER <= |s|
  {
    HalfAt(s, o + REC_OFFSET)
  }

  /** There is a whole entry at offset o, and it ends by offset `end`. */
  predicate Fits(s: seq<Byte>, o: nat, end: nat) {
    o + HEADER <= end <= |s| && Need(s[o + LEN_OFFSET]) <= RecLen(s, o) && o + RecLen(s, o) <= end
  }

  /** The entry at offset o. */
  function At(s: seq<Byte>, o: nat): Dirent
    requires o + HEADER <= |s| && o + HEADER + s[o + LEN_OFFSET] <= |s|
  {
    Dirent(WordAt(s, o), RecLen(s, o), s[o + LEN_OFFSET + 1], s[o + HEADER..o + HEADER + s[o + LEN_OFFSET]])
  }

  lemma EntryFacts(s: seq<Byte>, o: nat, end: nat)
    requires Fits(s, o, end)
    ensures o + HEADER <= |s| && o + HEADER + s[o + LEN_OFFSET] <= |s|
    ensures |At(s, o).name| == s[o + LEN_OFFSET] && At(s, o).recLen == RecLen(s, o)
    ensures At(s, o).inode == WordAt(s, o)
  {
  }

  lemma EntryNamed(t: seq<Byte>, n: nat, e: Dirent)
    requires n + HEADER <= |t| && n + HEADER + t[n + LEN_OFFSET] <= |t| && At(t, n) == e
    ensures t[n + LEN_OFFSET] == |e.name| && RecLen(t, n) == e.recLen
  {
  }

  /** Whole entries, one after another, from offset a exactly to offset b. */
  predicate Tiled(s: seq<Byte>, a: nat, b: nat)
    decreases b - a
  {
    a <= b <= |s| && (a == b || (Fits(s, a, b) && Tiled(s, a + RecLen(s, a), b)))
  }

  /** The entries that a walk from offset a to offset b meets. */
  function Parse(s: seq<Byte>, a: nat, b: nat): seq<Dirent>
    requires Tiled(s, a, b)
    decreases b - a
  {
    if a == b then [] else [At(s, a)] + Parse(s, a + RecLen(s, a), b)
  }

  function Total(es: seq<Dirent>): int {
    if es == [] then 0 else es[0].recLen + Total(es[1..])
  }

  /** The record lengths add up to the stretch, and every record has room for its name: every walk ends exactly at b. */
  lemma {:induction false} TiledLengths(s: seq<Byte>, a: nat, b: nat)
    requires Tiled(s, a, b)
    ensures Total(Parse(s, a, b)) == b - a
    ensures forall i :: 0 <= i < |Parse(s, a, b)| ==> var e := Parse(s, a, b)[i]; Need(|e.name|) <= e.recLen < 0x1_0000 && |e.name| < 0x100
    decreases b - a
  {
    hide At, HalfAt, WordAt;
    if a < b {
      EntryFacts(s, a, b);
      TiledLengths(s, a + RecLen(s, a), b);
    }
  }

  /** Only the bytes of a stretch matter to its entries. */
  lemma {:induction false} ChainFrame(s: seq<Byte>, t: seq<Byte>, a: nat, b: nat)
    requires Tiled(s, a, b) && b <= |t| && forall k :: a <= k < b ==> s[k] == t[k]
    ensures Tiled(t, a, b) && Parse(t, a, b) == Parse(s, a, b)
    decreases b - a
  {
    if a < b {
      EntryFrame(s, t, a, b);
      ChainFrame(s, t, a + RecLen(s, a), b);
    }
  }

  lemma EntryFrame(s: seq<Byte>, t: seq<Byte>, a: nat, b: nat)
    requires Fits(s, a, b) && b <= |t| && forall k :: a <= k < a + RecLen(s, a) ==> s[k] == t[k]
    ensures Fits(t, a, b) && RecLen(t, a) == RecLen(s, a) && At(t, a) == At(s, a)
  {
    assert s[a + HEADER..a + HEADER + s[a + LEN_OFFSET]] == t[a + HEADER..a + HEADER + s[a + LEN_OFFSET]];
  }

  lemma {:induction false} ChainJoin(s: seq<Byte>, a: nat, b: nat, c: nat)
    requires Tiled(s, a, b) && Tiled(s, b, c)
    ensures Tiled(s, a, c) && Parse(s, a, c) == Parse(s, a, b) + Parse(s, b, c)
    decreases b - a
  {
    hide At, HalfAt;
    if a < b {
      var n := a + RecLen(s, a);
      TiledOrder(s, b, c);
      ChainJoin(s, n, b, c);
      assert Fits(s, a, c);
      assert [At(s, a)] + (Parse(s, n, b) + Parse(s, b, c)) == ([At(s, a)] + Parse(s, n, b)) + Parse(s, b, c);
    }
  }

  lemma TiledOrder(s: seq<Byte>, a: nat, b: nat)
    requires Tiled(s, a, b)
    ensures a <= b <= |s|
  {
  }

  lemma ChainOne(s: seq<Byte>, a: nat, b: nat)
    requires Fits(s, a, b)
    ensures Tiled(s, a, a + RecLen(s, a)) && Parse(s, a, a + RecLen(s, a)) == [At(s, a)]
    ensures Tiled(s, a + RecLen(s, a), b) ==> Tiled(s, a, b) && Parse(s, a, b) == [At(s, a)] + Parse(s, a + RecLen(s, a), b)
  {
    var e := a + RecLen(s, a);
    assert Tiled(s, e, e) && Parse(s, e, e) == [];
  }

  // ----- Entries as bytes -----

  /** The bytes of an entry's header and name. */
  function EntryBytes(e: Dirent): (s: seq<Byte>)
    requires 0 <= e.recLen < 0x1_0000 && |e.name| < 0x100
    ensures |s| == HEADER + |e.name|
  {
    WordBytes(e.inode) + HalfBytes(e.recLen) + [|e.name| as Byte, e.fileType] + e.name
  }

  /** An entry stored at an offset is found there. */
  lemma EntryRoundTrip(s: seq<Byte>, o: nat, e: Dirent)
    requires 0 <= e.recLen < 0x1_0000 && |e.name| < 0x100 && o + HEADER + |e.name| <= |s|
    ensures At(Splice(s, o, EntryBytes(e)), o) == e
  {
    var t := Splice(s, o, EntryBytes(e));
    WordOfBytes(e.inode);
    assert t[o..o + 4] == WordBytes(e.inode);
    assert WordAt(t, o) == WordAt(t[o..o + 4], 0);
    assert t[o + 4..o + 6] == HalfBytes(e.recLen);
    assert HalfAt(t, o + 4) == HalfAt(t[o + 4..o + 6], 0);
    assert t[o + HEADER..o + HEADER + |e.name|] == e.name;
  }

  /**
   A record with the given fields at offset o: the inode number, the record length, the length of the name, the type, and
   the name.
   */
  predicate Stores(s: seq<Byte>, o: nat, inode: Word, recLen: int, fileType: Byte, name: seq<Byte>) {
    && o + 8 + |name| <= |s|
    && Little(s, o) == inode && s[o + 4] as int + 0x100 * s[o + 5] as int == recLen
    && s[o + 6] as int == |name| && s[o + 7] == fileType
    && forall k :: 0 <= k < |name| ==> s[o + 8 + k] == name[k]
  }

  /** The layout of a record. */
  lemma EntryStores(s: seq<Byte>, o: nat, e: Dirent)
    requires o + HEADER <= |s| && o + HEADER + s[o + LEN_OFFSET] <= |s|
    ensures At(s, o) == e <==> Stores(s, o, e.inode, e.recLen, e.fileType, e.name)
  {
    LittleIs(s, o);
    if Stores(s, o, e.inode, e.recLen, e.fileType, e.name) {
      assert s[o + HEADER..o + HEADER + |e.name|] == e.name;
    }
  }

  // ----- What the operations do to the list of entries -----

  /** The last entry gives up what it does not need to a new one; nothing happens when that is not enough. */
  function Added(es: seq<Dirent>, inode: Word, fileType: Byte, name: seq<Byte>): (r: seq<Dirent>) {
    if es == [] || Need(|es[|es| - 1].name|) + Need(|name|) > es[|es| - 1].recLen then es
    else
      var k := |es| - 1;
      var need := Need(|es[k].name|);
      es[..k] + [es[k].(recLen := need), Dirent(inode, es[k].recLen - need, fileType, name)]
  }

  /** The index of the first entry for an inode, or |es|. */
  function Index(es: seq<Dirent>, inode: Word): (i: nat)
    ensures i <= |es|
    ensures i < |es| ==> es[i].inode == inode
    ensures forall j :: 0 <= j < i ==> es[j].inode != inode
  {
    if es == [] then 0 else if es[0].inode == inode then 0 else 1 + Index(es[1..], inode)
  }

  /** The first entry for an inode goes, and the entry before it takes over its bytes. */
  function Removed(es: seq<Dirent>, inode: Word): (r: seq<Dirent>) {
    var i := Index(es, inode);
    if i == 0 || i == |es| then es
    else es[..i - 1] + [es[i - 1].(recLen := es[i - 1].recLen + es[i].recLen)] + es[i + 1..]
  }

  lemma {:induction false} IndexIs(es: seq<Dirent>, inode: Word, i: nat)
    requires i <= |es| && (forall j :: 0 <= j < i ==> es[j].inode != inode) && (i < |es| ==> es[i].inode == inode)
    ensures Index(es, inode) == i
  {
    var j := Index(es, inode);
    assert j < |es| ==> es[j].inode == inode;
  }

  lemma AddedIs(front: seq<Dirent>, last: Dirent, inode: Word, fileType: Byte, name: seq<Byte>)
    requires Need(|last.name|) + Need(|name|) <= last.recLen
    ensures var need := Need(|last.name|);
            Added(front + [last], inode, fileType, name) ==
            front + [last.(recLen := need), Dirent(inode, last.recLen - need, fileType, name)]
  {
    assert (front + [last])[..|front|] == front;
  }

  lemma RemovedIs(front: seq<Dirent>, prev: Dirent, gone: Dirent, rest: seq<Dirent>, inode: Word)
    requires (forall j :: 0 <= j < |front + [prev]| ==> (front + [prev])[j].inode != inode) && gone.inode == inode
    ensures Index(front + [prev] + ([gone] + rest), inode) == |front| + 1
    ensures Removed(front + [prev] + ([gone] + rest), inode) == front + [prev.(recLen := prev.recLen + gone.recLen)] + rest
  {
    var es := front + [prev] + ([gone] + rest);
    assert forall j :: 0 <= j < |front| + 1 ==> es[j] == (front + [prev])[j];
    IndexIs(es, inode, |front| + 1);
    assert es[..|front|] == front && es[|front| + 2..] == rest;
  }

  /** Adding an entry for an inode that has none, and removing it, restores every entry and every record length. */
  lemma AddThenRemove(es: seq<Dirent>, inode: Word, fileType: Byte, name: seq<Byte>)
    requires Index(es, inode) == |es|
    ensures Removed(Added(es, inode, fileType, name), inode) == es
  {
    hide Index, Need;
    if es != [] && Need(|es[|es| - 1].name|) + Need(|name|) <= es[|es| - 1].recLen {
      var front, last := es[..|es| - 1], es[|es| - 1];
      var need := Need(|last.name|);
      var kept, added := last.(recLen := need), Dirent(inode, last.recLen - need, fileType, name);
      assert es == front + [last];
      AddedIs(front, last, inode, fileType, name);
      assert Added(es, inode, fileType, name) == front + [kept] + ([added] + []);
      RemovedIs(front, kept, added, [], inode);
    }
  }

  /** Adding keeps every earlier entry but for the record length of the last. */
  lemma AddedKeeps(es: seq<Dirent>, inode: Word, fileType: Byte, name: seq<Byte>)
    requires es != []
    ensures var after := Added(es, inode, fileType, name);
            && |es| <= |after| <= |es| + 1 && Total(after) == Total(es)
            && forall j :: 0 <= j < |es| ==> after[j] == es[j].(recLen := after[j].recLen) && (j < |es| - 1 ==> after[j] == es[j])
  {
    var k := |es| - 1;
    var after := Added(es, inode, fileType, name);
    if |after| != |es| {
      assert es == es[..k] + [es[k]];
      TotalConcat(es[..k], [es[k]]);
      TotalConcat(es[..k], after[k..]);
      assert after == es[..k] + after[k..];
      TotalOne(es[k]);
      TotalOne(after[k]);
      TotalOne(after[k + 1]);
      TotalConcat([after[k]], [after[k + 1]]);
      assert after[k..] == [after[k]] + [after[k + 1]];
    }
  }

  // ----- Alignment -----

  /** Every record starts at a multiple of 4; its length is one, too, and holds its header and name. */
  predicate Aligned(es: seq<Dirent>) {
    forall i :: 0 <= i < |es| ==> Total(es[..i]) % 4 == 0 && es[i].recLen % 4 == 0 && 8 + |es[i].name| <= es[i].recLen
  }

  lemma {:induction false} AlignedLengths(es: seq<Dirent>)
    requires forall i :: 0 <= i < |es| ==> es[i].recLen % 4 == 0 && 8 + |es[i].name| <= es[i].recLen
    ensures Aligned(es) && Total(es) % 4 == 0
    decreases |es|
  {
    if es != [] {
      var n := |es| - 1;
      AlignedLengths(es[..n]);
      assert es == es[..n] + [es[n]];
      TotalConcat(es[..n], [es[n]]);
      TotalOne(es[n]);
      forall i | 0 <= i < |es| ensures Total(es[..i]) % 4 == 0 {
        assert i < n ==> es[..n][..i] == es[..i];
      }
    }
  }

  lemma AlignedAdded(es: seq<Dirent>, inode: Word, fileType: Byte, name: seq<Byte>)
    requires Aligned(es)
    ensures Aligned(Added(es, inode, fileType, name))
  {
    hide Need, Total;
    if es != [] {
      NeedRoom(|es[|es| - 1].name|);
      NeedRoom(|name|);
    }
    AlignedLengths(Added(es, inode, fileType, name));
  }

  lemma AlignedRemoved(es: seq<Dirent>, inode: Word)
    requires Aligned(es)
    ensures Aligned(Removed(es, inode))
  {
    hide Need, Total, Index;
    AlignedLengths(Removed(es, inode));
  }

  /** Entry i is stored where the record lengths before it end. */
  lemma {:induction false} EntryOffset(s: seq<Byte>, a: nat, b: nat, i: nat)
    requires Tiled(s, a, b) && i < |Parse(s, a, b)|
    ensures 0 <= Total(Parse(s, a, b)[..i])
    ensures var o := a + Total(Parse(s, a, b)[..i]); Fits(s, o, b) && At(s, o) == Parse(s, a, b)[i]
    decreases b - a
  {
    hide At, HalfAt, WordAt, Need;
    var es, n := Parse(s, a, b), a + RecLen(s, a);
    if i == 0 {
      assert es[..0] == [];
    } else {
      EntryOffset(s, n, b, i - 1);
      EntryFacts(s, a, b);
      var rest := Parse(s, n, b);
      assert es[..i] == [At(s, a)] + rest[..i - 1];
      assert es[..i][1..] == rest[..i - 1];
    }
  }

  /** The alignment of the records, by the bytes of a directory. */
  predicate AlignedRecords(s: seq<Byte>, size: nat) {
    && Tiled(s, 0, size)
    && forall i :: 0 <= i < |Parse(s, 0, size)| ==>
         var o := Total(Parse(s, 0, size)[..i]);
         && 0 <= o && o + 8 <= |s| && o % 4 == 0 && o + 8 + s[o + 6] <= |s| && At(s, o) == Parse(s, 0, size)[i]
         && HalfAt(s, o + 4) % 4 == 0 && 8 + s[o + 6] as int <= HalfAt(s, o + 4)
  }

  lemma RecordsAligned(s: seq<Byte>, size: nat)
    requires Tiled(s, 0, size) && Aligned(Parse(s, 0, size))
    ensures AlignedRecords(s, size)
  {
    hide At, HalfAt, Total, Parse, Tiled;
    var es := Parse(s, 0, size);
    forall i | 0 <= i < |es|
      ensures var o := Total(es[..i]);
              && 0 <= o && o + 8 <= |s| && o + 8 + s[o + 6] <= |s| && At(s, o) == es[i]
              && HalfAt(s, o + 4) == es[i].recLen && s[o + 6] as int == |es[i].name|
    {
      EntryOffset(s, 0, size, i);
      EntryFacts(s, Total(es[..i]), size);
    }
  }

  lemma TotalOne(e: Dirent)
    ensures Total([e]) == e.recLen
  {
  }

  lemma {:induction false} TotalConcat(es: seq<Dirent>, fs: seq<Dirent>)
    ensures Total(es + fs) == Total(es) + Total(fs)
    decreases |es|
  {
    if es == [] {
      assert es + fs == fs;
    } else {
      TotalConcat(es[1..], fs);
      assert (es + fs)[1..] == es[1..] + fs;
    }
  }
}
