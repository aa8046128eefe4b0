/** Directory records in a buffer: appending, removing, listing and finding entries in place. */
module Dentries {
  import opened Codec
  import opened Chains
  import opened Reading

  const FILE_TYPE_DIRECTORY: Byte := 2

  // ----- Appending -----

  /** The offset of the last entry of a nonempty stretch. */
  function LastAt(s: seq<Byte>, a: nat, b: nat): (o: nat)
    requires Tiled(s, a, b) && a < b
    ensures a <= o < b && Fits(s, o, b) && Fits(s, o, |s|) && o + RecLen(s, o) == b
    decreases b - a
  {
    if a + RecLen(s, a) == b then a else LastAt(s, a + RecLen(s, a), b)
  }

  lemma {:induction false} LastIs(s: seq<Byte>, a: nat, b: nat)
    requires Tiled(s, a, b) && a < b
    ensures var o := LastAt(s, a, b);
            && a <= o < b && Tiled(s, a, o) && Fits(s, o, b) && o + RecLen(s, o) == b
            && Parse(s, a, b) == Parse(s, a, o) + [At(s, o)]
    decreases b - a
  {
    hide At, HalfAt;
    var n := a + RecLen(s, a);
    if n == b {
      assert Parse(s, b, b) == [] && Parse(s, a, a) == [];
    } else {
      LastIs(s, n, b);
      var o := LastAt(s, a, b);
      assert Fits(s, a, o);
      assert [At(s, a)] + (Parse(s, n, o) + [At(s, o)]) == ([At(s, a)] + Parse(s, n, o)) + [At(s, o)];
    }
  }

  lemma {:induction false} LastOfOne(t: seq<Byte>, a: nat, o: nat, end: nat)
    requires Tiled(t, a, o) && Fits(t, o, end) && o + RecLen(t, o) == end
    ensures Tiled(t, a, end) && a < end && LastAt(t, a, end) == o
    decreases o - a
  {
    hide HalfAt;
    if a < o {
      LastOfOne(t, a + RecLen(t, a), o, end);
    } else {
      assert Tiled(t, end, end);
    }
  }

  /** The buffer with a new entry in the slack of the last one. */
  function Appended(s: seq<Byte>, o: nat, inode: Word, fileType: Byte, name: seq<Byte>): (r: seq<Byte>)
    requires |name| < 0x100 && Fits(s, o, |s|) && Need(s[o + LEN_OFFSET]) + Need(|name|) <= RecLen(s, o)
    ensures |r| == |s|
  {
    var need := Need(s[o + LEN_OFFSET]);
    Splice(Splice(s, o + REC_OFFSET, HalfBytes(need)), o + need, EntryBytes(Dirent(inode, RecLen(s, o) - need, fileType, name)))
  }

  /** Storing a record length changes that of the entry and nothing else about it. */
  lemma RecLenStored(s: seq<Byte>, o: nat, end: nat, rec: nat)
    requires Fits(s, o, end) && rec < 0x1_0000
    ensures var t := Splice(s, o + REC_OFFSET, HalfBytes(rec));
            RecLen(t, o) == rec && At(t, o) == At(s, o).(recLen := rec) && t[o + LEN_OFFSET] == s[o + LEN_OFFSET]
  {
    var t := Splice(s, o + REC_OFFSET, HalfBytes(rec));
    assert t[o + 4..o + 6] == HalfBytes(rec);
    assert HalfAt(t, o + 4) == HalfAt(t[o + 4..o + 6], 0);
    assert t[o + HEADER..o + HEADER + t[o + LEN_OFFSET]] == s[o + HEADER..o + HEADER + s[o + LEN_OFFSET]];
  }

  /**
   From s to t a record was added behind the one at o, byte by byte: the record length at o is now the least multiple of 4
   that holds its header and name, the new record takes the rest, and every other byte is kept.
   */
  predicate Grafted(s: seq<Byte>, t: seq<Byte>, size: nat, o: nat, inode: Word, fileType: Byte, name: seq<Byte>) {
    && |t| == |s| && o + 8 <= |s|
    && var n := o + (8 + s[o + 6] as nat + 3) / 4 * 4;
       && n + 8 + |name| <= size <= |s|
       && t[o + 4] as int + 0x100 * t[o + 5] as int == n - o
       && Stores(t, n, inode, size - n, fileType, name)
       && forall k :: 0 <= k < |s| && !(o + 4 <= k < o + 6) && !(n <= k < n + 8 + |name|) ==> t[k] == s[k]
  }

  lemma AppendedGrafted(s: seq<Byte>, size: nat, o: nat, inode: Word, fileType: Byte, name: seq<Byte>)
    requires |name| < 0x100 && Fits(s, o, size) && Fits(s, o, |s|) && o + RecLen(s, o) == size
    requires Need(s[o + LEN_OFFSET]) + Need(|name|) <= RecLen(s, o)
    ensures Grafted(s, Appended(s, o, inode, fileType, name), size, o, inode, fileType, name)
  {
    hide At, HalfAt, Stores;
    var need := Need(s[o + LEN_OFFSET]);
    var e := Dirent(inode, RecLen(s, o) - need, fileType, name);
    var m := Splice(s, o + REC_OFFSET, HalfBytes(need));
    var t := Appended(s, o, inode, fileType, name);
    NeedRoom(|name|);
    RecLenStored(s, o, size, need);
    EntryRoundTrip(m, o + need, e);
    EntryNamed(t, o + need, e);
    EntryStores(t, o + need, e);
    SameHalf(m, t, o + REC_OFFSET);
  }

  lemma SameHalf(s: seq<Byte>, t: seq<Byte>, i: nat)
    requires i + 2 <= |s| == |t| && t[i] == s[i] && t[i + 1] == s[i + 1]
    ensures t[i] as int + 0x100 * t[i + 1] as int == HalfAt(t, i) == HalfAt(s, i)
  {
  }

  lemma NothingTiled(t: seq<Byte>, end: nat)
    requires end <= |t|
    ensures Tiled(t, end, end) && Parse(t, end, end) == []
  {
  }

  /** The last entry of the chain and the new one behind it. */
  lemma AppendedPair(s: seq<Byte>, o: nat, end: nat, inode: Word, fileType: Byte, name: seq<Byte>)
    requires |name| < 0x100 && Fits(s, o, end) && o + RecLen(s, o) == end
    requires Need(s[o + LEN_OFFSET]) + Need(|name|) <= RecLen(s, o)
    ensures var t, need := Appended(s, o, inode, fileType, name), Need(s[o + LEN_OFFSET]);
            && Tiled(t, o, end)
            && Parse(t, o, end) == [At(s, o).(recLen := need), Dirent(inode, RecLen(s, o) - need, fileType, name)]
    ensures forall k :: 0 <= k < |s| && !(o <= k < end) ==> Appended(s, o, inode, fileType, name)[k] == s[k]
  {
    hide At, HalfAt, Tiled, Parse;
    var need := Need(s[o + LEN_OFFSET]);
    var e := Dirent(inode, RecLen(s, o) - need, fileType, name);
    var m := Splice(s, o + REC_OFFSET, HalfBytes(need));
    var t := Appended(s, o, inode, fileType, name);
    RecLenStored(s, o, end, need);
    EntryFrame(m, t, o, o + need);
    EntryRoundTrip(m, o + need, e);
    EntryNamed(t, o + need, e);
    EntryNamed(t, o, At(t, o));
    NothingTiled(t, end);
    ChainOne(t, o + need, end);
    ChainOne(t, o, end);
  }

  /** Appending to the bytes is adding to the list of entries. */
  lemma AppendedParse(s: seq<Byte>, size: nat, inode: Word, fileType: Byte, name: seq<Byte>)
    requires Tiled(s, 0, size) && 0 < size && |name| < 0x100
    requires var o := LastAt(s, 0, size); Need(s[o + LEN_OFFSET]) + Need(|name|) <= RecLen(s, o)
    ensures var t := Appended(s, LastAt(s, 0, size), inode, fileType, name);
            && Tiled(t, 0, size) && Parse(t, 0, size) == Added(Parse(s, 0, size), inode, fileType, name)
            && |Parse(t, 0, size)| == |Parse(s, 0, size)| + 1
            && forall k :: size <= k < |s| ==> t[k] == s[k]
  {
    hide *;
    LastIs(s, 0, size);
    var o := LastAt(s, 0, size);
    var t := Appended(s, o, inode, fileType, name);
    TiledOrder(s, 0, size);
    EntryFacts(s, o, size);
    AppendedPair(s, o, size, inode, fileType, name);
    ChainFrame(s, t, 0, o);
    ChainJoin(t, 0, o, size);
    AddedIs(Parse(s, 0, o), At(s, o), inode, fileType, name);
  }

  lemma NotAppended(s: seq<Byte>, size: nat, inode: Word, fileType: Byte, name: seq<Byte>)
    requires Tiled(s, 0, size)
    requires 0 < size ==> var o := LastAt(s, 0, size); Need(s[o + LEN_OFFSET]) + Need(|name|) > RecLen(s, o)
    ensures Added(Parse(s, 0, size), inode, fileType, name) == Parse(s, 0, size)
  {
    if 0 < size {
      LastIs(s, 0, size);
    }
  }

  /** The last entry of the buffer, found by the walk; false when there is none. */
  method FindLast(buffer: array<Byte>, size: nat) returns (found: bool, o: nat)
    requires size <= buffer.Length && Tiled(buffer[..], 0, size)
    ensures found <==> 0 < size
    ensures found ==> o == LastAt(buffer[..], 0, size)
  {
    ghost var s := buffer[..];
    var parsed: nat := 0;
    found, o := false, 0;
    while parsed < size
      invariant Tiled(s, parsed, size) && (found <==> 0 < parsed)
      invariant parsed < size && 0 < size ==> LastAt(s, 0, size) == LastAt(s, parsed, size)
      invariant parsed == size && 0 < size ==> o == LastAt(s, 0, size)
      decreases size - parsed
    {
      found, o := true, parsed;
      parsed := parsed + RecLen(buffer[..], parsed);
    }
  }

  lemma AddedAligned(es: seq<Dirent>, inode: Word, fileType: Byte, name: seq<Byte>)
    ensures Aligned(es) ==> Aligned(Added(es, inode, fileType, name))
  {
    if Aligned(es) {
      AlignedAdded(es, inode, fileType, name);
    }
  }

  /**
   The record editing of ext2_create_directory_entry; false when the last entry has no room. Names are cut to their
   length modulo 256.
   */
  method Append(buffer: array<Byte>, size: nat, inode: Word, fileType: Byte, name: seq<Byte>) returns (ok: bool)
    requires size <= buffer.Length && Tiled(buffer[..], 0, size)
    modifies buffer
    ensures Tiled(buffer[..], 0, size)
    ensures Parse(buffer[..], 0, size) == Added(old(Parse(buffer[..], 0, size)), inode, fileType, Short(name))
    ensures ok <==> |Parse(buffer[..], 0, size)| > |old(Parse(buffer[..], 0, size))|
    ensures forall k :: size <= k < buffer.Length ==> buffer[k] == old(buffer[k])
    ensures ok ==> 0 < size && var s := old(buffer[..]); var o := LastAt(s, 0, size);
                               && Need(s[o + LEN_OFFSET]) + Need(|name| % 0x100) <= RecLen(s, o)
                               && buffer[..] == Appended(s, o, inode, fileType, Short(name))
                               && Grafted(s, buffer[..], size, o, inode, fileType, Short(name))
    ensures !ok ==> buffer[..] == old(buffer[..])
    ensures old(Aligned(Parse(buffer[..], 0, size))) ==> Aligned(Parse(buffer[..], 0, size))
  {
    hide Aligned, Grafted, At, Splice, EntryBytes, Parse, Tiled, LastAt, HalfAt, Added;
    AddedAligned(Parse(buffer[..], 0, size), inode, fileType, Short(name));
    ghost var s := buffer[..];
    ghost var short := Short(name);
    var length: nat := |name| % 0x100;
    var o: nat;
    ok, o := FindLast(buffer, size);
    if !ok {
      NotAppended(s, size, inode, fileType, short);
      return;
    }
    LastIs(s, 0, size);
    var need: nat := Need(buffer[o + LEN_OFFSET]);
    var rec: nat := RecLen(buffer[..], o);
    if need + Need(length) > rec {
      NotAppended(s, size, inode, fileType, short);
      return false;
    }
    CopyIn(buffer, o + REC_OFFSET, HalfBytes(need));
    CopyIn(buffer, o + need, EntryBytes(Dirent(inode, rec - need, fileType, Short(name))));
    AppendedParse(s, size, inode, fileType, short);
    AppendedGrafted(s, size, o, inode, fileType, short);
  }

  // ----- Whole directories -----

  /** The last entry has room for one more with a name of n bytes. */
  predicate HasRoom(s: seq<Byte>, size: nat, n: nat) {
    && n < 0x100 && Tiled(s, 0, size) && 0 < size
    && var o := LastAt(s, 0, size); Need(s[o + LEN_OFFSET]) + Need(n) <= RecLen(s, o)
  }

  /** The directory with one more entry. */
  function WithEntry(s: seq<Byte>, size: nat, inode: Word, fileType: Byte, name: seq<Byte>): (r: seq<Byte>)
    requires HasRoom(s, size, |name|)
    ensures |r| == |s|
  {
    Appended(s, LastAt(s, 0, size), inode, fileType, name)
  }

  /** What one more entry makes of the bytes of a directory. */
  lemma WithEntryGrafted(s: seq<Byte>, size: nat, inode: Word, fileType: Byte, name: seq<Byte>)
    requires HasRoom(s, size, |name|)
    ensures Grafted(s, WithEntry(s, size, inode, fileType, name), size, LastAt(s, 0, size), inode, fileType, name)
  {
    hide Tiled, Need, HalfAt, Grafted, Appended;
    AppendedGrafted(s, size, LastAt(s, 0, size), inode, fileType, name);
  }

  /** There is room exactly when adding to the list of entries adds one. */
  lemma RoomIs(s: seq<Byte>, size: nat, inode: Word, fileType: Byte, name: seq<Byte>)
    requires Tiled(s, 0, size) && |name| < 0x100
    ensures HasRoom(s, size, |name|) <==> |Added(Parse(s, 0, size), inode, fileType, name)| > |Parse(s, 0, size)|
    ensures HasRoom(s, size, |name|) ==>
              Tiled(WithEntry(s, size, inode, fileType, name), 0, size)
              && Parse(WithEntry(s, size, inode, fileType, name), 0, size) == Added(Parse(s, 0, size), inode, fileType, name)
  {
    hide Appended, LastAt, Tiled, Parse, Added, Need, HalfAt;
    if HasRoom(s, size, |name|) {
      AppendedParse(s, size, inode, fileType, name);
    } else {
      NotAppended(s, size, inode, fileType, name);
    }
  }

  /** The last entry is found in the bytes of the stretch alone. */
  lemma {:induction false} LastFrame(s: seq<Byte>, t: seq<Byte>, a: nat, b: nat)
    requires Tiled(s, a, b) && a < b <= |t| && forall k :: a <= k < b ==> s[k] == t[k]
    ensures Tiled(t, a, b) && LastAt(t, a, b) == LastAt(s, a, b)
    decreases b - a
  {
    hide At, HalfAt;
    ChainFrame(s, t, a, b);
    EntryFrame(s, t, a, b);
    if a + RecLen(s, a) < b {
      LastFrame(s, t, a + RecLen(s, a), b);
    }
  }

  /** Appending to a copy of the directory's bytes and writing the copy back appends to the directory. */
  lemma EntryStored(all: seq<Byte>, buffer: seq<Byte>, size: nat, inode: Word, fileType: Byte, name: seq<Byte>)
    requires size == |buffer| <= |all| && buffer == all[..size] && HasRoom(buffer, size, |name|)
    ensures HasRoom(all, size, |name|)
    ensures WithEntry(all, size, inode, fileType, name) == Splice(all, 0, WithEntry(buffer, size, inode, fileType, name)[..size])
  {
    hide Tiled, LastAt, Need, HalfAt, EntryBytes;
    LastFrame(buffer, all, 0, size);
    var o := LastAt(buffer, 0, size);
    EntryFrame(buffer, all, o, size);
    AppendedPrefix(all, buffer, size, o, inode, fileType, name);
  }

  lemma AppendedPrefix(all: seq<Byte>, buffer: seq<Byte>, size: nat, o: nat, inode: Word, fileType: Byte,
                       name: seq<Byte>)
    requires size == |buffer| <= |all| && buffer == all[..size] && |name| < 0x100
    requires Fits(buffer, o, size) && Fits(all, o, size)
    requires RecLen(all, o) == RecLen(buffer, o) && all[o + LEN_OFFSET] == buffer[o + LEN_OFFSET]
    requires Fits(all, o, |all|) && Need(buffer[o + LEN_OFFSET]) + Need(|name|) <= RecLen(buffer, o)
    ensures Appended(all, o, inode, fileType, name) == Splice(all, 0, Appended(buffer, o, inode, fileType, name)[..size])
  {
    hide HalfAt, EntryBytes, HalfBytes;
    NeedRoom(|name|);
    NeedRoom(all[o + LEN_OFFSET]);
  }

  lemma RoomFrame(s: seq<Byte>, t: seq<Byte>, size: nat, n: nat)
    requires Tiled(s, 0, size) && size <= |t| && forall k :: 0 <= k < size ==> s[k] == t[k]
    ensures HasRoom(t, size, n) <==> HasRoom(s, size, n)
  {
    hide Tiled, LastAt, Need, HalfAt;
    ChainFrame(s, t, 0, size);
    if 0 < size {
      LastFrame(s, t, 0, size);
      EntryFrame(s, t, LastAt(s, 0, size), size);
    }
  }
}
