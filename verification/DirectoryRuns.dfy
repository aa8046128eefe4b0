/** A fresh directory, and whole histories of creating and deleting its entries. */
module DirectoryRuns {
  import opened Codec
  import opened Chains
  import opened Dentries
  import opened Reading
  import opened Lookups
  import opened Removal
  import opened Names

  // ----- A fresh directory -----

  const DIRECTORY_BYTES: nat := 1024
  const DOT: Byte := 0x2E

  function Dot(inode: Word): Dirent {
    Dirent(inode, 12, FILE_TYPE_DIRECTORY, [DOT])
  }

  function DotDot(inode: Word): Dirent {
    Dirent(inode, DIRECTORY_BYTES - 12, FILE_TYPE_DIRECTORY, [DOT, DOT])
  }

  /** The first two records written over a block. */
  function Initial(s: seq<Byte>, inode: Word, parent: Word): (r: seq<Byte>)
    requires DIRECTORY_BYTES <= |s|
    ensures |r| == |s|
  {
    Splice(Splice(s, 0, EntryBytes(Dot(inode))), 12, EntryBytes(DotDot(parent)))
  }

  /**
   The two records, byte by byte: the directory itself as ".", over 12 bytes, its parent as "..", over the other 1012.
   */
  lemma InitialBytes(s: seq<Byte>, inode: Word, parent: Word)
    requires DIRECTORY_BYTES <= |s|
    ensures var t := Initial(s, inode, parent);
            && Stores(t, 0, inode, 12, 2, [0x2E]) && Stores(t, 12, parent, 1012, 2, [0x2E, 0x2E])
            && forall k :: 0 <= k < |s| && !(0 <= k < 9) && !(12 <= k < 22) ==> t[k] == s[k]
  {
    hide HalfAt, WordAt, At, EntryBytes, Stores;
    var m := Splice(s, 0, EntryBytes(Dot(inode)));
    var t := Initial(s, inode, parent);
    EntryRoundTrip(s, 0, Dot(inode));
    EntryNamed(m, 0, Dot(inode));
    EntryRoundTrip(m, 12, DotDot(parent));
    HeaderFrame(m, t, 0);
    EntryNamed(t, 0, Dot(inode));
    EntryNamed(t, 12, DotDot(parent));
    EntryStores(t, 0, Dot(inode));
    EntryStores(t, 12, DotDot(parent));
  }

  /** The chain of a fresh directory: itself and its parent, over 1024 bytes. */
  lemma InitialChain(s: seq<Byte>, inode: Word, parent: Word)
    requires DIRECTORY_BYTES <= |s|
    ensures var t := Initial(s, inode, parent);
            && Tiled(t, 0, DIRECTORY_BYTES) && Parse(t, 0, DIRECTORY_BYTES) == [Dot(inode), DotDot(parent)]
            && LastAt(t, 0, DIRECTORY_BYTES) == 12 && Aligned([Dot(inode), DotDot(parent)])
            && ((forall k :: 0 <= k < DIRECTORY_BYTES ==> s[k] == 0) ==> Quiet(t, 0, DIRECTORY_BYTES) && ZeroSlack(t, DIRECTORY_BYTES))
  {
    hide HalfAt, WordAt, At, EntryBytes, Tiled, Parse, Quiet;
    var m := Splice(s, 0, EntryBytes(Dot(inode)));
    var t := Initial(s, inode, parent);
    EntryRoundTrip(s, 0, Dot(inode));
    EntryNamed(m, 0, Dot(inode));
    EntryRoundTrip(m, 12, DotDot(parent));
    HeaderFrame(m, t, 0);
    EntryNamed(t, 0, Dot(inode));
    EntryNamed(t, 12, DotDot(parent));
    NothingQuiet(t, DIRECTORY_BYTES);
    ChainOne(t, 12, DIRECTORY_BYTES);
    ChainOne(t, 0, DIRECTORY_BYTES);
    assert Parse(t, 12, DIRECTORY_BYTES) == [DotDot(parent)];
    AlignedLengths([Dot(inode), DotDot(parent)]);
    NothingTiled(t, 0);
    LastOfTwo(t, 0, 0, 12, DIRECTORY_BYTES);
    if forall k :: 0 <= k < DIRECTORY_BYTES ==> s[k] == 0 {
      QuietOne(t, 12, DIRECTORY_BYTES);
      QuietOne(t, 0, DIRECTORY_BYTES);
    }
  }

  /**
   Written over zeroes, the two records make a directory that is ready for lookups, and they are all that is found.
   */
  lemma InitialLookup(s: seq<Byte>, inode: Word, parent: Word, q: seq<Byte>)
    requires DIRECTORY_BYTES <= |s| && (forall k :: 0 <= k < DIRECTORY_BYTES ==> s[k] == 0) && NoNul(q)
    ensures var t := Initial(s, inode, parent);
            && Ready(t, DIRECTORY_BYTES) && Tiled(t, 0, DIRECTORY_BYTES) && Quiet(t, 0, DIRECTORY_BYTES)
            && Find(t, 0, DIRECTORY_BYTES, q) == (if q == [DOT] then inode else if q == [DOT, DOT] then parent else 0)
            && (Found(t, 0, DIRECTORY_BYTES, q) <==> q == [DOT] || q == [DOT, DOT])
  {
    hide HalfAt, WordAt, At, EntryBytes, Tiled, Parse, Quiet, Initial, ZeroSlack, LastAt, Find, Found, Ready, NoNul;
    var t := Initial(s, inode, parent);
    InitialChain(s, inode, parent);
    LastIs(t, 0, DIRECTORY_BYTES);
    InitialLast(t, inode, parent);
    QuietReady(t, DIRECTORY_BYTES);
    FindIsByName(t, 0, DIRECTORY_BYTES, q);
    FoundIsNamed(t, 0, DIRECTORY_BYTES, q);
    TwoNames(inode, parent, q);
  }

  lemma InitialLast(t: seq<Byte>, inode: Word, parent: Word)
    requires Tiled(t, 0, DIRECTORY_BYTES) && LastAt(t, 0, DIRECTORY_BYTES) == 12
    requires Parse(t, 0, DIRECTORY_BYTES) == [Dot(inode), DotDot(parent)]
    ensures 12 + HEADER <= |t| && t[12 + LEN_OFFSET] == 2
  {
    hide HalfAt, WordAt;
    LastIs(t, 0, DIRECTORY_BYTES);
    var front := Parse(t, 0, 12);
    assert (front + [At(t, 12)])[|front|] == At(t, 12);
    assert |front| == 1;
    EntryFacts(t, 12, DIRECTORY_BYTES);
  }

  lemma TwoNames(inode: Word, parent: Word, q: seq<Byte>)
    ensures ByName([Dot(inode), DotDot(parent)], q) == if q == [DOT] then inode else if q == [DOT, DOT] then parent else 0
    ensures (exists i :: 0 <= i < 2 && [Dot(inode), DotDot(parent)][i].name == q) <==> q == [DOT] || q == [DOT, DOT]
  {
    var es := [Dot(inode), DotDot(parent)];
    assert es[1..] == [DotDot(parent)] && es[1..][1..] == [];
    assert es[0].name == [DOT] && es[1].name == [DOT, DOT];
    assert ByName(es[1..], q) == if q == [DOT, DOT] then parent else ByName([], q);
  }

  /** The record editing of ext2_initialize_directory. */
  method InitializeRecords(buffer: array<Byte>, inode: Word, parent: Word)
    requires DIRECTORY_BYTES <= buffer.Length
    modifies buffer
    ensures buffer[..] == Initial(old(buffer[..]), inode, parent)
  {
    CopyIn(buffer, 0, EntryBytes(Dot(inode)));
    CopyIn(buffer, 12, EntryBytes(DotDot(parent)));
  }

  // ----- Histories -----

  datatype Edit = Create(inode: Word, fileType: Byte, name: seq<Byte>) | Delete(inode: Word)

  function Apply(es: seq<Dirent>, edit: Edit): seq<Dirent> {
    match edit
    case Create(inode, fileType, name) => Added(es, inode, fileType, Short(name))
    case Delete(inode) => Removed(es, inode)
  }

  function ApplyAll(es: seq<Dirent>, edits: seq<Edit>): seq<Dirent> {
    if edits == [] then es else Apply(ApplyAll(es, edits[..|edits| - 1]), edits[|edits| - 1])
  }

  /** No name is empty, and the first entry is for the given inode. */
  predicate Regular(es: seq<Dirent>, first: Word) {
    es != [] && es[0].inode == first && forall i :: 0 <= i < |es| ==> es[i].name != []
  }

  /** A history that creates no empty name and leaves the first entry alone. */
  predicate Proper(edits: seq<Edit>, first: Word) {
    forall i :: 0 <= i < |edits| ==>
      match edits[i]
      case Create(_, _, name) => |name| % 0x100 != 0
      case Delete(inode) => inode != first
  }

  lemma RegularAdded(es: seq<Dirent>, first: Word, inode: Word, fileType: Byte, name: seq<Byte>)
    requires Regular(es, first) && name != []
    ensures Regular(Added(es, inode, fileType, name), first)
  {
  }

  lemma RegularRemoved(es: seq<Dirent>, first: Word, inode: Word)
    requires Regular(es, first) && inode != first
    ensures Index(es, inode) > 0 && Regular(Removed(es, inode), first)
  {
  }

  /** In a directory without empty names every removal is harmless. */
  lemma RegularSafe(s: seq<Byte>, size: nat, inode: Word, first: Word)
    requires Tiled(s, 0, size) && Regular(Parse(s, 0, size), first) && Index(Parse(s, 0, size), inode) < |Parse(s, 0, size)|
    ensures SafeToRemove(Parse(s, 0, size), Index(Parse(s, 0, size), inode))
  {
    TiledLengths(s, 0, size);
  }

  /**
   Any history, carried out on the bytes, is the history carried out on the list of entries; the chain stays tiled
   throughout.
   */
  method EditAll(buffer: array<Byte>, size: nat, edits: seq<Edit>, ghost first: Word)
    requires size < buffer.Length && size < 0x1_0000 && Tiled(buffer[..], 0, size)
    requires Regular(Parse(buffer[..], 0, size), first) && Proper(edits, first)
    modifies buffer
    ensures Tiled(buffer[..], 0, size) && Regular(Parse(buffer[..], 0, size), first)
    ensures Parse(buffer[..], 0, size) == ApplyAll(old(Parse(buffer[..], 0, size)), edits)
    ensures old(Aligned(Parse(buffer[..], 0, size))) ==> AlignedRecords(buffer[..], size)
  {
    hide Aligned, AlignedRecords, Tiled, Parse, Regular, Added, Removed, Index, SafeToRemove, Appended, LastAt,
         Erased, Middle, FindAt, RecLen, Need;
    ghost var es := Parse(buffer[..], 0, size);
    var i: nat := 0;
    while i < |edits|
      invariant i <= |edits| && Tiled(buffer[..], 0, size)
      invariant Regular(Parse(buffer[..], 0, size), first)
      invariant Parse(buffer[..], 0, size) == ApplyAll(es, edits[..i])
    {
      ghost var s := buffer[..];
      assert edits[..i + 1][..i] == edits[..i];
      match edits[i] {
        case Create(inode, fileType, name) =>
          RegularAdded(Parse(s, 0, size), first, inode, fileType, Short(name));
          var ok := Append(buffer, size, inode, fileType, name);
        case Delete(inode) =>
          RegularRemoved(Parse(s, 0, size), first, inode);
          NotRemoved(Parse(s, 0, size), inode);
          var deleted: bool;
          ghost var prev: nat, at: nat;
          deleted, prev, at := Remove(buffer, size, inode);
          if deleted {
            RegularSafe(s, size, inode, first);
          }
      }
      i := i + 1;
    }
    assert edits[..|edits|] == edits;
    if Aligned(es) {
      HistoryAligned(es, edits);
      RecordsAligned(buffer[..], size);
    }
  }

  /** Histories keep records aligned. */
  lemma {:induction false} HistoryAligned(es: seq<Dirent>, edits: seq<Edit>)
    requires Aligned(es)
    ensures Aligned(ApplyAll(es, edits))
    decreases |edits|
  {
    hide Aligned, Added, Removed;
    if edits != [] {
      var k := |edits| - 1;
      HistoryAligned(es, edits[..k]);
      var now := ApplyAll(es, edits[..k]);
      match edits[k] {
        case Create(inode, fileType, name) => AlignedAdded(now, inode, fileType, Short(name));
        case Delete(inode) => AlignedRemoved(now, inode);
      }
    }
  }

  lemma NotRemoved(es: seq<Dirent>, inode: Word)
    ensures Index(es, inode) == |es| ==> Removed(es, inode) == es
  {
  }

  /** Along a history the record lengths add up to what they added up to at first. */
  lemma {:induction false} HistoryTotal(es: seq<Dirent>, edits: seq<Edit>, first: Word)
    requires Regular(es, first) && Proper(edits, first)
    ensures Regular(ApplyAll(es, edits), first) && Total(ApplyAll(es, edits)) == Total(es)
    decreases |edits|
  {
    hide Added, Removed, Index, Total, Regular;
    if edits != [] {
      var k := |edits| - 1;
      HistoryTotal(es, edits[..k], first);
      var now := ApplyAll(es, edits[..k]);
      RegularNonempty(now, first);
      match edits[k] {
        case Create(inode, fileType, name) =>
          RegularAdded(now, first, inode, fileType, Short(name));
          AddedKeeps(now, inode, fileType, Short(name));
        case Delete(inode) =>
          RegularRemoved(now, first, inode);
          RemovedTotal(now, inode);
      }
    }
  }

  lemma RegularNonempty(es: seq<Dirent>, first: Word)
    requires Regular(es, first)
    ensures es != []
  {
  }

  lemma RemovedTotal(es: seq<Dirent>, inode: Word)
    ensures Total(Removed(es, inode)) == Total(es)
  {
    hide Total, Index;
    var i := Index(es, inode);
    if 0 < i < |es| {
      var a, b, c := es[..i - 1], es[i - 1..i + 1], es[i + 1..];
      var merged := [es[i - 1].(recLen := es[i - 1].recLen + es[i].recLen)];
      assert es == a + (b + c) && Removed(es, inode) == a + (merged + c);
      assert b == [es[i - 1]] + [es[i]];
      TotalConcat(a, b + c);
      TotalConcat(b, c);
      TotalConcat([es[i - 1]], [es[i]]);
      TotalConcat(a, merged + c);
      TotalConcat(merged, c);
      TotalOne(es[i - 1]);
      TotalOne(es[i]);
      TotalOne(merged[0]);
    }
  }
}
