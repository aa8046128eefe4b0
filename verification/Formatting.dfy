/** The states that the other modules speak about exist: any proper geometry has a sound, empty partition. */
module Formatting {
  import opened Codec
  import opened Arith
  import opened Bits
  import opened Layouts
  import opened Partitions
  import opened Trees
  import opened Inodes
  import opened Volumes
  import opened Chains
  import opened Lookups
  import opened Names
  import opened Directories
  import opened DirectoryRuns
  import opened NamedFiles
  import opened Paths
  import opened Folders
  import opened Namespaces
  import Allocator

  /** A disk on which every byte is 0xFF. */
  ghost predicate Blank(L: Layout, d: seq<Block>) {
    |d| == L.blockCount && forall b :: 0 <= b < |d| ==> |d[b]| == L.blockSize && forall i :: 0 <= i < |d[b]| ==> d[b][i] == 0xFF
  }

  lemma BlankUsed(L: Layout, d: seq<Block>, g: nat, i: nat)
    requires L.Ok() && L.Image(d) && Blank(L, d) && g < L.Groups() && i < 8 * L.blockSize
    ensures L.BitUsed(d, g, i)
  {
    var b := d[L.bitmaps[g]];
    var j := 4 * (i / 32);
    assert b[j] == 0xFF && b[j + 1] == 0xFF && b[j + 2] == 0xFF && b[j + 3] == 0xFF;
    assert ToWords(b)[i / 32] == 0xFFFF_FFFF;
    FullWord(0xFFFF_FFFF);
  }

  /** On such a disk nothing is free. */
  lemma BlankSound(L: Layout, d: seq<Block>, counts: seq<nat>)
    requires L.Ok() && Blank(L, d) && |counts| == L.Groups() && forall g :: 0 <= g < |counts| ==> counts[g] == 0
    ensures L.Sound(d, counts, 0) && L.FreeSet(d) == {}
  {
    hide Layout.FreeSet, Layout.BitUsed;
    assert L.Image(d);
    forall b: nat ensures b !in L.FreeSet(d) {
      L.FreeSetMember(d, b);
      if L.IsBlock(b) {
        L.NumberOfBlock(b);
        BlankUsed(L, d, L.GroupOf(b), L.IndexOf(b));
      }
    }
    forall g: nat, i: nat | g < L.Groups() && i < 8 * L.blockSize ensures L.BitUsed(d, g, i) {
      BlankUsed(L, d, g, i);
    }
    assert forall g :: 0 <= g < L.Groups() ==> L.FreeIn(d, g) == {};
  }

  /** A partition without files in which exactly the blocks without bitmaps and inodes are free. */
  method Format(L: Layout, cleared: bool) returns (p: Partition)
    requires L.InodesOk() && L.blockCount > 0
    ensures fresh(p) && fresh(p.disk) && p.L == L && p.cleared == cleared && Live(p, map[])
    ensures forall b :: b in p.Free() <==> L.IsBlock(b) && !L.Reserved(b)
  {
    hide Layout.Sound, Layout.FreeSet, Layout.MarkFree, Layout.Image;
    var disk := new Block[L.blockCount](_ => seq(L.blockSize, _ => 0xFF));
    var counts: seq<nat> := seq(|L.bitmaps|, _ => 0);
    p := new Partition(L, disk, cleared, counts, 0);
    BlankSound(L, p.disk[..], counts);
    SoundShaped(p);
    var b := 1;
    while b < L.blockCount
      invariant 1 <= b <= L.blockCount && p.Valid()
      invariant forall f :: f in p.Free() <==> 1 <= f < b && !L.Reserved(f)
    {
      if !L.Reserved(b) {
        InWord(L, b);
        var freed := Allocator.DeallocateBlock(p, b);
      }
      b := b + 1;
    }
    NoFiles(p);
  }

  lemma InWord(L: Layout, b: nat)
    requires L.Ok() && 1 <= b < L.blockCount
    ensures L.IsBlock(b) && b < 0x1_0000_0000
  {
  }

  lemma SoundShaped(p: Partition)
    requires p.L.Sound(p.disk[..], p.groupFree, p.superFree)
    ensures p.Valid() && p.Free() == p.L.FreeSet(p.disk[..])
  {
  }

  lemma NoFiles(p: Partition)
    requires p.Valid() && p.L.InodesOk()
    ensures Live(p, map[])
  {
  }

  // ----- A root directory -----

  const ROOT: Word := 2

  function Zeroes(n: nat): seq<Byte> {
    seq(n, _ => 0)
  }

  lemma AnyFree(p: Partition)
    requires p.Valid() && p.Shaped()
    requires forall b :: b in p.Free() <==> p.L.IsBlock(b) && !p.L.Reserved(b)
    ensures p.Free() != {} <==> exists b :: p.L.IsBlock(b) && !p.L.Reserved(b)
  {
    if p.Free() != {} {
      var b :| b in p.Free();
    }
  }

  lemma OverAll(s: seq<Byte>, t: seq<Byte>, size: nat)
    requires |s| == size == |t|
    ensures Splice(s, 0, t[..size]) == t
  {
  }

  /** A namespace with nothing but an empty root. */
  lemma RootClosed(dirs: Volume)
    requires dirs == map[ROOT_INODE := Chain(Initial(Zeroes(DIRECTORY_BYTES), ROOT, ROOT), DIRECTORY_BYTES)]
    ensures Closed(dirs)
    ensures var f := dirs[ROOT_INODE]; Ready(f.data, f.size) && Tiled(f.data, 0, f.size) && Quiet(f.data, 0, f.size)
  {
    hide Initial, Tiled, Ready, Quiet, Navigable;
    InitialLookup(Zeroes(DIRECTORY_BYTES), ROOT, ROOT, []);
    assert Zeroes(DIRECTORY_BYTES)[22] == 0;
    InitialNavigable(Zeroes(DIRECTORY_BYTES), ROOT, ROOT, {ROOT_INODE});
    assert dirs.Keys == {ROOT_INODE};
  }

  lemma OnlyRoot(dirs: Volume, f: Folder)
    requires dirs.Keys == {ROOT_INODE} && dirs[ROOT_INODE] == f
    ensures dirs == map[ROOT_INODE := f]
  {
  }

  lemma InitialLength(n: nat)
    requires DIRECTORY_BYTES <= n
    ensures |Initial(Zeroes(n), ROOT, ROOT)| == n == |Zeroes(n)|
  {
  }

  /**
   A partition with an empty root directory: a closed namespace whose root is ready for new names. There is one for every
   geometry with 1024-byte blocks that has a block to spare and a slot for inode 2.
   */
  method FormatRoot(L: Layout, cleared: bool) returns (ok: bool, p: Partition, ghost files: map<nat, seq<Tree>>)
    requires L.InodesOk() && L.blockCount > 0 && L.blockSize == DIRECTORY_BYTES && IsInode(L, ROOT)
    ensures fresh(p) && fresh(p.disk) && p.L == L && p.cleared == cleared && Live(p, files)
    ensures ok <==> exists b :: L.IsBlock(b) && !L.Reserved(b)
    ensures ok ==> Namespace(p, files)
                   && FoldersOf(p, files) ==
                      map[ROOT_INODE := Chain(Initial(Zeroes(DIRECTORY_BYTES), ROOT, ROOT), DIRECTORY_BYTES)]
                   && (var f := FoldersOf(p, files)[ROOT_INODE];
                       Ready(f.data, f.size) && Tiled(f.data, 0, f.size) && Quiet(f.data, 0, f.size))
  {
    hide *;
    p := Format(L, cleared);
    LiveFacts(p, map[]);
    p.ShapedFacts();
    AnyFree(p);
    RootMode();
    ghost var file: seq<Tree>;
    ok, file := MakeInode(p, ROOT, ROOT, INODE_TYPE_DIR, true, 0, 0, 0, 0, map[]);
    ghost var none: map<nat, seq<Tree>> := map[];
    files := none[ROOT as nat := file];
    if !ok {
      return;
    }
    LiveFacts(p, files);
    LiveFile(p, files, ROOT);
    LoadsIs(p, files, ROOT);
    DirectoryMode(Inode(p, files, ROOT));
    InitialLength(DIRECTORY_BYTES);
    ghost var before := Data(p, files, ROOT);
    var bytes: seq<Byte> := Initial(Zeroes(DIRECTORY_BYTES), ROOT, ROOT);
    var stored := StoreDirectory(p, ROOT, bytes, DIRECTORY_BYTES, files);
    OverAll(before, bytes, DIRECTORY_BYTES);
    FolderAt(p, files, ROOT);
    LoadsIs(p, files, ROOT);
    NamespaceIs(p, files);
    assert files.Keys == {ROOT_INODE};
    OnlyRoot(FoldersOf(p, files), Chain(bytes, DIRECTORY_BYTES));
    RootClosed(FoldersOf(p, files));
  }

  lemma NamespaceIs(p: Partition, files: map<nat, seq<Tree>>)
    requires Live(p, files)
    ensures FoldersOf(p, files).Keys == files.Keys && (Namespace(p, files) <==> Closed(FoldersOf(p, files)))
  {
  }

  lemma RootMode()
    ensures DIRECTORY_BYTES < 0x1_0000_0000 && ROOT as nat == ROOT_INODE
    ensures 0 <= INODE_TYPE_DIR < 0x1_0000 && (INODE_TYPE_DIR / INODE_TYPE_DIR) % 2 == 1
  {
  }

  /** A proper geometry: one group of 1024-byte blocks, its bitmaps in blocks 1 and 2, its inode table in block 3. */
  function Small(blockCount: nat): Layout {
    Layout(1024, blockCount, 8192, [1], [2], [3], 1, 8, 128, 512)
  }

  lemma SmallIsProper(blockCount: nat)
    requires 4 <= blockCount <= 8192
    ensures Small(blockCount).InodesOk() && IsInode(Small(blockCount), ROOT)
    ensures forall b :: 4 <= b < blockCount ==> Small(blockCount).IsBlock(b) && !Small(blockCount).Reserved(b)
  {
    var L := Small(blockCount);
    forall b | L.IsBlock(b) ensures L.GroupOf(b) == 0 {
    }
    assert !L.IsTable(1) && !L.IsTable(2);
    DivUpUnique(8 * 128, 1024, 1);
  }
}
