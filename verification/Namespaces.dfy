/** The directory tree: resolving paths on the disk, and files by path. */
module Namespaces {
  import opened Codec
  import opened Layouts
  import opened Partitions
  import opened Trees
  import opened Inodes
  import opened Volumes
  import opened Ext2
  import opened NamedFiles
  import RoundTrips
  import opened Chains
  import opened Dentries
  import opened Lookups
  import opened Directories
  import opened Paths
  import opened Folders

  ghost function FolderIn(L: Layout, cleared: bool, d: seq<Block>, free: set<nat>, files: map<nat, seq<Tree>>,
                          n: nat): Folder
    requires AllLive(L, cleared, d, free, files) && n in files
  {
    LiveAll(L, cleared, d, free, files, n);
    LiveLeaves(L, cleared, d, free, n, files[n]);
    FolderOf(L.blockSize, InodeAt(L, d, n), Contents(L, d, files[n]))
  }

  /** All live files, as the walk over a path sees them. */
  ghost function FoldersIn(L: Layout, cleared: bool, d: seq<Block>, free: set<nat>,
                           files: map<nat, seq<Tree>>): (dirs: Volume)
    requires AllLive(L, cleared, d, free, files)
    ensures dirs.Keys == files.Keys
  {
    map n | n in files :: FolderIn(L, cleared, d, free, files, n)
  }

  ghost function FoldersOf(p: Partition, files: map<nat, seq<Tree>>): (dirs: Volume)
    requires Live(p, files)
    ensures dirs.Keys == files.Keys
    reads p, p.disk
  {
    FoldersIn(p.L, p.cleared, p.disk[..], p.Free(), files)
  }

  lemma FoldersAre(p: Partition, files: map<nat, seq<Tree>>)
    requires Live(p, files)
    ensures p.Shaped() && AllLive(p.L, p.cleared, p.disk[..], p.Free(), files)
    ensures FoldersOf(p, files) == FoldersIn(p.L, p.cleared, p.disk[..], p.Free(), files) && FoldersOf(p, files).Keys == files.Keys
  {
  }

  lemma FolderAt(p: Partition, files: map<nat, seq<Tree>>, n: nat)
    requires Live(p, files) && n in files
    ensures n in FoldersOf(p, files) && |Inode(p, files, n)| >= 128
    ensures FoldersOf(p, files)[n] == FolderOf(p.L.blockSize, Inode(p, files, n), Data(p, files, n))
    ensures FoldersOf(p, files)[n].Chain? <==> Loads(p, files, n)
    ensures FoldersOf(p, files)[n].Chain? ==> FoldersOf(p, files)[n] == Chain(Data(p, files, n), ISize(Inode(p, files, n)))
    ensures FoldersOf(p, files)[n].Plain? <==> !IsDirectory(Inode(p, files, n))
  {
    hide AllLive, Contents, InodeAt, ISize, IsDirectory;
    LiveFile(p, files, n);
  }

  lemma FolderKept(L: Layout, cleared: bool, d0: seq<Block>, f0: set<nat>, files: map<nat, seq<Tree>>,
                   d1: seq<Block>, f1: set<nat>, files': map<nat, seq<Tree>>, m: nat)
    requires AllLive(L, cleared, d0, f0, files) && AllLive(L, cleared, d1, f1, files') && m in files
    requires Kept(L, d0, files, d1, files', m)
    ensures m in files' && FoldersIn(L, cleared, d1, f1, files')[m] == FoldersIn(L, cleared, d0, f0, files)[m]
  {
    hide AllLive, Contents, InodeAt, FolderOf;
    var x, y := FolderIn(L, cleared, d0, f0, files, m), FolderIn(L, cleared, d1, f1, files', m);
    assert x == y;
  }

  /** Every directory can be read and leads to live inodes only. */
  ghost predicate Namespace(p: Partition, files: map<nat, seq<Tree>>)
    requires Live(p, files)
    reads p, p.disk
  {
    Closed(FoldersOf(p, files))
  }

  /** In a namespace every path can be followed, and leads to a live inode or nowhere. */
  lemma NamespacePath(p: Partition, files: map<nat, seq<Tree>>, path: seq<Byte>)
    requires Live(p, files) && Namespace(p, files)
    ensures Traversable(FoldersOf(p, files), ROOT_INODE, Tokens(path))
    ensures var n := Resolve(ChildIn(FoldersOf(p, files)), ROOT_INODE, Tokens(path)); n == 0 || n in files
  {
    hide Live, FoldersOf, Traversable, Tokens, Resolve;
    ClosedTraversable(FoldersOf(p, files), ROOT_INODE, Tokens(path));
  }

  // ----- Lookup on the disk -----

  /** The answer when the bytes that follow the directory in the buffer are not known. */
  ghost predicate Answers(f: Folder, slack: nat, q: seq<Byte>, inode: nat) {
    match f
    case Plain => inode == 0
    case Long => inode == 1
    case Chain(data, size) => size <= |data| && exists tail: seq<Byte> :: |tail| == slack && FoundWith(data[..size], tail, q, inode)
  }

  ghost predicate FoundWith(s: seq<Byte>, tail: seq<Byte>, q: seq<Byte>, inode: nat) {
    Tiled(s + tail, 0, |s|) && Find(s + tail, 0, |s|, q) == inode
  }

  lemma AnswersIs(data: seq<Byte>, size: nat, buffer: seq<Byte>, slack: nat, q: seq<Byte>, inode: nat)
    requires size <= |data| && |buffer| == size + slack && buffer[..size] == data[..size]
    requires Tiled(buffer, 0, size) && Find(buffer, 0, size, q) == inode
    ensures Answers(Chain(data, size), slack, q, inode)
  {
    var tail := buffer[size..];
    assert data[..size] + tail == buffer;
    assert FoundWith(data[..size], tail, q, inode);
  }

  /** The same directory in a longer buffer. */
  lemma SameLookup(data: seq<Byte>, size: nat, buffer: seq<Byte>, q: seq<Byte>)
    requires size <= |data| && size <= |buffer| && buffer[..size] == data[..size] && NoNul(q)
    requires Tiled(data, 0, size) && Anchored(data, size)
    ensures Tiled(buffer, 0, size) && Anchored(buffer, size) && Find(buffer, 0, size, q) == Find(data, 0, size, q)
  {
    hide Tiled, Find, LastAt, NoNul;
    assert forall k :: 0 <= k < size ==> buffer[k] == buffer[..size][k] && data[k] == data[..size][k];
    FindFrame(data, buffer, 0, size, size, q);
    if 0 < size {
      LastFrame(data, buffer, 0, size);
      var k :| LastAt(data, 0, size) + HEADER <= k < size && data[k] == 0;
      assert buffer[k] == 0;
    }
  }

  /**
   ext2_inode_from_path_and_parent. In a directory that is not anchored, the comparison with its last name may run into
   the rest of the buffer; the name must then be shorter than a block.
   */
  method LookupIn(p: Partition, n: nat, q: seq<Byte>, ghost files: map<nat, seq<Tree>>) returns (inode: Word)
    requires Live(p, files) && n in files && NoNul(q) && Whole(FoldersOf(p, files)[n])
    requires Readable(FoldersOf(p, files)[n]) || |q| < p.L.blockSize
    ensures Readable(FoldersOf(p, files)[n]) ==> inode == Answer(FoldersOf(p, files)[n], q)
    ensures Answers(FoldersOf(p, files)[n], p.L.blockSize, q, inode)
    ensures !IsDirectory(Inode(p, files, n)) ==> inode == 0
    ensures IsDirectory(Inode(p, files, n)) && ISize(Inode(p, files, n)) > 12 * p.L.blockSize ==> inode == 1
  {
    hide *;
    ghost var f := FoldersOf(p, files)[n];
    LiveFacts(p, files);
    FolderAt(p, files, n);
    LoadsIs(p, files, n);
    ChainedIs(p, files, n);
    FolderCases(f, q);
    var directory, loaded, buffer, size := LoadDirectory(p, n, p.L.blockSize, files);
    if !directory {
      return 0;
    }
    if !loaded {
      return 1;
    }
    ghost var data := Data(p, files, n);
    SameChain(data, buffer[..], size);
    if Readable(f) {
      SameLookup(data, size, buffer[..], q);
    }
    inode := Lookup(buffer, size, q);
    AnswersIs(data, size, buffer[..], p.L.blockSize, q, inode);
  }

  lemma FolderCases(f: Folder, q: seq<Byte>)
    ensures f.Plain? ==> Answer(f, q) == 0 && forall slack :: Answers(f, slack, q, 0)
    ensures f.Long? ==> Answer(f, q) == 1 && forall slack :: Answers(f, slack, q, 1)
    ensures f.Chain? ==> (Whole(f) <==> Tiled(f.data, 0, f.size))
    ensures f.Chain? && Readable(f) ==>
              Tiled(f.data, 0, f.size) && Anchored(f.data, f.size) && Answer(f, q) == Find(f.data, 0, f.size, q)
    ensures Readable(f) ==> Whole(f)
  {
  }

  lemma ResolveStep(dirs: Volume, n: nat, token: seq<Byte>, rest: seq<seq<Byte>>)
    requires Traversable(dirs, n, [token] + rest)
    ensures n in dirs && Readable(dirs[n])
    ensures Resolve(ChildIn(dirs), n, [token] + rest) ==
            if Answer(dirs[n], token) == 0 then 0 else Resolve(ChildIn(dirs), Answer(dirs[n], token), rest)
    ensures Answer(dirs[n], token) != 0 ==> Traversable(dirs, Answer(dirs[n], token), rest)
  {
    assert ([token] + rest)[1..] == rest;
  }

  lemma ResolveNone(dirs: Volume, n: nat)
    ensures Resolve(ChildIn(dirs), n, []) == n && Traversable(dirs, n, [])
  {
  }

  lemma ReadableWhole(f: Folder)
    requires Readable(f)
    ensures Whole(f)
  {
  }

  lemma NoNulToken(path: seq<Byte>, token: seq<Byte>)
    requires NoNul(path) && forall k :: 0 <= k < |token| ==> token[k] in path
    ensures NoNul(token)
  {
  }

  /** ext2_path_to_inode: the walk over the disk, token by token, resolves the path. */
  method PathToInode(p: Partition, path: seq<Byte>, ghost files: map<nat, seq<Tree>>) returns (inode: Word)
    requires Live(p, files) && NoNul(path) && Traversable(FoldersOf(p, files), ROOT_INODE, Tokens(path))
    ensures inode as nat == Resolve(ChildIn(FoldersOf(p, files)), ROOT_INODE, Tokens(path))
  {
    hide *;
    ghost var dirs := FoldersOf(p, files);
    FoldersAre(p, files);
    assert path[0..] == path;
    inode := 2;
    RootIs(inode);
    var at: nat := 0;
    var found: bool, token: seq<Byte>;
    found, token, at := NextToken(path, 0);
    while found
      invariant at <= |path|
      invariant found ==> |token| <= |path| && (forall k :: 0 <= k < |token| ==> token[k] in path)
      invariant Traversable(dirs, inode, if found then [token] + Tokens(path[at..]) else [])
      invariant Resolve(ChildIn(dirs), ROOT_INODE, Tokens(path)) ==
                Resolve(ChildIn(dirs), inode, if found then [token] + Tokens(path[at..]) else [])
      decreases |path| - at, found
    {
      ResolveStep(dirs, inode, token, Tokens(path[at..]));
      NoNulToken(path, token);
      ReadableWhole(dirs[inode as nat]);
      var child: Word := LookupIn(p, inode, token, files);
      if child == 0 {
        return 0;
      }
      inode := child;
      found, token, at := NextToken(path, at);
    }
    ResolveNone(dirs, inode);
  }

  lemma RootIs(inode: Word)
    ensures inode == 2 <==> inode as nat == ROOT_INODE
  {
  }

  /**
   Resolving a path by its parent: the name's lookup there is the path's inode, unless the path ends with a slash, when
   the empty name is looked up.
   */
  method ResolveByParent(p: Partition, path: seq<Byte>, ghost files: map<nat, seq<Tree>>) returns (inode: Word)
    requires Live(p, files) && NoNul(path) && path != [] && (path[0] == SLASH || LastSlash(path) > 0)
    requires Traversable(FoldersOf(p, files), ROOT_INODE, Tokens(Parent(path)) + [Name(path)])
    ensures var child := ChildIn(FoldersOf(p, files));
            var parent := Resolve(child, ROOT_INODE, Tokens(Parent(path)));
            && (Name(path) != [] ==> inode as nat == Resolve(child, ROOT_INODE, Tokens(path)))
            && (Name(path) == [] ==>
                  Resolve(child, ROOT_INODE, Tokens(path)) == parent && inode as nat == if parent == 0 then 0 else child(parent, []))
  {
    hide *;
    ghost var dirs := FoldersOf(p, files);
    FoldersAre(p, files);
    var ok, parent, name := PathToParentAndName(path);
    PartsNoNul(path);
    ResolveSplit(ChildIn(dirs), path);
    RootIs(2);
    TraversableSplit(dirs, ROOT_INODE, Tokens(Parent(path)), [Name(path)]);
    var n := PathToInode(p, parent, files);
    if n == 0 {
      return 0;
    }
    assert [name] + [] == [name];
    ResolveStep(dirs, n, name, []);
    ChildIs(dirs, n, name);
    ReadableWhole(dirs[n as nat]);
    inode := LookupIn(p, n, name, files);
  }

  lemma ChildIs(dirs: Volume, n: nat, q: seq<Byte>)
    ensures ChildIn(dirs)(n, q) == if n in dirs then Answer(dirs[n], q) else 0
  {
  }

  lemma PartsNoNul(path: seq<Byte>)
    requires path != [] && NoNul(path)
    ensures NoNul(Parent(path)) && NoNul(Name(path))
  {
  }

  // ----- Files by path -----

  /** When a read succeeds, and what it then delivers. */
  ghost predicate ReadResult(blockSize: nat, raw: seq<Byte>, data: seq<Byte>, ok: bool, out: seq<Byte>, size: nat,
                             skip: nat)
    requires |raw| >= 128 && 0 < blockSize
  {
    && (ok <==> !IsDirectory(raw) && skip + size <= ISize(raw) && Transfers(blockSize, skip, size))
    && (ok ==> size <= |out| && skip + size <= |data| && out[..size] == data[skip..skip + size])
  }

  lemma ReadResultIs(blockSize: nat, raw: seq<Byte>, data: seq<Byte>, ok: bool, out: seq<Byte>, size: nat, skip: nat)
    requires |raw| >= 128 && 0 < blockSize
    requires ok <==> !IsDirectory(raw) && skip + size <= ISize(raw) && Transfers(blockSize, skip, size)
    requires ok ==> size <= |out| && skip + size <= |data| && out[..size] == data[skip..skip + size]
    ensures ReadResult(blockSize, raw, data, ok, out, size, skip)
  {
  }

  /** What reading by path gives: a failure when the path leads nowhere, otherwise what reading the file gives. */
  ghost predicate PathRead(p: Partition, files: map<nat, seq<Tree>>, path: seq<Byte>, ok: bool, out: seq<Byte>,
                           size: nat,
                           skip: nat)
    requires Live(p, files) && p.L.blockSize > 0
    reads p, p.disk
  {
    var n := Resolve(ChildIn(FoldersOf(p, files)), ROOT_INODE, Tokens(path));
    if n == 0 then !ok
    else n in files && |Inode(p, files, n)| >= 128
         && ReadResult(p.L.blockSize, Inode(p, files, n), Data(p, files, n), ok, out, size, skip)
  }

  lemma PathReadNowhere(p: Partition, files: map<nat, seq<Tree>>, path: seq<Byte>, out: seq<Byte>, size: nat, skip: nat)
    requires Live(p, files) && p.L.blockSize > 0
    ensures Resolve(ChildIn(FoldersOf(p, files)), ROOT_INODE, Tokens(path)) == 0 ==> PathRead(p, files, path, false, out, size, skip)
  {
  }

  lemma PathReadIs(p: Partition, files: map<nat, seq<Tree>>, path: seq<Byte>, n: nat, ok: bool, out: seq<Byte>,
                   size: nat,
                   skip: nat)
    requires Live(p, files) && p.L.blockSize > 0 && n != 0 && n in files && |Inode(p, files, n)| >= 128
    requires Resolve(ChildIn(FoldersOf(p, files)), ROOT_INODE, Tokens(path)) == n
    requires ReadResult(p.L.blockSize, Inode(p, files, n), Data(p, files, n), ok, out, size, skip)
    ensures PathRead(p, files, path, ok, out, size, skip)
  {
  }

  /** ext2_read_file by path. */
  method ReadPath(p: Partition, path: seq<Byte>, buffer: array<Byte>, size: nat, skip: nat,
                  ghost files: map<nat, seq<Tree>>)
    returns (ok: bool)
    requires p.L.blockSize > 0 && skip + size < 0x1_0000_0000_0000_0000
    requires Live(p, files) && NoNul(path) && Traversable(FoldersOf(p, files), ROOT_INODE, Tokens(path))
    requires var n := Resolve(ChildIn(FoldersOf(p, files)), ROOT_INODE, Tokens(path));
             n != 0 ==> n in files && ReadDomain(p, files, n, buffer.Length, size, skip)
    modifies buffer
    ensures PathRead(p, files, path, ok, buffer[..], size, skip)
  {
    hide *;
    LiveFacts(p, files);
    ghost var blank := buffer[..];
    PathReadNowhere(p, files, path, blank, size, skip);
    var n := PathToInode(p, path, files);
    if n == 0 {
      return false;
    }
    ok := ReadFile(p, n, buffer, size, skip, files);
    LiveFile(p, files, n);
    ReadResultIs(p.L.blockSize, Inode(p, files, n), Data(p, files, n), ok, buffer[..], size, skip);
    PathReadIs(p, files, path, n, ok, buffer[..], size, skip);
  }

  lemma WrittenKind(L: Layout, raw: seq<Byte>, raw': seq<Byte>, target: nat)
    requires |raw| >= 128 && |raw'| >= 128 && 0 < L.sectorSize && target < 0x1_0000_0000
    requires raw' == raw || ResizedTo(L, raw, target, raw')
    ensures IsDirectory(raw') <==> IsDirectory(raw)
  {
    if raw' != raw {
      ResizedSize(L, raw, target, raw');
      RoundTrips.SameMode(raw, raw');
    }
  }

  /** A step on inode n that leaves n as the walk sees it leaves everything as the walk sees it. */
  lemma StepFolders(L: Layout, cleared: bool, d0: seq<Block>, f0: set<nat>, files: map<nat, seq<Tree>>,
                    d1: seq<Block>, f1: set<nat>, files': map<nat, seq<Tree>>, n: nat)
    requires AllLive(L, cleared, d0, f0, files) && AllLive(L, cleared, d1, f1, files')
    requires Step(L, cleared, d0, f0, files, d1, f1, files', n) && n in files && n in files'
    requires FoldersIn(L, cleared, d1, f1, files')[n] == FoldersIn(L, cleared, d0, f0, files)[n]
    ensures files'.Keys == files.Keys && FoldersIn(L, cleared, d1, f1, files') == FoldersIn(L, cleared, d0, f0, files)
  {
    hide AllLive, Kept, FolderIn, Local, FileLive;
    KeptByStep(L, cleared, d0, f0, files, d1, f1, files', n);
    var dirs, dirs' := FoldersIn(L, cleared, d0, f0, files), FoldersIn(L, cleared, d1, f1, files');
    assert files'.Keys == files.Keys;
    forall m | m in dirs ensures m in dirs' && dirs'[m] == dirs[m] {
      if m != n {
        FolderKept(L, cleared, d0, f0, files, d1, f1, files', m);
      }
    }
  }

  /** ext2_write_file by path. Nothing changes for any path: every directory is as it was. */
  method WritePath(p: Partition, path: seq<Byte>, source: seq<Byte>, size: nat, skip: nat,
                   ghost files: map<nat, seq<Tree>>)
    returns (ok: bool, ghost files': map<nat, seq<Tree>>, ghost grown: seq<Byte>)
    requires Live(p, files) && NoNul(path) && Traversable(FoldersOf(p, files), ROOT_INODE, Tokens(path))
    requires p.L.Entries() > 0 && p.L.sectorSize > 0 && p.L.blockSize > 0
    requires var n := Resolve(ChildIn(FoldersOf(p, files)), ROOT_INODE, Tokens(path));
             n != 0 ==> n in files && WriteDomain(p, files, n, |source|, size, skip)
    modifies p`groupFree, p`superFree, p.disk
    ensures Live(p, files') && files'.Keys == files.Keys
    ensures FoldersOf(p, files') == old(FoldersOf(p, files))
    ensures var n := Resolve(old(ChildIn(FoldersOf(p, files))), ROOT_INODE, Tokens(path));
            && (n == 0 ==> !ok && files' == files && p.disk[..] == old(p.disk[..]))
            && (n != 0 ==>
                  WriteResult(p.L, old(p.Free()), files[n], source, size, skip, ok, old(Inode(p, files, n)), old(Data(p, files, n)),
                              Inode(p, files', n), Data(p, files', n), grown))
            && (forall m :: m in files && m != n ==> Kept(p.L, old(p.disk[..]), files, p.disk[..], files', m))
  {
    hide *;
    LiveFacts(p, files);
    FoldersAre(p, files);
    ghost var d0, f0 := p.disk[..], p.Free();
    ghost var dirs := FoldersOf(p, files);
    var n := PathToInode(p, path, files);
    files', grown := files, [];
    KeptAll(p.L, p.cleared, d0, f0, files);
    if n == 0 {
      return false, files, [];
    }
    LiveFile(p, files, n);
    FolderAt(p, files, n);
    WriteDomainIs(p, files, n, |source|, size, skip);
    ghost var raw, data := Inode(p, files, n), Data(p, files, n);
    ghost var file: seq<Tree>;
    ok, file, grown := WriteFile(p, n, source, size, skip, files);
    files' := files[n as nat := file];
    LiveFacts(p, files');
    LiveFile(p, files', n);
    FolderAt(p, files', n);
    FoldersAre(p, files');
    WriteResultFacts(p.L, f0, files[n as nat], source, size, skip, ok, raw, data, Inode(p, files', n), Data(p, files', n), grown);
    WrittenKind(p.L, raw, Inode(p, files', n), skip + size);
    KeptByStep(p.L, p.cleared, d0, f0, files, p.disk[..], p.Free(), files', n);
    StepFolders(p.L, p.cleared, d0, f0, files, p.disk[..], p.Free(), files', n);
  }

  lemma KeptAll(L: Layout, cleared: bool, d: seq<Block>, f: set<nat>, files: map<nat, seq<Tree>>)
    requires AllLive(L, cleared, d, f, files)
    ensures forall m :: m in files ==> Kept(L, d, files, d, files, m)
  {
    hide AllLive, Kept;
    forall m | m in files ensures Kept(L, d, files, d, files, m) {
      KeptSame(L, cleared, d, f, files, m);
    }
  }
}
