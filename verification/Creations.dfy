/** Creating files by path, and what that makes of every path. */
module Creations {
  import opened Codec
  import opened Layouts
  import opened Partitions
  import opened Trees
  import opened Inodes
  import opened Volumes
  import opened NamedFiles
  import opened Chains
  import opened Dentries
  import opened Lookups
  import opened Directories
  import opened DirectoryRuns
  import opened Paths
  import opened Folders
  import opened Namespaces

  /** The new path leads to the new inode; every other path leads where it led. */
  ghost predicate Extends(dirs: Volume, dirs': Volume, path: seq<Byte>, parent: nat, name: seq<Byte>, n: nat) {
    && Resolve(ChildIn(dirs'), ROOT_INODE, Tokens(path)) == n
    && forall tokens: seq<seq<Byte>> | Traversable(dirs, ROOT_INODE, tokens) && AllNoNul(tokens) ::
         if Through(ChildIn(dirs), ROOT_INODE, tokens, parent, name) then
           && Resolve(ChildIn(dirs), ROOT_INODE, tokens) == 0
           && Resolve(ChildIn(dirs'), ROOT_INODE, tokens) ==
              Resolve(ChildIn(dirs'), n, Behind(ChildIn(dirs), ROOT_INODE, tokens, parent, name))
         else
           Resolve(ChildIn(dirs'), ROOT_INODE, tokens) == Resolve(ChildIn(dirs), ROOT_INODE, tokens)
  }

  lemma TokensAllNoNul(s: seq<Byte>)
    requires NoNul(s)
    ensures AllNoNul(Tokens(s))
  {
    TokensNoNul(s);
  }

  /** A creation extends the namespace by the new path. */
  lemma CreatedExtends(dirs: Volume, dirs': Volume, path: seq<Byte>, parent: nat, n: Word, fileType: Byte,
                       folder: Folder)
    requires path != [] && (path[0] == SLASH || LastSlash(path) > 0) && NoNul(path) && Name(path) != []
    requires Traversable(dirs, ROOT_INODE, Tokens(Parent(path)))
    requires parent == Resolve(ChildIn(dirs), ROOT_INODE, Tokens(Parent(path))) != 0
    requires Created(dirs, dirs', parent, Name(path), n, fileType, folder) && Admits(dirs[parent], Name(path))
    ensures Extends(dirs, dirs', path, parent, Name(path), n)
  {
    hide Created, Admits, Traversable, Tokens, Answer, NoNul, LastSlash, Parent, Name, AllNoNul;
    var name, child := Name(path), ChildIn(dirs);
    PartsNoNul(path);
    TokensAllNoNul(Parent(path));
    TokensSplit(path);
    CreatedNames(dirs, dirs', parent, name, n, fileType, folder);
    CreatedPath(dirs, dirs', parent, name, n, fileType, folder, ROOT_INODE, Tokens(Parent(path)));
    forall tokens: seq<seq<Byte>> | Traversable(dirs, ROOT_INODE, tokens) && AllNoNul(tokens)
      ensures if Through(child, ROOT_INODE, tokens, parent, name) then
                && Resolve(child, ROOT_INODE, tokens) == 0
                && Resolve(ChildIn(dirs'), ROOT_INODE, tokens) ==
                   Resolve(ChildIn(dirs'), n, Behind(child, ROOT_INODE, tokens, parent, name))
              else
                Resolve(ChildIn(dirs'), ROOT_INODE, tokens) == Resolve(child, ROOT_INODE, tokens)
    {
      CreatedResolve(dirs, dirs', parent, name, n, fileType, folder, ROOT_INODE, tokens);
      CreatedAnswer(dirs, dirs', parent, name, n, fileType, folder, parent, name);
      if Through(child, ROOT_INODE, tokens, parent, name) {
        ThroughFails(child, ROOT_INODE, tokens, parent, name);
      }
    }
  }

  lemma AdmitsShort(f: Folder, name: seq<Byte>)
    requires Admits(f, name)
    ensures Short(name) == name && name != [] && f.Chain?
  {
  }

  /** The files as the walk sees them, after a new inode and its entry, or after neither or the inode alone. */
  lemma CreatedFolders(L: Layout, cleared: bool, d0: seq<Block>, f0: set<nat>, files: map<nat, seq<Tree>>,
                       d1: seq<Block>, f1: set<nat>, files': map<nat, seq<Tree>>, parent: nat)
    requires AllLive(L, cleared, d0, f0, files) && AllLive(L, cleared, d1, f1, files')
    requires forall m :: m in files && m != parent ==> Kept(L, d0, files, d1, files', m)
    ensures var dirs, dirs' := FoldersIn(L, cleared, d0, f0, files), FoldersIn(L, cleared, d1, f1, files');
            forall m :: m in dirs && m != parent ==> m in dirs' && dirs'[m] == dirs[m]
  {
    hide AllLive, Kept, FoldersIn;
    FoldersKeys(L, cleared, d0, f0, files);
    var dirs, dirs' := FoldersIn(L, cleared, d0, f0, files), FoldersIn(L, cleared, d1, f1, files');
    forall m | m in dirs && m != parent ensures m in dirs' && dirs'[m] == dirs[m] {
      FolderKept(L, cleared, d0, f0, files, d1, f1, files', m);
      FoldersKeys(L, cleared, d1, f1, files');
    }
  }

  lemma FoldersKeys(L: Layout, cleared: bool, d: seq<Block>, f: set<nat>, files: map<nat, seq<Tree>>)
    requires AllLive(L, cleared, d, f, files)
    ensures FoldersIn(L, cleared, d, f, files).Keys == files.Keys
  {
  }

  lemma CreatedIs(dirs: Volume, dirs': Volume, parent: nat, name: seq<Byte>, n: Word, fileType: Byte)
    requires parent in dirs && dirs[parent].Chain? && n as nat !in dirs && n != 0
    requires HasRoom(dirs[parent].data, dirs[parent].size, |name|)
    requires n as nat in dirs' && dirs'.Keys <= dirs.Keys + {n as nat} && parent in dirs'
    requires forall m :: m in dirs && m != parent ==> m in dirs' && dirs'[m] == dirs[m]
    requires dirs'[parent] == Chain(WithEntry(dirs[parent].data, dirs[parent].size, n, fileType, name), dirs[parent].size)
    ensures Created(dirs, dirs', parent, name, n, fileType, dirs'[n as nat])
  {
    hide HasRoom, WithEntry;
    var f := Chain(WithEntry(dirs[parent].data, dirs[parent].size, n, fileType, name), dirs[parent].size);
    assert dirs' == dirs[parent := f][n as nat := dirs'[n as nat]];
  }

  lemma NotZero(L: Layout, n: nat)
    requires L.InodesOk() && IsInode(L, n)
    ensures n != 0
  {
  }

  /** The inode that was handed out is the new one, with its file, of the given mode, owner and time. */
  ghost predicate Arisen(p: Partition, d0: seq<Block>, f0: set<nat>, n: Word, parent: nat, mode: int, directory: bool,
                         uid: int, gid: int, now: Word, unique: Word, files': map<nat, seq<Tree>>)
    requires Live(p, files')
    requires 0 <= mode < 0x1_0000 && 0 <= uid < 0x1_0000 && 0 <= gid < 0x1_0000
    reads p, p.disk
  {
    && p.L.InodesOk() && p.L.Image(d0) && IsInode(p.L, n) && parent < 0x1_0000_0000 && n as nat in files'
    && 0 < p.L.Entries() && 0 < p.L.blockSize < 0x1_0000_0000 && 0 < p.L.sectorSize
    && Made(p.L, d0, f0, Fresh(InodeAt(p.L, d0, n), mode, uid, gid, now, unique), n, parent, directory,
            files'[n as nat], Inode(p, files', n), Data(p, files', n), p.Free())
  }

  lemma ArisenIs(p: Partition, d0: seq<Block>, f0: set<nat>, n: Word, parent: Word, mode: int, directory: bool,
                 uid: int, gid: int, now: Word, unique: Word, files': map<nat, seq<Tree>>)
    requires Live(p, files') && p.L.InodesOk() && p.L.Image(d0) && IsInode(p.L, n) && n as nat in files'
    requires 0 <= mode < 0x1_0000 && 0 <= uid < 0x1_0000 && 0 <= gid < 0x1_0000
    requires p.L.Entries() > 0 && DIRECTORY_BYTES <= p.L.blockSize < 0x1_0000_0000 && p.L.sectorSize > 0
    requires Made(p.L, d0, f0, Fresh(InodeAt(p.L, d0, n), mode, uid, gid, now, unique), n, parent, directory,
                  files'[n as nat], Inode(p, files', n), Data(p, files', n), p.Free())
    ensures Arisen(p, d0, f0, n, parent, mode, directory, uid, gid, now, unique, files')
  {
    hide Live, Made, Fresh, Layout.Image, IsInode;
  }

  /**
   ext2_create_file, with the inode number that was handed out for it. It succeeds exactly when the parent path leads to
   a directory with room for the name, and a new directory gets its block; nothing else the walk sees changes. When the
   name is new to a directory that is ready for it, the path then leads to the new inode, every other path leads where it
   led, and the namespace stays closed exactly when a new directory is proper.
   */
  method CreatePath(p: Partition, path: seq<Byte>, n: Word, mode: int, directory: bool, fileType: Byte,
                    uid: int, gid: int, now: Word, unique: Word, ghost files: map<nat, seq<Tree>>)
    returns (ok: bool, ghost files': map<nat, seq<Tree>>)
    requires Live(p, files) && p.L.InodesOk() && IsInode(p.L, n) && n as nat !in files && NoNul(path)
    requires path != [] ==>
               && Traversable(FoldersOf(p, files), ROOT_INODE, Tokens(Parent(path)))
               && var parent := Resolve(ChildIn(FoldersOf(p, files)), ROOT_INODE, Tokens(Parent(path)));
                  parent != 0 ==> parent in files && Whole(FoldersOf(p, files)[parent])
    requires p.L.Entries() > 0 && DIRECTORY_BYTES <= p.L.blockSize < 0x1_0000_0000 && p.L.sectorSize > 0
    requires 0 <= mode < 0x1_0000 && 0 <= uid < 0x1_0000 && 0 <= gid < 0x1_0000
    requires directory ==> (mode / INODE_TYPE_DIR) % 2 == 1
    modifies p`groupFree, p`superFree, p.disk
    ensures Live(p, files') && files.Keys <= files'.Keys <= files.Keys + {n as nat}
    ensures ok ==> path != []
    ensures path != [] ==>
              var dirs, dirs' := old(FoldersOf(p, files)), FoldersOf(p, files');
              var parent, name := Resolve(ChildIn(dirs), ROOT_INODE, Tokens(Parent(path))), Name(path);
              && (ok <==> parent != 0 && dirs[parent].Chain? && HasRoom(dirs[parent].data, dirs[parent].size, |Short(name)|)
                          && (directory ==> old(p.Free()) != {}))
              && (ok ==> n as nat in files' && Created(dirs, dirs', parent, Short(name), n, fileType, dirs'[n as nat]))
              && (!ok ==> forall m :: m in dirs ==> m in dirs' && dirs'[m] == dirs[m])
              && (ok && Admits(dirs[parent], name) ==>
                    && (path[0] == SLASH || LastSlash(path) > 0 ==> Extends(dirs, dirs', path, parent, name, n))
                    && (Closed(dirs) ==> (Closed(dirs') <==> Navigable(dirs'[n as nat], dirs'.Keys))))
    ensures path == [] ==> files' == files && p.disk[..] == old(p.disk[..])
    ensures path != [] ==>
              var dirs := old(FoldersOf(p, files)); var parent := Resolve(ChildIn(dirs), ROOT_INODE, Tokens(Parent(path)));
              if parent == 0 || dirs[parent].Plain? then files' == files && p.disk[..] == old(p.disk[..])
              else
                Arisen(p, old(p.disk[..]), old(p.Free()), n, parent, mode, directory, uid, gid, now, unique, files')
    ensures ok ==> IMode(Inode(p, files', n)) == mode && ISize(Inode(p, files', n)) == (if directory then p.L.blockSize else 0)
    ensures ok && directory ==> exists parent: Word :: Initialized(Data(p, files', n), n, parent)
  {
    hide *;
    FoldersAre(p, files);
    ghost var dirs := FoldersOf(p, files);
    ghost var d0, f0 := p.disk[..], p.Free();
    files' := files;
    var parentPath: seq<Byte>, name: seq<Byte>;
    ok, parentPath, name := PathToParentAndName(path);
    if !ok {
      return;
    }
    PartsNoNul(path);
    var parent := PathToInode(p, parentPath, files);
    if parent == 0 {
      return false, files;
    }
    FolderAt(p, files, parent);
    ChainedIs(p, files, parent);
    LoadsIs(p, files, parent);
    FolderCases(dirs[parent as nat], name);
    NotZero(p.L, n);
    ok, files' := CreateFile(p, parent, n, mode, directory, fileType, name, uid, gid, now, unique, files);
    if !dirs[parent as nat].Plain? {
      ArisenIs(p, d0, f0, n, parent, mode, directory, uid, gid, now, unique, files');
    }
    FoldersAre(p, files');
    FolderAt(p, files', parent);
    ghost var dirs' := FoldersOf(p, files');
    CreatedFolders(p.L, p.cleared, d0, f0, files, p.disk[..], p.Free(), files', parent);
    if ok {
      LoadsIs(p, files', parent);
      CreatedIs(dirs, dirs', parent, Short(name), n, fileType);
      if Admits(dirs[parent as nat], name) {
        AdmitsShort(dirs[parent as nat], name);
        CreatedClosedIf(dirs, dirs', parent, name, n, fileType, dirs'[n as nat]);
        if path[0] == SLASH || LastSlash(path) > 0 {
          CreatedExtends(dirs, dirs', path, parent, n, fileType, dirs'[n as nat]);
        }
      }
    }
  }

  lemma CreatedClosedIf(dirs: Volume, dirs': Volume, parent: nat, name: seq<Byte>, n: Word, fileType: Byte,
                        folder: Folder)
    requires Created(dirs, dirs', parent, name, n, fileType, folder) && Admits(dirs[parent], name)
    ensures Closed(dirs) ==> (Closed(dirs') <==> Navigable(folder, dirs'.Keys))
  {
    hide Created, Admits, Closed, Navigable;
    if Closed(dirs) {
      CreatedClosed(dirs, dirs', parent, name, n, fileType, folder);
    }
  }
}
