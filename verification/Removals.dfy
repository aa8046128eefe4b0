/** Deleting files by path, and what that makes of every path. */
module Removals {
  import opened Codec
  import opened Arith
  import opened Layouts
  import opened Partitions
  import opened Trees
  import opened Inodes
  import opened Volumes
  import opened BlockList
  import opened NamedFiles
  import opened Chains
  import opened Dentries
  import opened Removal
  import opened Lookups
  import opened Names
  import opened Directories
  import opened Paths
  import opened Folders
  import opened Namespaces
  import Creations
  import Steps
  import Ext2

  // ----- One entry and its file less -----

  /** A quiet directory without its first record for inode n, which was not its first record of all. */
  ghost predicate Edited(f: Folder, g: Folder, n: Word) {
    && f.Chain? && g.Chain? && g.size == f.size
    && Tiled(f.data, 0, f.size) && Quiet(f.data, 0, f.size) && Tiled(g.data, 0, f.size) && Quiet(g.data, 0, f.size)
    && var es := Parse(f.data, 0, f.size);
       0 < Index(es, n) < |es| && Parse(g.data, 0, f.size) == Removed(es, n)
  }

  /** Inode n is gone, and the first record for it in the directory `parent`. */
  ghost predicate Detached(dirs: Volume, dirs': Volume, parent: nat, n: Word) {
    && parent in dirs && n as nat in dirs && parent != n as nat && dirs[n as nat].Plain?
    && dirs'.Keys == dirs.Keys - {n as nat}
    && (forall m :: m in dirs' && m != parent ==> dirs'[m] == dirs[m])
    && Edited(dirs[parent], dirs'[parent], n)
  }

  /** The records of the parent, and the name of the record that goes. */
  ghost function Entries(f: Folder): seq<Dirent>
    requires f.Chain? && Tiled(f.data, 0, f.size)
  {
    Parse(f.data, 0, f.size)
  }

  lemma DetachedFacts(dirs: Volume, dirs': Volume, parent: nat, n: Word)
    requires Detached(dirs, dirs', parent, n)
    ensures parent in dirs && dirs[parent].Chain? && Tiled(dirs[parent].data, 0, dirs[parent].size)
    ensures Index(Entries(dirs[parent]), n) < |Entries(dirs[parent])|
    ensures parent in dirs' && n as nat in dirs && parent != n as nat
  {
    hide Tiled, Parse, Quiet, Index, Removed;
  }

  /** Only that name gets a new answer: none. */
  lemma DetachedAnswer(dirs: Volume, dirs': Volume, parent: nat, n: Word, m: nat, q: seq<Byte>)
    requires Detached(dirs, dirs', parent, n) && NoNul(q)
    requires (DetachedFacts(dirs, dirs', parent, n);
              Unique(Entries(dirs[parent]), Index(Entries(dirs[parent]), n)))
    ensures (DetachedFacts(dirs, dirs', parent, n);
             ChildIn(dirs')(m, q) ==
             if m == parent && q == Entries(dirs[parent])[Index(Entries(dirs[parent]), n)].name then 0 else ChildIn(dirs)(m, q))
  {
    hide Tiled, Parse, Quiet, Index, Removed, ByName, Find, Unique, NoNul;
    DetachedFacts(dirs, dirs', parent, n);
    var f, g := dirs[parent], dirs'[parent];
    if m == parent {
      FindIsByName(f.data, 0, f.size, q);
      FindIsByName(g.data, 0, f.size, q);
      ByNameRemoved(Entries(f), n, q);
    }
  }

  /**
   What a deletion makes of every path: one that looks up the removed name resolves to nothing, and every other one
   resolves as before.
   */
  lemma {:induction false} DetachedResolve(dirs: Volume, dirs': Volume, parent: nat, n: Word, m: nat,
                                           tokens: seq<seq<Byte>>)
    requires Detached(dirs, dirs', parent, n) && AllNoNul(tokens)
    requires (DetachedFacts(dirs, dirs', parent, n);
              Unique(Entries(dirs[parent]), Index(Entries(dirs[parent]), n)))
    ensures (DetachedFacts(dirs, dirs', parent, n);
             var gone := Entries(dirs[parent])[Index(Entries(dirs[parent]), n)].name;
             Resolve(ChildIn(dirs'), m, tokens) ==
             if Through(ChildIn(dirs), m, tokens, parent, gone) then 0 else Resolve(ChildIn(dirs), m, tokens))
    decreases |tokens|
  {
    hide Detached, Unique, Index, Entries, ChildIn, NoNul, AllNoNul, Tiled;
    DetachedFacts(dirs, dirs', parent, n);
    if tokens != [] {
      NoNulFirst(tokens);
      DetachedAnswer(dirs, dirs', parent, n, m, tokens[0]);
      var child := ChildIn(dirs)(m, tokens[0]);
      if child != 0 {
        DetachedResolve(dirs, dirs', parent, n, child, tokens[1..]);
      }
    }
  }

  lemma {:induction false} ThroughEnd(child: Child, m: nat, tokens: seq<seq<Byte>>, parent: nat, name: seq<Byte>)
    requires Resolve(child, m, tokens) == parent && parent != 0
    ensures Through(child, m, tokens + [name], parent, name)
    decreases |tokens|
  {
    if tokens != [] {
      assert (tokens + [name])[1..] == tokens[1..] + [name] && (tokens + [name])[0] == tokens[0];
      ThroughEnd(child, child(m, tokens[0]), tokens[1..], parent, name);
    }
  }

  /** A path that ends with the removed name in that directory leads nowhere. */
  lemma DetachedPath(dirs: Volume, dirs': Volume, parent: nat, n: Word, path: seq<Byte>)
    requires Detached(dirs, dirs', parent, n) && NoNul(path) && path != [] && (path[0] == SLASH || LastSlash(path) > 0)
    requires parent != 0 && Resolve(ChildIn(dirs), ROOT_INODE, Tokens(Parent(path))) == parent
    requires (DetachedFacts(dirs, dirs', parent, n);
              && Unique(Entries(dirs[parent]), Index(Entries(dirs[parent]), n))
              && Name(path) == Entries(dirs[parent])[Index(Entries(dirs[parent]), n)].name != [])
    ensures Resolve(ChildIn(dirs'), ROOT_INODE, Tokens(path)) == 0
  {
    hide *;
    DetachedFacts(dirs, dirs', parent, n);
    Creations.TokensAllNoNul(path);
    TokensSplit(path);
    ThroughEnd(ChildIn(dirs), ROOT_INODE, Tokens(Parent(path)), parent, Name(path));
    DetachedResolve(dirs, dirs', parent, n, ROOT_INODE, Tokens(path));
  }

  /** A deletion keeps the namespace closed exactly when no record for the inode is left, and it was not the root. */
  lemma DetachedClosed(dirs: Volume, dirs': Volume, parent: nat, n: Word)
    requires Detached(dirs, dirs', parent, n) && Closed(dirs) && n as nat != 0
    ensures Closed(dirs') <==> n as nat != ROOT_INODE && forall m :: m in dirs' ==> !Mentions(dirs'[m], n)
  {
    hide Detached, Navigable, Mentions;
    DetachedKeys(dirs, dirs', parent, n);
    forall m | m in dirs' ensures Navigable(dirs'[m], dirs'.Keys) <==> !Mentions(dirs'[m], n) {
      assert Navigable(dirs[m], dirs.Keys);
      if m == parent {
        DetachedNavigable(dirs, dirs', parent, n);
      } else {
        StillNavigable(dirs[m], dirs.Keys, n);
      }
    }
  }

  lemma DetachedKeys(dirs: Volume, dirs': Volume, parent: nat, n: Word)
    requires Detached(dirs, dirs', parent, n)
    ensures dirs'.Keys == dirs.Keys - {n as nat} && forall m :: m in dirs' && m != parent ==> dirs'[m] == dirs[m]
  {
    hide Tiled, Parse, Quiet, Index, Removed;
  }

  /** The directory has a record for the inode. */
  ghost predicate Mentions(f: Folder, n: Word) {
    f.Chain? && Tiled(f.data, 0, f.size) && exists i :: 0 <= i < |Parse(f.data, 0, f.size)| && Parse(f.data, 0, f.size)[i].inode == n
  }

  lemma StillNavigable(f: Folder, inodes: set<nat>, n: Word)
    requires Navigable(f, inodes) && n as nat != 0
    ensures Navigable(f, inodes - {n as nat}) <==> !Mentions(f, n)
  {
    hide Tiled, Parse, Anchored;
  }

  lemma RemovedAmong(es: seq<Dirent>, inode: Word)
    ensures forall i :: 0 <= i < |Removed(es, inode)| ==> exists j :: 0 <= j < |es| && es[j].inode == Removed(es, inode)[i].inode
  {
    var after := Removed(es, inode);
    forall k | 0 <= k < |after| ensures exists j :: 0 <= j < |es| && es[j].inode == after[k].inode {
      var j := RemovedFrom(es, inode, k);
    }
  }

  lemma RemovedFrom(es: seq<Dirent>, inode: Word, k: nat) returns (j: nat)
    requires k < |Removed(es, inode)|
    ensures j < |es| && es[j].inode == Removed(es, inode)[k].inode
  {
    hide Index;
    var i := Index(es, inode);
    j := if 0 < i < |es| && i <= k then k + 1 else k;
  }

  lemma DetachedNavigable(dirs: Volume, dirs': Volume, parent: nat, n: Word)
    requires Detached(dirs, dirs', parent, n) && n as nat != 0 && parent in dirs && Navigable(dirs[parent], dirs.Keys)
    requires dirs'.Keys == dirs.Keys - {n as nat} && parent in dirs'
    ensures Navigable(dirs'[parent], dirs'.Keys) <==> !Mentions(dirs'[parent], n)
  {
    hide Tiled, Parse, Quiet, Index, Removed, Anchored, Mentions;
    var f, g := dirs[parent], dirs'[parent];
    RemovedAmong(Parse(f.data, 0, f.size), n);
    QuietIsAnchored(g.data, g.size);
    assert Navigable(g, dirs.Keys);
    StillNavigable(g, dirs.Keys, n);
  }

  lemma QuietIsAnchored(s: seq<Byte>, size: nat)
    requires Tiled(s, 0, size) && Quiet(s, 0, size)
    ensures Anchored(s, size)
  {
    if 0 < size {
      QuietAnchored(s, 0, size);
    }
  }

  /** From f to g, two readings of one directory, the first record for inode n was removed, byte by byte. */
  ghost predicate Scratched(f: Folder, g: Folder, n: Word) {
    f.Chain? && g.Chain? && g.size == f.size && LooksUpDeleted(f.data, g.data, f.size, n)
  }

  /**
   The record before the first one for inode n has a name without NUL that fills it, and no earlier one reads the
   same.
   */
  ghost predicate Crowded(f: Folder, n: Word) {
    && f.Chain? && Tiled(f.data, 0, f.size)
    && var o := FindAt(f.data, 0, f.size, n);
       && 0 < o < f.size && Tiled(f.data, 0, o)
       && var prev := LastAt(f.data, 0, o);
          && prev + HEADER + f.data[prev + LEN_OFFSET] == o && Tiled(f.data, 0, prev)
          && NoNul(At(f.data, prev).name) && !Found(f.data, 0, prev, At(f.data, prev).name)
          && (0 < prev ==> NulWithin(f.data, LastAt(f.data, 0, prev) + HEADER, prev + REC_OFFSET))
  }

  /** The record before the first one for inode n. */
  ghost function Neighbour(f: Folder, n: Word): Dirent
    requires Crowded(f, n)
  {
    At(f.data, LastAt(f.data, 0, FindAt(f.data, 0, f.size, n)))
  }

  /** A name that was hidden by the record behind it is found again once that one is removed. */
  lemma RestoredAnswer(f: Folder, g: Folder, n: Word)
    requires Scratched(f, g, n) && Crowded(f, n)
    ensures Answer(g, Neighbour(f, n).name) == Neighbour(f, n).inode
    ensures !Found(f.data, 0, f.size, Neighbour(f, n).name) ==> Answer(f, Neighbour(f, n).name) == 0
  {
    hide At, HalfAt, WordAt, Find, Found, FindAt, LastAt, Between, Cleared, NameIs, NoNul, NulWithin, LookedUpErased;
    var o := FindAt(f.data, 0, f.size, n);
    var prev := LastAt(f.data, 0, o);
    BetweenFacts(f.data, f.size, prev, o);
    RestoredName(f.data, g.data, f.size, f.size, prev, o);
    if !Found(f.data, 0, f.size, At(f.data, prev).name) {
      NotFound(f.data, 0, f.size, At(f.data, prev).name);
    }
  }

  // ----- On the disk -----

  /** Walks that lead somewhere do not ask a file that is no directory: they lead there also without it. */
  lemma {:induction false} PlainGone(dirs: Volume, n: nat, m: nat, tokens: seq<seq<Byte>>)
    requires n in dirs && dirs[n].Plain? && Traversable(dirs, m, tokens) && Resolve(ChildIn(dirs), m, tokens) != 0
    ensures Traversable(dirs - {n}, m, tokens)
    ensures Resolve(ChildIn(dirs - {n}), m, tokens) == Resolve(ChildIn(dirs), m, tokens)
    decreases |tokens|
  {
    hide Readable;
    if tokens != [] {
      assert m != n;
      PlainGone(dirs, n, Answer(dirs[m], tokens[0]), tokens[1..]);
    }
  }

  /** A path to somewhere has a parent. */
  lemma ParentExists(child: Child, path: seq<Byte>)
    requires path != [] && Resolve(child, ROOT_INODE, Tokens(path)) != 0
    ensures Resolve(child, ROOT_INODE, Tokens(Parent(path))) != 0
  {
    if path[0] == SLASH || LastSlash(path) > 0 {
      ResolveSplit(child, path);
    } else {
      assert Tokens([SLASH]) == [];
    }
  }

  /** The files as the walk sees them after one of them is gone. */
  lemma GoneFolders(L: Layout, cleared: bool, d0: seq<Block>, f0: set<nat>, files: map<nat, seq<Tree>>,
                    d1: seq<Block>, f1: set<nat>, n: nat)
    requires AllLive(L, cleared, d0, f0, files) && AllLive(L, cleared, d1, f1, files - {n})
    requires forall m :: m in files && m != n ==> Kept(L, d0, files, d1, files - {n}, m)
    ensures FoldersIn(L, cleared, d1, f1, files - {n}) == FoldersIn(L, cleared, d0, f0, files) - {n}
  {
    hide AllLive, Kept, FoldersIn;
    Creations.FoldersKeys(L, cleared, d0, f0, files);
    Creations.FoldersKeys(L, cleared, d1, f1, files - {n});
    forall m | m in files && m != n
      ensures m in files - {n} && FoldersIn(L, cleared, d1, f1, files - {n})[m] == FoldersIn(L, cleared, d0, f0, files)[m]
    {
      FolderKept(L, cleared, d0, f0, files, d1, f1, files - {n}, m);
    }
  }

  /** Every demand of the deletion on the file, and on the directory that is to lose its record. */
  ghost predicate Removable(p: Partition, files: map<nat, seq<Tree>>, n: nat, parent: nat)
    requires Live(p, files)
    reads p, p.disk
  {
    && p.L.blockSize > 0 && n in files && parent in files && parent != n && !IsDirectory(Inode(p, files, n))
    && (p.cleared || |files[n]| <= 12) && Sized(files[n], DivUp(ISize(Inode(p, files, n)), p.L.blockSize))
    && (Loads(p, files, parent) ==> Chained(p, files, parent) && ISize(Inode(p, files, parent)) < 0x1_0000)
  }

  lemma RemovableIs(p: Partition, files: map<nat, seq<Tree>>, n: nat, parent: nat)
    requires Live(p, files) && Removable(p, files, n, parent)
    ensures p.L.blockSize > 0 && n in files && parent in files && parent != n && !IsDirectory(Inode(p, files, n))
    ensures (p.cleared || |files[n]| <= 12) && Sized(files[n], DivUp(ISize(Inode(p, files, n)), p.L.blockSize))
    ensures Loads(p, files, parent) ==> Chained(p, files, parent) && ISize(Inode(p, files, parent)) < 0x1_0000
  {
  }

  /** A directory in which every name is followed by a NUL in its own record. */
  ghost predicate Calm(f: Folder) {
    f.Chain? && Tiled(f.data, 0, f.size) && Quiet(f.data, 0, f.size)
  }

  /** The records of a directory; none when it cannot be read. */
  ghost function EntriesOf(f: Folder): seq<Dirent> {
    if f.Chain? && Tiled(f.data, 0, f.size) then Parse(f.data, 0, f.size) else []
  }

  lemma EntriesAre(p: Partition, files: map<nat, seq<Tree>>, n: nat)
    requires Live(p, files) && n in files && (Loads(p, files, n) ==> Chained(p, files, n))
    ensures EntriesOf(FoldersOf(p, files)[n]) == if Loads(p, files, n) then Records(p, files, n) else []
  {
    hide Live, Loads, Tiled, Parse, FoldersOf, Inode, Data;
    FolderAt(p, files, n);
    ChainedIs(p, files, n);
  }

  lemma DetachedIs(dirs: Volume, rest: Volume, dirs': Volume, parent: nat, n: Word)
    requires parent in dirs && n as nat in dirs && parent != n as nat && dirs[n as nat].Plain? && rest == dirs - {n as nat}
    requires dirs'.Keys == rest.Keys && (forall m :: m in rest && m != parent ==> dirs'[m] == rest[m])
    requires Edited(rest[parent], dirs'[parent], n)
    ensures Detached(dirs, dirs', parent, n)
  {
    hide Edited;
  }

  lemma ScratchedIs(f: Folder, s: seq<Byte>, t: seq<Byte>, size: nat, g: Folder, n: Word)
    requires f == Chain(s, size) && g == Chain(t, size) && LooksUpDeleted(s, t, size, n)
    ensures Scratched(f, g, n)
  {
  }

  lemma EditedIs(f: Folder, s: seq<Byte>, t: seq<Byte>, size: nat, g: Folder, n: Word)
    requires f == Chain(s, size) && g == Chain(t, size) && Tiled(s, 0, size) && Quiet(s, 0, size)
    requires var es := Parse(s, 0, size);
             0 < Index(es, n) < |es| && Tiled(t, 0, size) && Quiet(t, 0, size) && Parse(t, 0, size) == Removed(es, n)
    ensures Edited(f, g, n)
  {
    hide Tiled, Parse, Quiet, Index, Removed;
  }

  /** ext2_delete_dentry: the directory and the inode are found by path, and the first record for the inode goes. */
  method DeleteEntry(p: Partition, path: seq<Byte>, ghost n: nat, ghost up: nat, ghost files: map<nat, seq<Tree>>)
    returns (ok: bool)
    requires Live(p, files) && NoNul(path) && path != [] && n != 0 && up in files && up != 0 && p.L.blockSize > 0
    requires Traversable(FoldersOf(p, files), ROOT_INODE, Tokens(path))
    requires Resolve(ChildIn(FoldersOf(p, files)), ROOT_INODE, Tokens(path)) == n
    requires Traversable(FoldersOf(p, files), ROOT_INODE, Tokens(Parent(path)))
    requires Resolve(ChildIn(FoldersOf(p, files)), ROOT_INODE, Tokens(Parent(path))) == up
    requires Loads(p, files, up) ==> Chained(p, files, up) && ISize(Inode(p, files, up)) < 0x1_0000
    modifies p.disk
    ensures Live(p, files) && p.Free() == old(p.Free()) && n < 0x1_0000_0000
    ensures Step(p.L, p.cleared, old(p.disk[..]), old(p.Free()), files, p.disk[..], p.Free(), files, up)
    ensures var dirs, dirs' := old(FoldersOf(p, files)), FoldersOf(p, files); var es := EntriesOf(dirs[up]);
            && dirs'.Keys == dirs.Keys && (forall m :: m in dirs && m != up ==> dirs'[m] == dirs[m])
            && (ok <==> Index(es, n) < |es|)
            && (ok ==> Scratched(dirs[up], dirs'[up], n))
            && (ok && 0 < Index(es, n) && Calm(dirs[up]) ==> Edited(dirs[up], dirs'[up], n))
  {
    hide *;
    LiveFacts(p, files);
    FoldersAre(p, files);
    ghost var d0, f0, dirs, s := p.disk[..], p.Free(), FoldersOf(p, files), Data(p, files, up);
    FolderAt(p, files, up);
    EntriesAre(p, files, up);
    EntriesIs(dirs[up]);
    ChainedIs(p, files, up);
    LoadsIs(p, files, up);
    PartsNoNul(path);
    var split, parentPath, name := PathToParentAndName(path);
    var parent := PathToInode(p, parentPath, files);
    var target := PathToInode(p, path, files);
    EmptyIndex(target);
    ok := DeleteDentry(p, parent, target, files);
    FoldersAre(p, files);
    FolderAt(p, files, up);
    LoadsIs(p, files, up);
    KeptByStep(p.L, p.cleared, d0, f0, files, p.disk[..], p.Free(), files, up);
    Creations.CreatedFolders(p.L, p.cleared, d0, f0, files, p.disk[..], p.Free(), files, up);
    if ok {
      ScratchedIs(dirs[up], s, Data(p, files, up), ISize(Inode(p, files, up)), FoldersOf(p, files)[up], target);
    }
    if ok && 0 < Index(EntriesOf(dirs[up]), target) && Calm(dirs[up]) {
      EditedIs(dirs[up], s, Data(p, files, up), ISize(Inode(p, files, up)), FoldersOf(p, files)[up], target);
    }
  }

  /** The first blocks of the file, as many as its size calls for, are free, and its inode is dead. */
  ghost predicate Freed(L: Layout, d0: seq<Block>, f0: set<nat>, file: seq<Tree>, n: nat, now: Word, d1: seq<Block>,
                        f1: set<nat>)
  {
    && L.InodesOk() && L.Image(d0) && L.Image(d1) && IsInode(L, n)
    && var raw := InodeAt(L, d0, n); var blocks := DivUp(ISize(raw), L.blockSize);
       && blocks <= |LeavesAll(file)| && f1 == f0 + ToSet(LeavesAll(file)[..blocks])
       && InodeAt(L, d1, n) == Dead(raw, now)
  }

  lemma FreedIs(L: Layout, d0: seq<Block>, f0: set<nat>, file: seq<Tree>, n: nat, now: Word, d1: seq<Block>,
                f1: set<nat>, raw: seq<Byte>)
    requires L.InodesOk() && L.Image(d0) && L.Image(d1) && IsInode(L, n) && raw == InodeAt(L, d0, n)
    requires 0 < L.blockSize && |raw| >= 128
    requires var blocks := DivUp(ISize(raw), L.blockSize);
             blocks <= |LeavesAll(file)| && f1 == f0 + ToSet(LeavesAll(file)[..blocks]) && InodeAt(L, d1, n) == Dead(raw, now)
    ensures Freed(L, d0, f0, file, n, now, d1, f1)
  {
  }

  /**
   ext2_delete_file by path, for a file that is no directory: its blocks, its inode, then the first record for the inode in
   the parent, whatever name that record has. When the parent is quiet and it is not its first record, the rest follows:
   that name leads nowhere, every other path leads where it led.
   */
  method RemovePath(p: Partition, path: seq<Byte>, now: Word, ghost files: map<nat, seq<Tree>>)
    returns (ok: bool, ghost files': map<nat, seq<Tree>>)
    requires Live(p, files) && NoNul(path) && path != []
    requires Traversable(FoldersOf(p, files), ROOT_INODE, Tokens(path))
    requires var child := ChildIn(FoldersOf(p, files));
             var n := Resolve(child, ROOT_INODE, Tokens(path));
             n != 0 ==>
               && Traversable(FoldersOf(p, files), ROOT_INODE, Tokens(Parent(path)))
               && Removable(p, files, n, Resolve(child, ROOT_INODE, Tokens(Parent(path))))
    modifies p`groupFree, p`superFree, p.disk
    ensures Live(p, files')
    ensures var dirs, dirs' := old(FoldersOf(p, files)), FoldersOf(p, files');
            var n, parent := Resolve(ChildIn(dirs), ROOT_INODE, Tokens(path)), Resolve(ChildIn(dirs), ROOT_INODE, Tokens(Parent(path)));
            && (n == 0 ==> !ok && files' == files && p.disk[..] == old(p.disk[..]))
            && (n != 0 ==>
                  && n in dirs && parent in dirs && n < 0x1_0000_0000 && files' == files - {n}
                  && Freed(p.L, old(p.disk[..]), old(p.Free()), files[n], n, now, p.disk[..], p.Free())
                  && (var es := EntriesOf(dirs[parent]);
                      && (ok <==> Index(es, n) < |es|)
                      && (ok ==> parent in dirs' && Scratched(dirs[parent], dirs'[parent], n))
                      && (ok && 0 < Index(es, n) && Calm(dirs[parent]) ==>
                            Detached(dirs, dirs', parent, n)))
                  && (forall m :: m in files && m != n && m != parent ==> Kept(p.L, old(p.disk[..]), files, p.disk[..], files', m)))
  {
    hide *;
    LiveFacts(p, files);
    FoldersAre(p, files);
    ghost var dirs, child := FoldersOf(p, files), ChildIn(FoldersOf(p, files));
    ghost var d0, f0 := p.disk[..], p.Free();
    files' := files;
    var n := PathToInode(p, path, files);
    if n == 0 {
      return false, files;
    }
    ghost var up := Resolve(child, ROOT_INODE, Tokens(Parent(path)));
    RemovableIs(p, files, n, up);
    FolderAt(p, files, n);
    FolderAt(p, files, up);
    ChainedIs(p, files, up);
    LoadsIs(p, files, up);
    LiveFile(p, files, up);
    ParentExists(child, path);
    LiveFile(p, files, n);
    ghost var raw, data, mine := Inode(p, files, up), Data(p, files, up), Inode(p, files, n);
    var freed := Ext2.DeleteFile(p, n, now, files);
    files' := files - {n as nat};
    ghost var d1, f1, rest := p.disk[..], p.Free(), FoldersOf(p, files');
    FoldersAre(p, files');
    KeptByStep(p.L, p.cleared, d0, f0, files, d1, f1, files', n);
    GoneFolders(p.L, p.cleared, d0, f0, files, d1, f1, n);
    KeptRecords(p, d0, f0, files, files', up, raw, data);
    ChainedIs(p, files', up);
    LoadsIs(p, files', up);
    RootIs(2);
    PlainGone(dirs, n, ROOT_INODE, Tokens(path));
    PlainGone(dirs, n, ROOT_INODE, Tokens(Parent(path)));
    ok := DeleteEntry(p, path, n, up, files');
    FoldersAre(p, files');
    KeptByStep(p.L, p.cleared, d1, f1, files', p.disk[..], p.Free(), files', up);
    KeptOn(p.L, d0, files, d1, files', p.disk[..], n, up);
    Steps.StepInode(p.L, p.cleared, d1, f1, files', p.disk[..], p.Free(), files', up, n);
    FreedIs(p.L, d0, f0, files[n as nat], n, now, p.disk[..], p.Free(), mine);
    if ok && 0 < Index(EntriesOf(dirs[up]), n) && Calm(dirs[up]) {
      DetachedIs(dirs, rest, FoldersOf(p, files'), up, n);
    }
  }

  lemma EntriesIs(f: Folder)
    ensures f.Chain? && Tiled(f.data, 0, f.size) ==> EntriesOf(f) == Parse(f.data, 0, f.size)
    ensures Calm(f) ==> f.Chain? && Tiled(f.data, 0, f.size) && Quiet(f.data, 0, f.size)
  {
  }

  /** What was kept twice was kept. */
  lemma KeptOn(L: Layout, d0: seq<Block>, files: map<nat, seq<Tree>>, d1: seq<Block>, files': map<nat, seq<Tree>>,
               d2: seq<Block>,
               n: nat, parent: nat)
    requires files' == files - {n}
    requires forall m :: m in files && m != n ==> Kept(L, d0, files, d1, files', m)
    requires forall m :: m in files' && m != parent ==> Kept(L, d1, files', d2, files', m)
    ensures forall m :: m in files && m != n && m != parent ==> Kept(L, d0, files, d2, files', m)
  {
    hide Kept;
    forall m | m in files && m != n && m != parent ensures Kept(L, d0, files, d2, files', m) {
      KeptTwice(L, d0, files, d1, files', d2, files', m);
    }
  }
}
