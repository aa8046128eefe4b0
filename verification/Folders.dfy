/** Directories as values: what each answers to a name, and what one more entry makes of every path. */
module Folders {
  import opened Codec
  import opened Inodes
  import opened Chains
  import opened Dentries
  import opened Lookups
  import opened Names
  import opened DirectoryRuns
  import opened Paths

  /**
   A file as the walk over a path sees it: no directory, a directory that does not end within its first 12 blocks,
   or the bytes of one that does.
   */
  datatype Folder = Plain | Long | Chain(data: seq<Byte>, size: nat)

  type Volume = map<nat, Folder>

  function FolderOf(blockSize: nat, raw: seq<Byte>, data: seq<Byte>): Folder
    requires |raw| >= 128
  {
    if !IsDirectory(raw) then Plain
    else if ISize(raw) > 12 * blockSize then Long
    else Chain(data, ISize(raw))
  }

  /** The records tile the directory. */
  predicate Whole(f: Folder) {
    f.Chain? ==> Tiled(f.data, 0, f.size)
  }

  /** And every comparison with a name ends within it. */
  predicate Readable(f: Folder) {
    f.Chain? ==> Tiled(f.data, 0, f.size) && Anchored(f.data, f.size)
  }

  /** The answer of ext2_inode_from_path_and_parent: 1 stands for a directory that cannot be read. */
  function Answer(f: Folder, q: seq<Byte>): nat {
    match f
    case Plain => 0
    case Long => 1
    case Chain(data, size) => if Tiled(data, 0, size) then Find(data, 0, size, q) else 0
  }

  function ChildIn(dirs: Volume): Child {
    (n, q) => if n in dirs then Answer(dirs[n], q) else 0
  }

  /** Every directory on the way can be read. */
  predicate Traversable(dirs: Volume, n: nat, tokens: seq<seq<Byte>>)
    decreases |tokens|
  {
    tokens != [] ==>
      && n in dirs && Readable(dirs[n])
      && (Answer(dirs[n], tokens[0]) != 0 ==> Traversable(dirs, Answer(dirs[n], tokens[0]), tokens[1..]))
  }

  lemma {:induction false} TraversableSplit(dirs: Volume, n: nat, a: seq<seq<Byte>>, b: seq<seq<Byte>>)
    requires Traversable(dirs, n, a + b) && n != 0
    ensures Traversable(dirs, n, a)
    ensures Resolve(ChildIn(dirs), n, a) != 0 ==> Traversable(dirs, Resolve(ChildIn(dirs), n, a), b)
    decreases |a|
  {
    hide Answer, Readable;
    if a == [] {
      assert a + b == b;
    } else {
      assert (a + b)[1..] == a[1..] + b && (a + b)[0] == a[0];
      if Answer(dirs[n], a[0]) != 0 {
        TraversableSplit(dirs, Answer(dirs[n], a[0]), a[1..], b);
      }
    }
  }

  // ----- Whole namespaces -----

  /** A directory that can be read and leads to inodes among the given ones only. */
  ghost predicate Navigable(f: Folder, inodes: set<nat>) {
    && !f.Long? && Readable(f)
    && (f.Chain? ==> var es := Parse(f.data, 0, f.size); forall i :: 0 <= i < |es| ==> es[i].inode == 0 || es[i].inode as nat in inodes)
  }

  /** Every directory is like that, and there is a root. */
  ghost predicate Closed(dirs: Volume) {
    ROOT_INODE in dirs && forall n :: n in dirs ==> Navigable(dirs[n], dirs.Keys)
  }

  lemma AnswerAmong(f: Folder, inodes: set<nat>, q: seq<Byte>)
    requires Navigable(f, inodes)
    ensures Answer(f, q) == 0 || Answer(f, q) in inodes
  {
    hide Tiled, Parse, Find, Anchored;
    if f.Chain? {
      FindAmong(f.data, 0, f.size, q);
    }
  }

  /** In a closed namespace every path can be followed, and leads to a live inode or nowhere. */
  lemma {:induction false} ClosedTraversable(dirs: Volume, n: nat, tokens: seq<seq<Byte>>)
    requires Closed(dirs) && n in dirs
    ensures Traversable(dirs, n, tokens)
    ensures Resolve(ChildIn(dirs), n, tokens) == 0 || Resolve(ChildIn(dirs), n, tokens) in dirs
    decreases |tokens|
  {
    hide Answer, Tiled, Parse, Anchored;
    if tokens != [] {
      AnswerAmong(dirs[n], dirs.Keys, tokens[0]);
      if Answer(dirs[n], tokens[0]) != 0 {
        ClosedTraversable(dirs, Answer(dirs[n], tokens[0]), tokens[1..]);
      }
    }
  }

  // ----- One more entry -----

  /** From dirs to dirs', directory `parent` got an entry for a new inode n, which is the given folder. */
  predicate Created(dirs: Volume, dirs': Volume, parent: nat, name: seq<Byte>, n: Word, fileType: Byte, folder: Folder) {
    && parent in dirs && dirs[parent].Chain? && n as nat !in dirs && n != 0
    && HasRoom(dirs[parent].data, dirs[parent].size, |name|)
    && var f := dirs[parent];
       dirs' == dirs[parent := Chain(WithEntry(f.data, f.size, n, fileType, name), f.size)][n as nat := folder]
  }

  /** A directory that is ready for lookups, and a new name for it that has room for its NUL. */
  ghost predicate Admits(f: Folder, name: seq<Byte>) {
    && f.Chain? && Ready(f.data, f.size) && Tiled(f.data, 0, f.size)
    && NoNul(name) && |name| < 0x100 && |name| % 4 != 0 && !Found(f.data, 0, f.size, name)
  }

  /** Only the new name gets a new answer. */
  lemma CreatedAnswer(dirs: Volume, dirs': Volume, parent: nat, name: seq<Byte>, n: Word, fileType: Byte,
                      folder: Folder,
                      m: nat, q: seq<Byte>)
    requires Created(dirs, dirs', parent, name, n, fileType, folder) && Admits(dirs[parent], name) && m in dirs && NoNul(q)
    ensures m in dirs' && Answer(dirs'[m], q) == if m == parent && q == name then n else Answer(dirs[m], q)
    ensures Answer(dirs[parent], name) == 0
  {
    hide Tiled, Find, Found, LastAt, Need, HalfAt, Ready, NoNul, Appended;
    var f := dirs[parent];
    LookupAfterCreate(f.data, f.size, n, fileType, name, q);
    ReadyTiled(WithEntry(f.data, f.size, n, fileType, name), f.size);
    NotFound(f.data, 0, f.size, name);
  }

  lemma ReadyTiled(s: seq<Byte>, size: nat)
    requires Ready(s, size)
    ensures Tiled(s, 0, size)
  {
  }

  /** The walk from inode m looks up `name` in directory `parent`. */
  predicate Through(child: Child, m: nat, tokens: seq<seq<Byte>>, parent: nat, name: seq<Byte>)
    decreases |tokens|
  {
    tokens != [] &&
    ((m == parent && tokens[0] == name)
     || (child(m, tokens[0]) != 0 && Through(child, child(m, tokens[0]), tokens[1..], parent, name)))
  }

  /** The components behind the first such lookup. */
  function Behind(child: Child, m: nat, tokens: seq<seq<Byte>>, parent: nat, name: seq<Byte>): seq<seq<Byte>>
    requires Through(child, m, tokens, parent, name)
    decreases |tokens|
  {
    if m == parent && tokens[0] == name then tokens[1..] else Behind(child, child(m, tokens[0]), tokens[1..], parent, name)
  }

  predicate AllNoNul(tokens: seq<seq<Byte>>) {
    forall i :: 0 <= i < |tokens| ==> NoNul(tokens[i])
  }

  lemma NoNulFirst(tokens: seq<seq<Byte>>)
    requires AllNoNul(tokens) && tokens != []
    ensures NoNul(tokens[0]) && AllNoNul(tokens[1..])
  {
    assert forall i :: 0 <= i < |tokens| - 1 ==> tokens[1..][i] == tokens[i + 1];
  }

  /**
   What a creation makes of every path that could be followed before: one that does not look up the new name resolves
   as before, and one that does goes on from the new inode.
   */
  lemma {:induction false} CreatedResolve(dirs: Volume, dirs': Volume, parent: nat, name: seq<Byte>, n: Word,
                                          fileType: Byte,
                                          folder: Folder, m: nat, tokens: seq<seq<Byte>>)
    requires Created(dirs, dirs', parent, name, n, fileType, folder) && Admits(dirs[parent], name)
    requires Traversable(dirs, m, tokens) && AllNoNul(tokens)
    ensures var child, child' := ChildIn(dirs), ChildIn(dirs');
            Resolve(child', m, tokens) ==
            if Through(child, m, tokens, parent, name) then Resolve(child', n, Behind(child, m, tokens, parent, name))
            else Resolve(child, m, tokens)
    decreases |tokens|
  {
    hide Created, Admits, Answer, Readable, NoNul, AllNoNul;
    if tokens != [] {
      NoNulFirst(tokens);
      CreatedNames(dirs, dirs', parent, name, n, fileType, folder);
      CreatedAnswer(dirs, dirs', parent, name, n, fileType, folder, m, tokens[0]);
      if Answer(dirs[m], tokens[0]) != 0 {
        CreatedResolve(dirs, dirs', parent, name, n, fileType, folder, Answer(dirs[m], tokens[0]), tokens[1..]);
      }
    }
  }

  lemma CreatedNames(dirs: Volume, dirs': Volume, parent: nat, name: seq<Byte>, n: Word, fileType: Byte, folder: Folder)
    requires Created(dirs, dirs', parent, name, n, fileType, folder)
    ensures parent in dirs && n as nat !in dirs && n != 0
  {
  }

  /**
   A walk that looks up a name that is not there leads nowhere: whatever resolved keeps resolving to the same inode.
   */
  lemma {:induction false} ThroughFails(child: Child, m: nat, tokens: seq<seq<Byte>>, parent: nat, name: seq<Byte>)
    requires Through(child, m, tokens, parent, name) && child(parent, name) == 0
    ensures Resolve(child, m, tokens) == 0
    decreases |tokens|
  {
    if !(m == parent && tokens[0] == name) {
      ThroughFails(child, child(m, tokens[0]), tokens[1..], parent, name);
    }
  }

  /** The way to the parent and then the new name leads to the new inode. */
  lemma {:induction false} CreatedPath(dirs: Volume, dirs': Volume, parent: nat, name: seq<Byte>, n: Word,
                                       fileType: Byte,
                                       folder: Folder, m: nat, tokens: seq<seq<Byte>>)
    requires Created(dirs, dirs', parent, name, n, fileType, folder) && Admits(dirs[parent], name)
    requires Traversable(dirs, m, tokens) && AllNoNul(tokens) && m != 0 && Resolve(ChildIn(dirs), m, tokens) == parent != 0
    ensures Resolve(ChildIn(dirs'), m, tokens) == parent && Resolve(ChildIn(dirs'), m, tokens + [name]) == n
  {
    hide Admits, Answer, Readable, NoNul, AllNoNul, HasRoom, Traversable;
    AdmitsName(dirs[parent], name);
    CreatedAnswer(dirs, dirs', parent, name, n, fileType, folder, parent, name);
    CreatedResolve(dirs, dirs', parent, name, n, fileType, folder, m, tokens);
    if Through(ChildIn(dirs), m, tokens, parent, name) {
      ThroughFails(ChildIn(dirs), m, tokens, parent, name);
    }
    ResolveConcat(ChildIn(dirs'), m, tokens, [name]);
    ResolveOne(ChildIn(dirs'), parent, name);
  }

  lemma AdmitsName(f: Folder, name: seq<Byte>)
    requires Admits(f, name)
    ensures NoNul(name)
  {
  }

  /** A creation keeps the namespace closed exactly when what was created is proper itself. */
  lemma CreatedClosed(dirs: Volume, dirs': Volume, parent: nat, name: seq<Byte>, n: Word, fileType: Byte,
                      folder: Folder)
    requires Created(dirs, dirs', parent, name, n, fileType, folder) && Admits(dirs[parent], name) && Closed(dirs)
    ensures Closed(dirs') <==> Navigable(folder, dirs'.Keys)
  {
    hide Navigable, Admits, HasRoom, WithEntry;
    assert dirs'[n as nat] == folder;
    assert dirs'.Keys == dirs.Keys + {n as nat};
    forall m | m in dirs ensures Navigable(dirs'[m], dirs'.Keys) {
      if m == parent {
        EntryNavigable(dirs[parent], dirs.Keys, name, n, fileType);
      } else {
        NavigableWider(dirs[m], dirs.Keys, dirs'.Keys);
      }
    }
  }

  lemma NavigableWider(f: Folder, inodes: set<nat>, more: set<nat>)
    requires Navigable(f, inodes) && inodes <= more
    ensures Navigable(f, more)
  {
    hide Readable, Tiled, Parse;
  }

  lemma EntryNavigable(f: Folder, inodes: set<nat>, name: seq<Byte>, n: Word, fileType: Byte)
    requires f.Chain? && Navigable(f, inodes) && Admits(f, name) && HasRoom(f.data, f.size, |name|)
    ensures Navigable(Chain(WithEntry(f.data, f.size, n, fileType, name), f.size), inodes + {n as nat})
  {
    hide Tiled, Parse, Ready, Anchored, HasRoom, WithEntry, Found, NoNul;
    var t := WithEntry(f.data, f.size, n, fileType, name);
    EntryAnchored(f.data, f.size, n, fileType, name);
    RoomIs(f.data, f.size, n, fileType, name);
    var es := Parse(f.data, 0, f.size);
    assert Parse(t, 0, f.size) == Added(es, n, fileType, name);
    AddedInodes(es, n, fileType, name, inodes);
  }

  lemma EntryAnchored(s: seq<Byte>, size: nat, n: Word, fileType: Byte, name: seq<Byte>)
    requires HasRoom(s, size, |name|) && Ready(s, size) && NoNul(name) && |name| < 0x100 && |name| % 4 != 0
    ensures var t := WithEntry(s, size, n, fileType, name); Tiled(t, 0, size) && Anchored(t, size)
  {
    hide Tiled, Ready, Anchored, LastAt, Need, HalfAt, Appended, NoNul;
    LookupAfterCreate(s, size, n, fileType, name, name);
    ReadyAnchored(WithEntry(s, size, n, fileType, name), size);
  }

  lemma AddedInodes(es: seq<Dirent>, inode: Word, fileType: Byte, name: seq<Byte>, inodes: set<nat>)
    requires forall i :: 0 <= i < |es| ==> es[i].inode == 0 || es[i].inode as nat in inodes
    ensures var after := Added(es, inode, fileType, name);
            forall i :: 0 <= i < |after| ==> after[i].inode == 0 || after[i].inode as nat in inodes + {inode as nat}
  {
    if es != [] {
      AddedKeeps(es, inode, fileType, name);
      var after := Added(es, inode, fileType, name);
      if |after| == |es| + 1 {
        assert after[|es|].inode == inode;
      }
    }
  }

  /** The two records of a fresh directory are proper as soon as some zero byte follows them. */
  lemma InitialNavigable(all: seq<Byte>, inode: Word, parent: Word, inodes: set<nat>)
    requires DIRECTORY_BYTES <= |all| && inode as nat in inodes && parent as nat in inodes
    ensures Navigable(Chain(Initial(all, inode, parent), DIRECTORY_BYTES), inodes) <==> NulWithin(all, 22, DIRECTORY_BYTES)
  {
    hide Tiled, Parse, LastAt, HalfAt;
    InitialChain(all, inode, parent);
    var t := Initial(all, inode, parent);
    InitialTail(all, inode, parent);
    if NulWithin(all, 22, DIRECTORY_BYTES) {
      var k :| 22 <= k < DIRECTORY_BYTES && all[k] == 0;
      assert t[k] == 0;
    }
    if NulWithin(t, 20, DIRECTORY_BYTES) {
      var k :| 20 <= k < DIRECTORY_BYTES && t[k] == 0;
      assert k >= 22 && all[k] == 0;
    }
    var es := [Dot(inode), DotDot(parent)];
    assert forall i :: 0 <= i < |es| ==> es[i].inode as nat in inodes;
  }

  lemma InitialTail(all: seq<Byte>, inode: Word, parent: Word)
    requires DIRECTORY_BYTES <= |all|
    ensures var t := Initial(all, inode, parent); t[20] == DOT && t[21] == DOT && forall k :: 22 <= k < |all| ==> t[k] == all[k]
  {
    hide WordBytes, HalfBytes;
    assert EntryBytes(DotDot(parent))[8] == DOT && EntryBytes(DotDot(parent))[9] == DOT;
  }
}
