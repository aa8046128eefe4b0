/** Histories of requests, as a reader of the files sees them. */
module Histories {
  import opened Codec
  import opened Arith
  import opened Layouts
  import opened Trees
  import opened Files
  import opened Inodes
  import opened Volumes
  import opened ByteWrite
  import opened Ext2
  import opened Chains
  import opened Dentries
  import opened Removal
  import opened Names
  import opened DirectoryRuns
  import RoundTrips

  datatype Request =
    | Create(ino: nat, mode: int, uid: int, gid: int, now: Word, unique: Word)
    | Resize(ino: nat, size: Word)
    | Write(ino: nat, source: seq<Byte>, count: nat, skip: nat)
    | Delete(ino: nat, now: Word)
    | Initialize(ino: nat, parent: Word)
    | Link(ino: nat, child: Word, fileType: Byte, name: seq<Byte>)
    | Unlink(ino: nat, target: Word)

  // ----- What a reader sees -----

  /** The machine between two requests. */
  datatype State = State(disk: seq<Block>, free: set<nat>, files: map<nat, seq<Tree>>)

  /** What there is to see of a file: its inode, and its data padded to whole blocks. */
  datatype View = Absent | Present(inode: seq<Byte>, data: seq<Byte>)

  ghost predicate Sane(L: Layout, cleared: bool, s: State) {
    AllLive(L, cleared, s.disk, s.free, s.files)
  }

  ghost function Seen(L: Layout, cleared: bool, s: State, n: nat): View
    requires Sane(L, cleared, s)
  {
    if n in s.files then
      LiveAll(L, cleared, s.disk, s.free, s.files, n);
      LiveLeaves(L, cleared, s.disk, s.free, n, s.files[n]);
      Present(InodeAt(L, s.disk, n), Contents(L, s.disk, s.files[n]))
    else
      Absent
  }

  ghost predicate IsFile(v: View) {
    v.Present? && |v.inode| >= 128
  }

  /** Both files are there, with the same inode. */
  ghost predicate SameInode(v: View, w: View) {
    IsFile(v) && IsFile(w) && w.inode == v.inode
  }

  /** The records of a directory that ends within its first 12 blocks. */
  ghost predicate Listing(blockSize: nat, v: View) {
    && IsFile(v) && IsDirectory(v.inode) && ISize(v.inode) <= 12 * blockSize
    && Tiled(v.data, 0, ISize(v.inode))
  }

  /** A directory's bytes before and after the first record for an inode was removed, and every lookup in them. */
  ghost predicate Unlinked(s: seq<Byte>, t: seq<Byte>, size: nat, target: Word) {
    && Tiled(s, 0, size) && size <= |s| && size <= |t| && t[size..] == s[size..]
    && var es := Parse(s, 0, size); var i := Index(es, target);
       && i < |es| && (Tiled(t, 0, size) <==> i > 0)
       && (i > 0 ==> (SafeToRemove(es, i) <==> Parse(t, 0, size) == Removed(es, target)))
       && LooksUpDeleted(s, t, size, target)
  }

  /** What a request does to the file it names once it is admitted; one that is not does nothing. */
  ghost predicate Effect(L: Layout, r: Request, admitted: bool, v: View, w: View)
    requires 0 < L.blockSize && 0 < L.sectorSize
  {
    if !admitted then w == v else
    match r
    case Create(_, mode, uid, gid, now, unique) =>
      && v.Absent? && IsFile(w) && FreshInode(w.inode, mode, uid, gid, now, unique)
      && IMode(w.inode) == mode && ISize(w.inode) == 0 && w.data == []
    case Resize(_, size) =>
      && IsFile(v) && IsFile(w) && v.data <= w.data
      && |w.data| == |v.data| + (if ISize(v.inode) < size then DivUp(size - ISize(v.inode), L.blockSize) else 0) * L.blockSize
      && if ISize(v.inode) == size then w.inode == v.inode else ResizedTo(L, v.inode, size, w.inode)
    case Write(_, source, count, skip) =>
      && IsFile(v) && IsFile(w) && skip + count < 0x1_0000_0000
      && (exists grown :: v.data <= grown && DataWritten(L.blockSize, skip, count, source, grown, w.data)
                          && (skip + count <= ISize(v.inode) ==> grown == v.data))
      && if skip + count <= ISize(v.inode) then w.inode == v.inode else ResizedTo(L, v.inode, skip + count, w.inode)
    case Delete(_, _) =>
      IsFile(v) && w.Absent?
    case Initialize(n, parent) =>
      SameInode(v, w) && n < 0x1_0000_0000 && DIRECTORY_BYTES <= |v.data| && w.data == Initial(v.data, n, parent)
    case Link(_, child, fileType, name) =>
      && SameInode(v, w) && HasRoom(v.data, ISize(v.inode), |Short(name)|)
      && w.data == WithEntry(v.data, ISize(v.inode), child, fileType, Short(name))
    case Unlink(_, target) =>
      SameInode(v, w) && Unlinked(v.data, w.data, ISize(v.inode), target)
  }

  /** If the file has to grow, it uses direct blocks only so far, and there is room. */
  ghost predicate Growable(L: Layout, s: State, n: nat, size: nat, newSize: nat)
    requires 0 < L.Entries() && 0 < L.blockSize
  {
    size < newSize ==>
      n in s.files && |LeavesAll(s.files[n])| <= 12 && Grantable(L, s.free, s.files[n], DivUp(newSize - size, L.blockSize))
  }

  /** The list of the file's first blocks can be loaded: no pointer block is left half used. */
  ghost predicate Listable(cleared: bool, s: State, n: nat, blocks: nat) {
    && n in s.files && blocks <= |LeavesAll(s.files[n])|
    && (|LeavesAll(s.files[n])| <= 12 || (cleared && (blocks <= 12 || blocks == |LeavesAll(s.files[n])|)))
  }

  /** If the file has to shrink, no whole block is cut off. */
  ghost predicate Cuttable(L: Layout, cleared: bool, s: State, n: nat, size: nat, newSize: nat)
    requires 0 < L.blockSize
  {
    newSize < size ==> size - newSize < L.blockSize && Listable(cleared, s, n, DivUp(size, L.blockSize))
  }

  /** Which requests are carried out: the domain of each operation, and what it needs to find. */
  ghost predicate Admitted(L: Layout, cleared: bool, r: Request, s: State)
    requires Sane(L, cleared, s) && 0 < L.Entries() && 0 < L.blockSize
  {
    var v := Seen(L, cleared, s, r.ino);
    match r
    case Create(n, mode, uid, gid, _, _) =>
      v.Absent? && IsInode(L, n) && 0 <= mode < 0x1_0000 && 0 <= uid < 0x1_0000 && 0 <= gid < 0x1_0000
    case Resize(n, size) =>
      IsFile(v) && Growable(L, s, n, ISize(v.inode), size) && Cuttable(L, cleared, s, n, ISize(v.inode), size)
    case Write(n, source, count, skip) =>
      && IsFile(v) && !IsDirectory(v.inode) && Growable(L, s, n, ISize(v.inode), skip + count)
      && Writes(L.blockSize, |source|, count, skip)
    case Delete(n, _) =>
      IsFile(v) && Listable(cleared, s, n, DivUp(ISize(v.inode), L.blockSize))
    case Initialize(n, _) =>
      n < 0x1_0000_0000 && IsFile(v) && IsDirectory(v.inode) && DIRECTORY_BYTES <= ISize(v.inode) <= L.blockSize
    case Link(_, _, _, name) =>
      Listing(L.blockSize, v) && HasRoom(v.data, ISize(v.inode), |Short(name)|)
    case Unlink(_, target) =>
      && Listing(L.blockSize, v) && ISize(v.inode) < 0x1_0000
      && var es := Parse(v.data, 0, ISize(v.inode)); Index(es, target) < |es|
  }

  /** Which requests are answered with success: a write can still be given up on the way. */
  ghost predicate Accepted(L: Layout, cleared: bool, r: Request, s: State)
    requires Sane(L, cleared, s) && 0 < L.Entries() && 0 < L.blockSize
  {
    Admitted(L, cleared, r, s) && (r.Write? ==> Transfers(L.blockSize, r.skip, r.count))
  }

  /** The ranges and source buffers for which a write is memory-safe. */
  predicate Writes(blockSize: nat, room: nat, count: nat, skip: nat)
    requires 0 < blockSize
  {
    var s := Remainder(skip, blockSize);
    && skip + count < 0x1_0000_0000 && (s == 0 || 2 * s <= blockSize) && s < blockSize
    && Needed(blockSize, s, count, DivUp(count, blockSize)) <= room
  }

  /**
   The bytes by which a request makes its file grow, or try to: growth is for files that use direct blocks only so
   far.
   */
  ghost function Missing(L: Layout, cleared: bool, r: Request, s: State): (bytes: nat)
    requires Sane(L, cleared, s) && 0 < L.blockSize
    ensures bytes > 0 ==> r.ino in s.files && |LeavesAll(s.files[r.ino])| <= 12
  {
    var v := Seen(L, cleared, s, r.ino);
    if !IsFile(v) || r.ino !in s.files || |LeavesAll(s.files[r.ino])| > 12 then 0
    else match r
    case Resize(_, size) =>
      if ISize(v.inode) < size then size - ISize(v.inode) else 0
    case Write(_, source, count, skip) =>
      if !IsDirectory(v.inode) && Writes(L.blockSize, |source|, count, skip) && ISize(v.inode) < skip + count
      then skip + count - ISize(v.inode) else 0
    case _ => 0
  }

  /**
   What a request leaves of the free blocks: growth takes what it needs, lowest first, or, when that is not there,
   everything; deletion gives back the blocks that the size of the file calls for; nothing else changes them.
   */
  ghost predicate Spends(L: Layout, cleared: bool, r: Request, s: State, free: set<nat>)
    requires Sane(L, cleared, s) && 0 < L.Entries() && 0 < L.blockSize
  {
    var more := Missing(L, cleared, r, s);
    if more > 0 then
      Spent(L.Entries(), s.free, free, |s.files[r.ino]|, DivUp(more, L.blockSize))
    else if r.Delete? && Admitted(L, cleared, r, s) then
      var blocks := DivUp(ISize(Seen(L, cleared, s, r.ino).inode), L.blockSize);
      blocks <= |LeavesAll(s.files[r.ino])| && free == s.free + ToSet(LeavesAll(s.files[r.ino])[..blocks])
    else
      free == s.free
  }

  /** A deleted file leaves an inode without mode, links, size and sectors, with the time of deletion. */
  ghost predicate Buried(L: Layout, cleared: bool, r: Request, s: State, d: seq<Block>)
    requires Sane(L, cleared, s) && 0 < L.Entries() && 0 < L.blockSize
  {
    r.Delete? && Admitted(L, cleared, r, s) ==>
      && L.InodesOk() && IsInode(L, r.ino) && L.Image(d)
      && InodeAt(L, d, r.ino) == Dead(Seen(L, cleared, s, r.ino).inode, r.now)
  }

  /** A request served: every file but the one it names looks the same, and the free blocks are accounted for. */
  ghost predicate Follows(L: Layout, cleared: bool, r: Request, ok: bool, s: State, t: State) {
    && Sane(L, cleared, s) && Sane(L, cleared, t) && 0 < L.Entries() && 0 < L.blockSize && 0 < L.sectorSize
    && (ok <==> Accepted(L, cleared, r, s))
    && (forall m :: m != r.ino ==> Seen(L, cleared, t, m) == Seen(L, cleared, s, m))
    && Effect(L, r, Admitted(L, cleared, r, s), Seen(L, cleared, s, r.ino), Seen(L, cleared, t, r.ino))
    && Spends(L, cleared, r, s, t.free) && Buried(L, cleared, r, s, t.disk)
  }

  ghost predicate History(L: Layout, cleared: bool, requests: seq<Request>, answers: seq<bool>, trace: seq<State>) {
    && |answers| == |requests| && |trace| == |requests| + 1
    && forall i :: 0 <= i < |requests| ==> Follows(L, cleared, requests[i], answers[i], trace[i], trace[i + 1])
  }

  // ----- What histories keep -----

  lemma HistoryAt(L: Layout, cleared: bool, requests: seq<Request>, answers: seq<bool>, trace: seq<State>, i: nat)
    requires History(L, cleared, requests, answers, trace) && i < |requests|
    ensures |answers| == |requests| && |trace| == |requests| + 1
    ensures Follows(L, cleared, requests[i], answers[i], trace[i], trace[i + 1])
    ensures Sane(L, cleared, trace[i]) && Sane(L, cleared, trace[i + 1])
  {
  }

  /** A file that no request names from some point on looks the same from there to the end. */
  lemma {:induction false} Untouched(L: Layout, cleared: bool, requests: seq<Request>, answers: seq<bool>,
                                     trace: seq<State>, i: nat, m: nat)
    requires History(L, cleared, requests, answers, trace) && i < |requests|
    requires forall j :: i <= j < |requests| ==> requests[j].ino != m
    ensures |trace| == |requests| + 1 && Sane(L, cleared, trace[i]) && Sane(L, cleared, trace[|requests|])
    ensures Seen(L, cleared, trace[|requests|], m) == Seen(L, cleared, trace[i], m)
    decreases |requests| - i
  {
    HistoryAt(L, cleared, requests, answers, trace, i);
    if i + 1 < |requests| {
      Untouched(L, cleared, requests, answers, trace, i + 1, m);
    }
  }

  /**
   The bytes of a block-aligned write that was answered with success are in the file as long as no later request names
   it.
   */
  lemma Durable(L: Layout, cleared: bool, requests: seq<Request>, answers: seq<bool>, trace: seq<State>, i: nat)
    requires History(L, cleared, requests, answers, trace) && i < |requests|
    requires requests[i].Write? && answers[i] && 0 < L.blockSize && Remainder(requests[i].skip, L.blockSize) == 0
    requires forall j :: i < j < |requests| ==> requests[j].ino != requests[i].ino
    ensures |trace| == |requests| + 1 && Sane(L, cleared, trace[|requests|])
    ensures var r := requests[i]; var v := Seen(L, cleared, trace[|requests|], r.ino);
            && IsFile(v) && r.skip + r.count <= |v.data| && r.count <= |r.source|
            && v.data[r.skip..r.skip + r.count] == r.source[..r.count]
            && r.skip + r.count <= ISize(v.inode)
  {
    hide Remainder, DivUp, Seen, Sane, Splice;
    HistoryAt(L, cleared, requests, answers, trace, i);
    var r := requests[i];
    var v, w := Seen(L, cleared, trace[i], r.ino), Seen(L, cleared, trace[i + 1], r.ino);
    AlignedEffect(L, r, v, w);
    if i + 1 < |requests| {
      Untouched(L, cleared, requests, answers, trace, i + 1, r.ino);
    }
  }

  lemma AlignedEffect(L: Layout, r: Request, v: View, w: View)
    requires 0 < L.blockSize && 0 < L.sectorSize && r.Write? && Effect(L, r, true, v, w) && Remainder(r.skip, L.blockSize) == 0
    requires Transfers(L.blockSize, r.skip, r.count)
    ensures IsFile(w) && r.skip + r.count <= |w.data| && r.count <= |r.source| && r.skip + r.count <= ISize(w.inode)
    ensures w.data[r.skip..r.skip + r.count] == r.source[..r.count]
  {
    hide Remainder, DivUp, Overwritten, Splice;
    var grown :| v.data <= grown && DataWritten(L.blockSize, r.skip, r.count, r.source, grown, w.data);
    ExtentCovers(L.blockSize, 0, r.count, DivUp(r.count, L.blockSize), r.skip);
    RoundTrips.AlignedData(L.blockSize, r.skip, r.count, r.source, grown, w.data);
    SplicedSlice(grown, r.skip, r.source[..r.count]);
    if ISize(v.inode) < r.skip + r.count {
      ResizedSize(L, v.inode, r.skip + r.count, w.inode);
    }
  }

  lemma SplicedSlice(s: seq<Byte>, i: nat, t: seq<Byte>)
    requires i + |t| <= |s|
    ensures Splice(s, i, t)[i..i + |t|] == t
  {
  }
}
