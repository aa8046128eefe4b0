/** What histories of requests make of a directory: its records, and the names that are found in it. */
module DirectoryHistories {
  import opened Codec
  import opened Layouts
  import opened Inodes
  import opened Chains
  import opened Dentries
  import opened Removal
  import opened Lookups
  import opened Names
  import opened DirectoryRuns
  import opened Histories

  lemma HistoryPrefix(L: Layout, cleared: bool, requests: seq<Request>, answers: seq<bool>, trace: seq<State>)
    requires History(L, cleared, requests, answers, trace) && requests != []
    ensures var k := |requests| - 1; |answers| == k + 1 && |trace| == k + 2
                                     && History(L, cleared, requests[..k], answers[..k], trace[..k + 1])
                                     && Follows(L, cleared, requests[k], answers[k], trace[k], trace[k + 1])
  {
    hide Follows;
    var k := |requests| - 1;
    forall i | 0 <= i < k ensures Follows(L, cleared, requests[..k][i], answers[..k][i], trace[..k + 1][i], trace[..k + 1][i + 1]) {
      assert Follows(L, cleared, requests[i], answers[i], trace[i], trace[i + 1]);
    }
  }

  lemma FollowsFacts(L: Layout, cleared: bool, r: Request, ok: bool, s: State, t: State)
    requires Follows(L, cleared, r, ok, s, t)
    ensures Sane(L, cleared, s) && Sane(L, cleared, t) && 0 < L.Entries() && 0 < L.blockSize && 0 < L.sectorSize
    ensures forall m :: m != r.ino ==> Seen(L, cleared, t, m) == Seen(L, cleared, s, m)
    ensures Effect(L, r, Admitted(L, cleared, r, s), Seen(L, cleared, s, r.ino), Seen(L, cleared, t, r.ino))
    ensures !r.Write? ==> (ok <==> Admitted(L, cleared, r, s))
  {
    hide Sane, Seen, Effect, Admitted;
  }

  // ----- Records -----

  /** The edits that a list of requests asks for in one directory. */
  function EditsOf(requests: seq<Request>, dir: nat): seq<Edit> {
    if requests == [] then []
    else
      var r := requests[|requests| - 1];
      EditsOf(requests[..|requests| - 1], dir) +
      if r.ino != dir then []
      else if r.Link? then [Edit.Create(r.child, r.fileType, r.name)]
      else if r.Unlink? then [Edit.Delete(r.target)]
      else []
  }

  /** A directory that can be read and edited, with the given records. */
  ghost predicate Holds(blockSize: nat, v: View, es: seq<Dirent>) {
    Listing(blockSize, v) && ISize(v.inode) < 0x1_0000 && Parse(v.data, 0, ISize(v.inode)) == es
  }

  /** One edit of a directory whose names are not empty. */
  lemma EditStep(L: Layout, cleared: bool, r: Request, ok: bool, s: State, t: State, es: seq<Dirent>, first: Word)
    requires Follows(L, cleared, r, ok, s, t) && Sane(L, cleared, s) && Sane(L, cleared, t)
    requires Holds(L.blockSize, Seen(L, cleared, s, r.ino), es) && Regular(es, first)
    requires r.Link? || (r.Unlink? && r.target != first)
    ensures var edit := if r.Link? then Edit.Create(r.child, r.fileType, r.name) else Edit.Delete(r.target);
            Holds(L.blockSize, Seen(L, cleared, t, r.ino), Apply(es, edit))
  {
    hide Follows, Sane, Seen, Tiled, Parse, Added, Removed, Index, HasRoom, WithEntry, Regular, SafeToRemove, IsDirectory;
    FollowsFacts(L, cleared, r, ok, s, t);
    var v := Seen(L, cleared, s, r.ino);
    if r.Link? {
      LinkedRecords(v.data, ISize(v.inode), r.child, r.fileType, Short(r.name));
    } else {
      RegularRemoved(es, first, r.target);
      NotRemoved(es, r.target);
      if Index(es, r.target) < |es| {
        RegularSafe(v.data, ISize(v.inode), r.target, first);
      }
    }
  }

  lemma LinkedRecords(s: seq<Byte>, size: nat, inode: Word, fileType: Byte, name: seq<Byte>)
    requires Tiled(s, 0, size) && |name| < 0x100
    ensures if HasRoom(s, size, |name|) then
              Tiled(WithEntry(s, size, inode, fileType, name), 0, size)
              && Parse(WithEntry(s, size, inode, fileType, name), 0, size) == Added(Parse(s, 0, size), inode, fileType, name)
            else
              Added(Parse(s, 0, size), inode, fileType, name) == Parse(s, 0, size)
  {
    hide Tiled, Parse, HasRoom, WithEntry;
    RoomIs(s, size, inode, fileType, name);
  }

  lemma ProperPrefix(edits: seq<Edit>, more: seq<Edit>, first: Word)
    requires Proper(edits + more, first)
    ensures Proper(edits, first) && Proper(more, first)
  {
    assert forall i :: 0 <= i < |edits| ==> edits[i] == (edits + more)[i];
    assert forall i :: 0 <= i < |more| ==> more[i] == (edits + more)[|edits| + i];
  }

  lemma ApplyOneMore(es: seq<Dirent>, edits: seq<Edit>, edit: Edit)
    ensures ApplyAll(es, edits + [edit]) == Apply(ApplyAll(es, edits), edit)
  {
    assert (edits + [edit])[..|edits|] == edits;
  }

  /**
   A history on the disk, whatever it does to other files, edits a directory as the list of its links and unlinks edits
   the list of its records; the records keep tiling the directory.
   */
  lemma {:induction false} HistoryRecords(L: Layout, cleared: bool, requests: seq<Request>, answers: seq<bool>,
                                          trace: seq<State>,
                                          dir: nat, es: seq<Dirent>, first: Word)
    requires History(L, cleared, requests, answers, trace) && Sane(L, cleared, trace[0])
    requires Holds(L.blockSize, Seen(L, cleared, trace[0], dir), es) && Regular(es, first)
    requires forall j :: 0 <= j < |requests| && requests[j].ino == dir ==> requests[j].Link? || requests[j].Unlink?
    requires Proper(EditsOf(requests, dir), first)
    ensures |trace| == |requests| + 1 && Sane(L, cleared, trace[|requests|])
    ensures Holds(L.blockSize, Seen(L, cleared, trace[|requests|], dir), ApplyAll(es, EditsOf(requests, dir)))
    ensures Regular(ApplyAll(es, EditsOf(requests, dir)), first)
    ensures Aligned(es) ==> Aligned(ApplyAll(es, EditsOf(requests, dir)))
    decreases |requests|
  {
    hide Aligned, Follows, Sane, Seen, Holds, Regular, Proper, Apply;
    if Aligned(es) {
      HistoryAligned(es, EditsOf(requests, dir));
    }
    if requests != [] {
      var k := |requests| - 1;
      var r := requests[k];
      var edits := EditsOf(requests[..k], dir);
      HistoryPrefix(L, cleared, requests, answers, trace);
      FollowsFacts(L, cleared, r, answers[k], trace[k], trace[k + 1]);
      ProperPrefix(edits, EditsOf(requests, dir)[|edits|..], first);
      HistoryRecords(L, cleared, requests[..k], answers[..k], trace[..k + 1], dir, es, first);
      if r.ino == dir {
        var edit := if r.Link? then Edit.Create(r.child, r.fileType, r.name) else Edit.Delete(r.target);
        assert EditsOf(requests, dir) == edits + [edit];
        ProperOne(edits, edit, first);
        EditStep(L, cleared, r, answers[k], trace[k], trace[k + 1], ApplyAll(es, edits), first);
        ApplyOneMore(es, edits, edit);
        HistoryTotal(es, EditsOf(requests, dir), first);
      } else {
        assert EditsOf(requests, dir) == edits;
      }
    }
  }

  /**
   A fresh directory and any run of links and unlinks in it: its records tile it, each at an offset and of a length that
   are multiples of 4.
   */
  lemma FreshRecords(L: Layout, cleared: bool, requests: seq<Request>, answers: seq<bool>, trace: seq<State>)
    requires History(L, cleared, requests, answers, trace) && requests != [] && Sane(L, cleared, trace[0])
    requires requests[0].Initialize? && |answers| == |requests| && answers[0] && requests[0].ino < 0x1_0000_0000
    requires var v := Seen(L, cleared, trace[0], requests[0].ino); IsFile(v) && ISize(v.inode) == DIRECTORY_BYTES <= |v.data|
    requires forall j :: 0 < j < |requests| && requests[j].ino == requests[0].ino ==> requests[j].Link? || requests[j].Unlink?
    requires Proper(EditsOf(requests[1..], requests[0].ino), requests[0].ino)
    ensures |trace| == |requests| + 1 && Sane(L, cleared, trace[|requests|])
    ensures var dir := requests[0].ino; var v := Seen(L, cleared, trace[|requests|], dir);
            && Holds(L.blockSize, v, ApplyAll([Dot(dir), DotDot(requests[0].parent)], EditsOf(requests[1..], dir)))
            && AlignedRecords(v.data, ISize(v.inode))
  {
    hide Follows, Sane, Seen, Initial, Tiled, Parse, IsDirectory, Proper, Aligned, AlignedRecords, Effect, EditsOf, ApplyAll;
    HistoryTail(L, cleared, requests, answers, trace);
    var dir := requests[0].ino;
    FollowsFacts(L, cleared, requests[0], answers[0], trace[0], trace[1]);
    var v, w := Seen(L, cleared, trace[0], dir), Seen(L, cleared, trace[1], dir);
    Initialized(L, requests[0], v, w);
    InitialChain(v.data, dir, requests[0].parent);
    var es := [Dot(dir), DotDot(requests[0].parent)];
    HistoryRecords(L, cleared, requests[1..], answers[1..], trace[1..], dir, es, dir);
    var u := Seen(L, cleared, trace[|requests|], dir);
    RecordsAligned(u.data, ISize(u.inode));
  }

  lemma Initialized(L: Layout, r: Request, v: View, w: View)
    requires 0 < L.blockSize && 0 < L.sectorSize && r.Initialize? && Effect(L, r, true, v, w)
    ensures SameInode(v, w) && r.ino < 0x1_0000_0000 && DIRECTORY_BYTES <= |v.data| && w.data == Initial(v.data, r.ino, r.parent)
  {
  }

  lemma ProperOne(edits: seq<Edit>, edit: Edit, first: Word)
    requires Proper(edits + [edit], first)
    ensures edit.Delete? ==> edit.inode != first
  {
    assert (edits + [edit])[|edits|] == edit;
  }

  // ----- Lookups -----

  /** Request k was answered with success and linked a file into the directory under the given name. */
  predicate Links(requests: seq<Request>, answers: seq<bool>, dir: nat, q: seq<Byte>, k: nat)
    requires k < |requests| <= |answers|
  {
    requests[k].Link? && requests[k].ino == dir && Short(requests[k].name) == q && answers[k]
  }

  /** The first request that did; |requests| if none did. */
  function FirstLink(requests: seq<Request>, answers: seq<bool>, dir: nat, q: seq<Byte>): (k: nat)
    requires |requests| <= |answers|
    ensures k <= |requests|
    ensures k < |requests| ==> Links(requests, answers, dir, q, k)
    ensures forall j :: 0 <= j < k ==> !Links(requests, answers, dir, q, j)
  {
    if requests == [] then 0
    else
      var n := |requests| - 1;
      var k := FirstLink(requests[..n], answers[..n], dir, q);
      assert forall j :: 0 <= j < n ==> (Links(requests, answers, dir, q, j) <==> Links(requests[..n], answers[..n], dir, q, j));
      if k < n || Links(requests, answers, dir, q, n) then k else n + 1
  }

  lemma FirstLinkStep(requests: seq<Request>, answers: seq<bool>, dir: nat, q: seq<Byte>)
    requires requests != [] && |requests| == |answers|
    ensures var n := |requests| - 1; var k := FirstLink(requests[..n], answers[..n], dir, q);
            && (FirstLink(requests, answers, dir, q) == if k < n || Links(requests, answers, dir, q, n) then k else n + 1)
            && (k < n ==> requests[..n][k] == requests[k] && requests[k].Link?)
  {
  }

  /** A directory ready for lookups, in which q is found as the given inode, or not found. */
  ghost predicate Finds(blockSize: nat, v: View, q: seq<Byte>, found: bool, inode: Word) {
    && Listing(blockSize, v) && Ready(v.data, ISize(v.inode))
    && (Found(v.data, 0, ISize(v.inode), q) <==> found)
    && Find(v.data, 0, ISize(v.inode), q) == inode
  }

  /** Every name that is to be linked into the directory leaves room for its NUL. */
  predicate Spellable(requests: seq<Request>, dir: nat) {
    forall j :: 0 <= j < |requests| && requests[j].ino == dir ==>
                  requests[j].Link? && NoNul(Short(requests[j].name)) && |Short(requests[j].name)| % 4 != 0
  }

  lemma LinkStep(L: Layout, cleared: bool, r: Request, ok: bool, s: State, t: State, q: seq<Byte>, found: bool,
                 inode: Word)
    requires Follows(L, cleared, r, ok, s, t) && Sane(L, cleared, s) && Sane(L, cleared, t)
    requires Finds(L.blockSize, Seen(L, cleared, s, r.ino), q, found, inode) && NoNul(q)
    requires r.Link? && NoNul(Short(r.name)) && |Short(r.name)| % 4 != 0
    ensures Finds(L.blockSize, Seen(L, cleared, t, r.ino), q, found || (ok && q == Short(r.name)),
                  if !found && ok && q == Short(r.name) then r.child else inode)
  {
    hide Follows, Sane, Seen, Tiled, Find, Found, LastAt, Need, RecLen, Appended, Ready, NoNul, IsDirectory, Short;
    FollowsFacts(L, cleared, r, ok, s, t);
    var v := Seen(L, cleared, s, r.ino);
    if ok {
      LookupAfterCreate(v.data, ISize(v.inode), r.child, r.fileType, Short(r.name), q);
      ReadyFacts(Seen(L, cleared, t, r.ino).data, ISize(v.inode));
    }
  }

  /**
   Lookups after a run of creations, in whatever order and whatever else happens on the disk: a name that was found
   before is found as before, any other name is found as what the first successful creation under it linked, and what
   was never linked is not found.
   */
  lemma {:induction false} HistoryLookups(L: Layout, cleared: bool, requests: seq<Request>, answers: seq<bool>,
                                          trace: seq<State>,
                                          dir: nat, q: seq<Byte>, found: bool, inode: Word)
    requires History(L, cleared, requests, answers, trace) && Sane(L, cleared, trace[0]) && NoNul(q)
    requires Finds(L.blockSize, Seen(L, cleared, trace[0], dir), q, found, inode) && (!found ==> inode == 0)
    requires Spellable(requests, dir)
    ensures |answers| == |requests| && |trace| == |requests| + 1 && Sane(L, cleared, trace[|requests|])
    ensures var k := FirstLink(requests, answers, dir, q);
            Finds(L.blockSize, Seen(L, cleared, trace[|requests|], dir), q, found || k < |requests|,
                  if found then inode else if k < |requests| then requests[k].child else 0)
    decreases |requests|
  {
    hide *;
    HistoryLength(L, cleared, requests, answers, trace);
    if requests == [] {
      NoLinks(answers, dir, q);
    } else {
      var n := |requests| - 1;
      var r := requests[n];
      HistoryPrefix(L, cleared, requests, answers, trace);
      FollowsFacts(L, cleared, r, answers[n], trace[n], trace[n + 1]);
      SpellablePrefix(requests, dir);
      HistoryLookups(L, cleared, requests[..n], answers[..n], trace[..n + 1], dir, q, found, inode);
      FirstLinkStep(requests, answers, dir, q);
      LinksIs(requests, answers, dir, q, n);
      if r.ino == dir {
        var k := FirstLink(requests[..n], answers[..n], dir, q);
        LinkStep(L, cleared, r, answers[n], trace[n], trace[n + 1], q, found || k < n,
                 if found then inode else if k < n then requests[k].child else 0);
      }
    }
  }

  lemma HistoryLength(L: Layout, cleared: bool, requests: seq<Request>, answers: seq<bool>, trace: seq<State>)
    requires History(L, cleared, requests, answers, trace)
    ensures |answers| == |requests| && |trace| == |requests| + 1
  {
    hide Follows;
  }

  lemma NoLinks(answers: seq<bool>, dir: nat, q: seq<Byte>)
    ensures FirstLink([], answers, dir, q) == 0
  {
  }

  lemma SpellablePrefix(requests: seq<Request>, dir: nat)
    requires Spellable(requests, dir) && requests != []
    ensures Spellable(requests[..|requests| - 1], dir)
    ensures var r := requests[|requests| - 1]; r.ino == dir ==> r.Link? && NoNul(Short(r.name)) && |Short(r.name)| % 4 != 0
  {
    hide NoNul, Short;
  }

  lemma LinksIs(requests: seq<Request>, answers: seq<bool>, dir: nat, q: seq<Byte>, k: nat)
    requires k < |requests| <= |answers|
    ensures Links(requests, answers, dir, q, k) <==>
            requests[k].Link? && requests[k].ino == dir && Short(requests[k].name) == q && answers[k]
  {
  }

  lemma HistoryTail(L: Layout, cleared: bool, requests: seq<Request>, answers: seq<bool>, trace: seq<State>)
    requires History(L, cleared, requests, answers, trace) && requests != []
    ensures |answers| == |requests| && |trace| == |requests| + 1
    ensures History(L, cleared, requests[1..], answers[1..], trace[1..])
    ensures Follows(L, cleared, requests[0], answers[0], trace[0], trace[1])
  {
    hide Follows;
    forall i | 0 <= i < |requests| - 1 ensures Follows(L, cleared, requests[1..][i], answers[1..][i], trace[1..][i], trace[1..][i + 1]) {
      assert Follows(L, cleared, requests[i + 1], answers[i + 1], trace[i + 1], trace[i + 2]);
    }
  }

  /**
   A fresh directory over zeroes, and any run of creations in it: "." and ".." and what was linked is all there is to
   find.
   */
  lemma FreshLookups(L: Layout, cleared: bool, requests: seq<Request>, answers: seq<bool>, trace: seq<State>,
                     q: seq<Byte>)
    requires History(L, cleared, requests, answers, trace) && requests != [] && Sane(L, cleared, trace[0]) && NoNul(q)
    requires requests[0].Initialize? && |answers| == |requests| && answers[0] && Spellable(requests[1..], requests[0].ino)
    requires var v := Seen(L, cleared, trace[0], requests[0].ino);
             IsFile(v) && ISize(v.inode) == DIRECTORY_BYTES <= |v.data| && forall k :: 0 <= k < DIRECTORY_BYTES ==> v.data[k] == 0
    ensures |trace| == |requests| + 1 && Sane(L, cleared, trace[|requests|]) && requests[0].ino < 0x1_0000_0000
    ensures var dir := requests[0].ino; var k := FirstLink(requests[1..], answers[1..], dir, q);
            Finds(L.blockSize, Seen(L, cleared, trace[|requests|], dir), q, q == [DOT] || q == [DOT, DOT] || k < |requests| - 1,
                  if q == [DOT] then dir else if q == [DOT, DOT] then requests[0].parent
                  else if k < |requests| - 1 then requests[1..][k].child else 0)
  {
    hide Follows, Sane, Seen, Spellable, NoNul, Initial, Tiled, Find, Found, Ready, Quiet, IsDirectory;
    HistoryTail(L, cleared, requests, answers, trace);
    var dir := requests[0].ino;
    FollowsFacts(L, cleared, requests[0], answers[0], trace[0], trace[1]);
    var v := Seen(L, cleared, trace[0], dir);
    InitialLookup(v.data, dir, requests[0].parent, q);
    HistoryLookups(L, cleared, requests[1..], answers[1..], trace[1..], dir, q, q == [DOT] || q == [DOT, DOT],
                   if q == [DOT] then dir else if q == [DOT, DOT] then requests[0].parent else 0);
  }
}
