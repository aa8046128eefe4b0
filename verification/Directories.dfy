/** Directories on the disk: the records of a directory are the contents of its file. */
module Directories {
  import opened Codec
  import opened Arith
  import opened Partitions
  import opened Trees
  import opened Inodes
  import opened ByteRange
  import opened ByteWrite
  import opened Volumes
  import opened Steps
  import opened Ext2
  import opened Chains
  import opened Dentries
  import opened Removal
  import opened Lookups
  import opened Names
  import opened DirectoryRuns
  import RoundTrips
  import WriteExact
  import Reading

  /** Inode n is a directory whose bytes can be transferred: it ends within its first 12 blocks. */
  ghost predicate Loads(p: Partition, files: map<nat, seq<Tree>>, n: nat)
    requires Live(p, files) && n in files
    reads p, p.disk
  {
    IsDirectory(Inode(p, files, n)) && ISize(Inode(p, files, n)) <= 12 * p.L.blockSize
  }

  /** The records of a directory tile its size. */
  ghost predicate Chained(p: Partition, files: map<nat, seq<Tree>>, n: nat)
    requires Live(p, files) && n in files
    reads p, p.disk
  {
    Tiled(Data(p, files, n), 0, ISize(Inode(p, files, n)))
  }

  ghost function Records(p: Partition, files: map<nat, seq<Tree>>, n: nat): seq<Dirent>
    requires Live(p, files) && n in files && Chained(p, files, n)
    reads p, p.disk
  {
    Parse(Data(p, files, n), 0, ISize(Inode(p, files, n)))
  }

  /** A transfer of a whole directory: carried out exactly when it ends within 12 blocks. */
  lemma WholeTransfer(blockSize: nat, size: nat)
    requires 0 < blockSize
    ensures Remainder(0, blockSize) == 0 && Quotient(0, blockSize) == 0
    ensures Extent(blockSize, 0, size, DivUp(size, blockSize)) == size == Needed(blockSize, 0, size, DivUp(size, blockSize))
    ensures Reach(blockSize, 0, 0, size, DivUp(size, blockSize)) <==> size <= 12 * blockSize
  {
    if 0 < size {
      RoundTrips.AlignedReach(blockSize, 0, size);
    }
  }

  /** Reads a directory into a buffer with `slack` more bytes behind it. */
  method LoadDirectory(p: Partition, n: nat, slack: nat, ghost files: map<nat, seq<Tree>>)
    returns (directory: bool, loaded: bool, buffer: array<Byte>, size: nat)
    requires Live(p, files) && n in files
    ensures fresh(buffer)
    ensures directory <==> IsDirectory(Inode(p, files, n))
    ensures loaded <==> Loads(p, files, n)
    ensures size == ISize(Inode(p, files, n)) <= |Data(p, files, n)|
    ensures loaded ==> buffer.Length == size + slack && buffer[..size] == Data(p, files, n)[..size]
  {
    hide *;
    LiveFacts(p, files);
    LiveFile(p, files, n);
    LiveWritable(p, files, n);
    var raw: seq<Byte> := ReadInode(p, n);
    size := ISize(raw);
    buffer := new Byte[size + slack];
    directory := IsDirectory(raw);
    loaded := false;
    LoadsIs(p, files, n);
    if directory {
      ghost var before := buffer[..];
      WholeTransfer(p.L.blockSize, size);
      var r := ReadInodeBytes(p, n, buffer, 0, size, 0, files[n]);
      loaded := r.Done?;
      if loaded {
        ReadPrefix(before, Data(p, files, n), 0, size, size);
        assert Data(p, files, n)[0..size] == Data(p, files, n)[..size];
      }
    }
  }

  lemma LoadsIs(p: Partition, files: map<nat, seq<Tree>>, n: nat)
    requires Live(p, files) && n in files
    ensures Loads(p, files, n) <==> IsDirectory(Inode(p, files, n)) && ISize(Inode(p, files, n)) <= 12 * p.L.blockSize
  {
  }

  /** Writes a directory back. */
  method StoreDirectory(p: Partition, n: nat, bytes: seq<Byte>, size: nat, ghost files: map<nat, seq<Tree>>)
    returns (ok: bool)
    requires Live(p, files) && n in files && Loads(p, files, n) && size == ISize(Inode(p, files, n)) <= |bytes|
    modifies p.disk
    ensures Live(p, files) && p.Free() == old(p.Free()) && ok
    ensures Step(p.L, p.cleared, old(p.disk[..]), old(p.Free()), files, p.disk[..], p.Free(), files, n)
    ensures Inode(p, files, n) == old(Inode(p, files, n))
    ensures size <= |old(Data(p, files, n))| && Data(p, files, n) == Splice(old(Data(p, files, n)), 0, bytes[..size])
  {
    hide *;
    LiveFacts(p, files);
    LiveFile(p, files, n);
    LiveWritable(p, files, n);
    LoadsIs(p, files, n);
    ValidIs(p);
    WholeTransfer(p.L.blockSize, size);
    ghost var d0, f0, g0, s0, all := p.disk[..], p.Free(), p.groupFree, p.superFree, Data(p, files, n);
    var r := WriteInodeBytes(p, n, bytes, size, 0, files[n]);
    WritableFacts(p, n, files[n]);
    WrittenLive(p, files, n, d0, g0, s0, f0);
    LiveWritable(p, files, n);
    LiveFile(p, files, n);
    WholeWritten(p.L.blockSize, size, bytes, all, Data(p, files, n));
    ok := r.Done?;
  }

  lemma WholeWritten(blockSize: nat, size: nat, bytes: seq<Byte>, all: seq<Byte>, data: seq<Byte>)
    requires 0 < blockSize && size <= |bytes| && size <= |all|
    requires (WriteFacts(blockSize, 0, 0, size, DivUp(size, blockSize));
              WholeTransfer(blockSize, size);
              data == WriteOutcome(all, 0, bytes, blockSize, 0, 0, size, DivUp(size, blockSize)))
    requires size <= 12 * blockSize
    ensures data == Splice(all, 0, bytes[..size])
  {
    hide Overwritten, Splice, DivUp;
    WriteFacts(blockSize, 0, 0, size, DivUp(size, blockSize));
    WholeTransfer(blockSize, size);
    WriteExact.AlignedWrite(all, 0, bytes, blockSize, size, DivUp(size, blockSize));
  }

  /** A chain over the first bytes of one sequence, in another. */
  lemma SameChain(s: seq<Byte>, t: seq<Byte>, size: nat)
    requires size <= |s| && size <= |t| && s[..size] == t[..size]
    ensures Tiled(s, 0, size) <==> Tiled(t, 0, size)
    ensures Tiled(s, 0, size) ==> Parse(s, 0, size) == Parse(t, 0, size)
  {
    assert forall k :: 0 <= k < size ==> s[k] == s[..size][k] && t[k] == t[..size][k];
    if Tiled(s, 0, size) {
      ChainFrame(s, t, 0, size);
    }
    if Tiled(t, 0, size) {
      ChainFrame(t, s, 0, size);
    }
  }

  lemma SplicedPrefix(all: seq<Byte>, bytes: seq<Byte>, size: nat)
    requires size <= |bytes| && size <= |all|
    ensures Splice(all, 0, bytes[..size])[..size] == bytes[..size]
    ensures Splice(all, 0, bytes[..size])[size..] == all[size..]
  {
  }

  /** The records after a directory was read, edited and written back are those of the edited bytes. */
  lemma StoredChain(all: seq<Byte>, data: seq<Byte>, bytes: seq<Byte>, size: nat)
    requires size <= |bytes| && size <= |all| && data == Splice(all, 0, bytes[..size])
    ensures size <= |data| && (Tiled(data, 0, size) <==> Tiled(bytes, 0, size))
    ensures Tiled(bytes, 0, size) ==> Parse(data, 0, size) == Parse(bytes, 0, size)
    ensures data[size..] == all[size..]
  {
    SplicedPrefix(all, bytes, size);
    SameChain(data, bytes, size);
  }

  lemma ChainedIs(p: Partition, files: map<nat, seq<Tree>>, n: nat)
    requires Live(p, files) && n in files
    ensures Chained(p, files, n) <==> Tiled(Data(p, files, n), 0, ISize(Inode(p, files, n)))
    ensures Chained(p, files, n) ==> Records(p, files, n) == Parse(Data(p, files, n), 0, ISize(Inode(p, files, n)))
  {
  }

  /**
   ext2_create_directory_entry. The entry goes in when the last one has room for it; a directory that is ready for
   lookups stays so when the name has room for its NUL.
   */
  method CreateDirectoryEntry(p: Partition, n: nat, child: Word, fileType: Byte, name: seq<Byte>,
                              ghost files: map<nat, seq<Tree>>)
    returns (ok: bool)
    requires Live(p, files) && n in files && (Loads(p, files, n) ==> Chained(p, files, n))
    modifies p.disk
    ensures Live(p, files) && p.Free() == old(p.Free())
    ensures Step(p.L, p.cleared, old(p.disk[..]), old(p.Free()), files, p.disk[..], p.Free(), files, n)
    ensures Inode(p, files, n) == old(Inode(p, files, n))
    ensures ok <==> old(Loads(p, files, n) && HasRoom(Data(p, files, n), ISize(Inode(p, files, n)), |Short(name)|))
    ensures ok ==> var s := old(Data(p, files, n)); var size := ISize(Inode(p, files, n)); var t := Data(p, files, n);
                   && t == WithEntry(s, size, child, fileType, Short(name))
                   && Tiled(s, 0, size) && 0 < size && Grafted(s, t, size, LastAt(s, 0, size), child, fileType, Short(name))
                   && (Aligned(Parse(s, 0, size)) ==> AlignedRecords(t, size))
                   && (Ready(s, size) && |Short(name)| % 4 != 0 ==> Ready(t, size))
                   && (Tiled(s, 0, size) && Quiet(s, 0, size) && Ready(s, size) && NoNul(Short(name)) && |Short(name)| % 4 != 0 ==>
                         Tiled(t, 0, size) && Quiet(t, 0, size))
    ensures old(Loads(p, files, n)) ==>
              && Chained(p, files, n)
              && Records(p, files, n) == Added(old(Records(p, files, n)), child, fileType, Short(name))
              && (ok <==> |Records(p, files, n)| > |old(Records(p, files, n))|)
    ensures !ok ==> p.disk[..] == old(p.disk[..])
  {
    hide *;
    LiveFacts(p, files);
    ChainedIs(p, files, n);
    ghost var all, short := Data(p, files, n), Short(name);
    StepNothing(p.L, p.cleared, p.disk[..], p.Free(), files, n);
    var directory, loaded, buffer, size := LoadDirectory(p, n, 0, files);
    if !loaded {
      return false;
    }
    SameChain(buffer[..], all, size);
    ghost var read := buffer[..];
    SameRoom(all, read, size, short);
    RoomIs(read, size, child, fileType, short);
    ok := Dentries.Append(buffer, size, child, fileType, name);
    if !ok {
      return false;
    }
    AppendedIs(read, buffer[..], size, child, fileType, short);
    EntryStored(all, read, size, child, fileType, short);
    var written := StoreDirectory(p, n, buffer[..], size, files);
    StoredChain(all, Data(p, files, n), buffer[..], size);
    ChainedIs(p, files, n);
    EntryReady(all, size, child, fileType, short);
    EntryGrafted(all, size, child, fileType, short);
  }

  lemma EntryGrafted(s: seq<Byte>, size: nat, inode: Word, fileType: Byte, name: seq<Byte>)
    requires HasRoom(s, size, |name|)
    ensures Tiled(s, 0, size) && 0 < size
    ensures var t := WithEntry(s, size, inode, fileType, name);
            && Grafted(s, t, size, LastAt(s, 0, size), inode, fileType, name)
            && (Aligned(Parse(s, 0, size)) ==> AlignedRecords(t, size))
  {
    hide Grafted, Aligned, AlignedRecords, LastAt, Need, RecLen, Added, WithEntry, Tiled, Parse;
    WithEntryGrafted(s, size, inode, fileType, name);
    RoomIs(s, size, inode, fileType, name);
    AddedAligned(Parse(s, 0, size), inode, fileType, name);
    if Aligned(Parse(s, 0, size)) {
      RecordsAligned(WithEntry(s, size, inode, fileType, name), size);
    }
  }

  lemma SameRoom(all: seq<Byte>, buffer: seq<Byte>, size: nat, name: seq<Byte>)
    requires size == |buffer| <= |all| && buffer[..size] == all[..size] && Tiled(all, 0, size)
    ensures buffer == all[..size] && (HasRoom(all, size, |name|) <==> HasRoom(buffer, size, |name|))
  {
    assert buffer == buffer[..size];
    assert forall k :: 0 <= k < size ==> all[k] == all[..size][k];
    RoomFrame(all, buffer, size, |name|);
  }

  lemma AppendedIs(s: seq<Byte>, t: seq<Byte>, size: nat, inode: Word, fileType: Byte, name: seq<Byte>)
    requires HasRoom(s, size, |name|) && t == Appended(s, LastAt(s, 0, size), inode, fileType, name)
    ensures t == WithEntry(s, size, inode, fileType, name)
  {
  }

  /** What a new entry keeps of a directory in which names are looked up. */
  lemma EntryReady(s: seq<Byte>, size: nat, inode: Word, fileType: Byte, name: seq<Byte>)
    requires HasRoom(s, size, |name|) && |name| < 0x100
    ensures var t := WithEntry(s, size, inode, fileType, name);
            && (Ready(s, size) && |name| % 4 != 0 ==> Ready(t, size))
            && (Ready(s, size) && Tiled(s, 0, size) && Quiet(s, 0, size) && NoNul(name) && |name| % 4 != 0 ==>
                  Tiled(t, 0, size) && Quiet(t, 0, size))
  {
    hide Tiled, LastAt, Need, HalfAt, Appended, NoNul, Quiet, ZeroSlack;
    if Ready(s, size) && |name| % 4 != 0 {
      var o := LastAt(s, 0, size);
      AppendedAtLast(s, size, inode, fileType, name);
      AppendedReady(s, Appended(s, o, inode, fileType, name), size, o, o + Need(s[o + LEN_OFFSET]), inode, fileType, name);
      if NoNul(name) && Quiet(s, 0, size) {
        AppendedQuiet(s, size, inode, fileType, name);
      }
    }
  }

  /**
   ext2_delete_dentry once the paths are resolved. The chain survives exactly when the entry is not the first one,
   and its list is then as it should be exactly when the removal is safe.
   */
  method DeleteDentry(p: Partition, n: nat, target: Word, ghost files: map<nat, seq<Tree>>) returns (ok: bool)
    requires Live(p, files) && n in files && p.L.blockSize > 0
    requires Loads(p, files, n) ==> Chained(p, files, n) && ISize(Inode(p, files, n)) < 0x1_0000
    modifies p.disk
    ensures Live(p, files) && p.Free() == old(p.Free())
    ensures Step(p.L, p.cleared, old(p.disk[..]), old(p.Free()), files, p.disk[..], p.Free(), files, n)
    ensures Inode(p, files, n) == old(Inode(p, files, n)) && (ok ==> old(Loads(p, files, n)))
    ensures old(Loads(p, files, n)) ==>
              var es := old(Records(p, files, n)); var i := Index(es, target);
              && (ok <==> i < |es|)
              && (ok ==> (Chained(p, files, n) <==> i > 0))
              && (ok && i > 0 ==> (SafeToRemove(es, i) <==> Records(p, files, n) == Removed(es, target)))
    ensures ok ==> var s := old(Data(p, files, n)); var size := ISize(Inode(p, files, n));
                   && size <= |s| && size <= |Data(p, files, n)| && Data(p, files, n)[size..] == s[size..]
                   && (Tiled(s, 0, size) && Quiet(s, 0, size) && Index(Parse(s, 0, size), target) > 0 ==>
                         Tiled(Data(p, files, n), 0, size) && Quiet(Data(p, files, n), 0, size)
                         && Parse(Data(p, files, n), 0, size) == Removed(Parse(s, 0, size), target))
    ensures ok ==> LooksUpDeleted(old(Data(p, files, n)), Data(p, files, n), ISize(Inode(p, files, n)), target)
    ensures !ok ==> p.disk[..] == old(p.disk[..]) && Data(p, files, n) == old(Data(p, files, n))
  {
    hide *;
    LiveFacts(p, files);
    ChainedIs(p, files, n);
    ghost var all := Data(p, files, n);
    StepNothing(p.L, p.cleared, p.disk[..], p.Free(), files, n);
    var directory, loaded, buffer, size := LoadDirectory(p, n, p.L.blockSize, files);
    if !loaded {
      return false;
    }
    SameChain(buffer[..], all, size);
    ghost var read, prev: nat, at: nat := buffer[..], 0, 0;
    ok, prev, at := Remove(buffer, size, target);
    if !ok {
      return false;
    }
    QuietSafe(all, size, target);
    if at > 0 {
      ErasedQuiet(all, read, buffer[..], size, prev, at);
    }
    var written := StoreDirectory(p, n, buffer[..], size, files);
    StoredChain(all, Data(p, files, n), buffer[..], size);
    ChainedIs(p, files, n);
    StoredQuiet(all, Data(p, files, n), buffer[..], size);
    DeletedStored(all, read, buffer[..], Data(p, files, n), size, target, prev, at);
    DeletedFind(all, Data(p, files, n), size, target);
  }

  /** A quiet directory stays quiet in the buffer when a later record is erased there. */
  lemma ErasedQuiet(all: seq<Byte>, read: seq<Byte>, buffer: seq<Byte>, size: nat, prev: nat, at: nat)
    requires size <= |read| && size <= |all| && read[..size] == all[..size] && Tiled(all, 0, size) && Middle(read, size, prev, at)
    requires at + HEADER < |read| && prev + HEADER <= |read| && (prev == at || RecLen(read, prev) + RecLen(read, at) < 0x1_0000)
    requires buffer == Erased(read, prev, at)
    ensures Tiled(read, 0, size) && Tiled(buffer, 0, size) && (Quiet(all, 0, size) ==> Quiet(buffer, 0, size))
  {
    hide Erased, RecLen, Quiet, Tiled, Middle;
    SameChain(all, read, size);
    MiddleFacts(read, size, prev, at);
    ErasedParse(read, size, prev, at);
    if Quiet(all, 0, size) {
      assert forall k :: 0 <= k < size ==> all[k] == all[..size][k] && read[k] == read[..size][k];
      QuietFrame(all, read, 0, size);
      QuietErased(read, size, prev, at);
    }
  }

  lemma SplicedLength(all: seq<Byte>, bytes: seq<Byte>, size: nat)
    requires size <= |bytes| && size <= |all|
    ensures |Splice(all, 0, bytes[..size])| == |all|
  {
  }

  lemma StoredQuiet(all: seq<Byte>, data: seq<Byte>, bytes: seq<Byte>, size: nat)
    requires size <= |bytes| && size <= |all| && data == Splice(all, 0, bytes[..size])
    ensures Tiled(bytes, 0, size) && Quiet(bytes, 0, size) ==> Tiled(data, 0, size) && Quiet(data, 0, size)
  {
    hide Quiet, Tiled, Splice;
    SplicedPrefix(all, bytes, size);
    SplicedLength(all, bytes, size);
    if Tiled(bytes, 0, size) && Quiet(bytes, 0, size) {
      assert forall k :: 0 <= k < size ==> data[k] == data[..size][k] && bytes[k] == bytes[..size][k];
      QuietFrame(bytes, data, 0, size);
    }
  }

  /** ext2_get_all_dirs once the path is resolved. */
  method GetAllDirs(p: Partition, n: nat, ghost files: map<nat, seq<Tree>>) returns (entries: array<Dirent>)
    requires Live(p, files) && n in files && (Loads(p, files, n) ==> Chained(p, files, n))
    ensures fresh(entries)
    ensures entries[..] == if Loads(p, files, n) then InUse(Records(p, files, n)) else []
  {
    hide *;
    LiveFacts(p, files);
    ChainedIs(p, files, n);
    var directory, loaded, buffer, size := LoadDirectory(p, n, p.L.blockSize, files);
    if !loaded {
      entries := new Dirent[0];
      return;
    }
    SameChain(Data(p, files, n), buffer[..], size);
    entries := AllEntries(buffer, size);
  }

  // ----- A fresh directory -----

  /**
   The chain written at creation always covers 1024 bytes, whatever the size of the directory: more bytes must be
   tiled already.
   */
  lemma InitialTiled(all: seq<Byte>, size: nat, inode: Word, parent: Word)
    requires DIRECTORY_BYTES <= size <= |all|
    ensures Tiled(Initial(all, inode, parent), 0, size) <==> Tiled(all, DIRECTORY_BYTES, size)
    ensures size == DIRECTORY_BYTES ==> Parse(Initial(all, inode, parent), 0, size) == [Dot(inode), DotDot(parent)]
  {
    hide *;
    InitialChain(all, inode, parent);
    InitialRest(all, inode, parent);
    var t := Initial(all, inode, parent);
    NothingTiled(all, DIRECTORY_BYTES);
    ChainSplit(t, 0, DIRECTORY_BYTES, size);
    if Tiled(t, DIRECTORY_BYTES, size) {
      ChainFrame(t, all, DIRECTORY_BYTES, size);
      ChainJoin(t, 0, DIRECTORY_BYTES, size);
    }
    if Tiled(all, DIRECTORY_BYTES, size) {
      ChainFrame(all, t, DIRECTORY_BYTES, size);
      ChainJoin(t, 0, DIRECTORY_BYTES, size);
    }
  }

  lemma InitialRest(all: seq<Byte>, inode: Word, parent: Word)
    requires DIRECTORY_BYTES <= |all|
    ensures forall k :: DIRECTORY_BYTES <= k < |all| ==> Initial(all, inode, parent)[k] == all[k]
  {
  }

  lemma {:induction false} ChainSplit(s: seq<Byte>, a: nat, b: nat, c: nat)
    requires Tiled(s, a, b) && b <= c
    ensures Tiled(s, a, c) ==> Tiled(s, b, c)
    decreases b - a
  {
    if a < b {
      ChainSplit(s, a + RecLen(s, a), b, c);
    }
  }

  /** Behind 1024 bytes of zeroes would have to be tiled: only a directory of exactly 1024 bytes gets a chain. */
  lemma HardCodedSize(all: seq<Byte>, size: nat, inode: Word, parent: Word)
    requires DIRECTORY_BYTES <= size <= |all| && forall k :: DIRECTORY_BYTES <= k < size ==> all[k] == 0
    ensures Tiled(Initial(all, inode, parent), 0, size) <==> size == DIRECTORY_BYTES
  {
    InitialTiled(all, size, inode, parent);
  }

  lemma CopiedPrefix(zero: seq<Byte>, all: seq<Byte>, size: nat)
    requires size <= |zero| && size <= |all|
    ensures |Splice(zero, 0, all[..size])| == |zero|
    ensures forall k :: 0 <= k < size ==> Splice(zero, 0, all[..size])[k] == all[k]
  {
  }

  lemma SameTiled(s: seq<Byte>, t: seq<Byte>, a: nat, b: nat)
    requires b <= |s| && b <= |t| && forall k :: 0 <= k < b ==> s[k] == t[k]
    ensures Tiled(s, a, b) <==> Tiled(t, a, b)
  {
    if Tiled(s, a, b) {
      ChainFrame(s, t, a, b);
    }
    if Tiled(t, a, b) {
      ChainFrame(t, s, a, b);
    }
  }

  /** ext2_initialize_directory, for a directory that fits in its one-block buffer. */
  method InitializeDirectory(p: Partition, n: Word, parent: Word, ghost files: map<nat, seq<Tree>>)
    requires Live(p, files) && n in files && Loads(p, files, n) && ISize(Inode(p, files, n)) <= p.L.blockSize
    requires DIRECTORY_BYTES <= p.L.blockSize
    modifies p.disk
    ensures Live(p, files) && p.Free() == old(p.Free())
    ensures Step(p.L, p.cleared, old(p.disk[..]), old(p.Free()), files, p.disk[..], p.Free(), files, n)
    ensures Inode(p, files, n) == old(Inode(p, files, n))
    ensures var size := ISize(Inode(p, files, n));
            DIRECTORY_BYTES <= size ==>
              && (Chained(p, files, n) <==> Tiled(old(Data(p, files, n)), DIRECTORY_BYTES, size))
              && (size == DIRECTORY_BYTES ==> Chained(p, files, n) && Records(p, files, n) == [Dot(n), DotDot(parent)])
              && size <= |old(Data(p, files, n))| && Data(p, files, n) == Initial(old(Data(p, files, n)), n, parent)
  {
    hide *;
    LiveFacts(p, files);
    ghost var all := Data(p, files, n);
    var directory, loaded, buffer, size := LoadDirectory(p, n, 0, files);
    var block := new Byte[p.L.blockSize](_ => 0);
    ghost var zero := block[..];
    Reading.CopyIn(block, 0, buffer[..size]);
    ghost var copied := block[..];
    CopiedPrefix(zero, all, size);
    InitializeRecords(block, n, parent);
    var written := StoreDirectory(p, n, block[..], size, files);
    StoredChain(all, Data(p, files, n), block[..], size);
    ChainedIs(p, files, n);
    if DIRECTORY_BYTES <= size {
      InitialTiled(copied, size, n, parent);
      SameTiled(copied, all, DIRECTORY_BYTES, size);
      NothingTiled(all, DIRECTORY_BYTES);
      InitialStored(all, copied, size, n, parent);
    }
  }

  /** Writing the two records over a copy of the directory's bytes and the copy back writes them over the directory. */
  lemma InitialStored(all: seq<Byte>, copied: seq<Byte>, size: nat, inode: Word, parent: Word)
    requires DIRECTORY_BYTES <= size <= |copied| && size <= |all| && forall k :: 0 <= k < size ==> copied[k] == all[k]
    ensures Initial(all, inode, parent) == Splice(all, 0, Initial(copied, inode, parent)[..size])
  {
    hide EntryBytes;
  }
}
