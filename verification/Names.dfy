/** Creating entries and looking them up again. */
module Names {
  import opened Codec
  import opened Chains
  import opened Dentries
  import opened Lookups
  import opened Removal

  /** Everything behind the last name is zero. */
  predicate ZeroSlack(s: seq<Byte>, size: nat)
    requires Tiled(s, 0, size) && 0 < size
  {
    var o := LastAt(s, 0, size);
    forall k :: o + HEADER + s[o + LEN_OFFSET] <= k < size ==> s[k] == 0
  }

  lemma {:induction false} QuietFrame(s: seq<Byte>, t: seq<Byte>, a: nat, b: nat)
    requires Tiled(s, a, b) && Quiet(s, a, b) && b <= |t| && forall k :: a <= k < b ==> s[k] == t[k]
    ensures Tiled(t, a, b) && Quiet(t, a, b)
    decreases b - a
  {
    hide At, HalfAt, NoNul;
    ChainFrame(s, t, a, b);
    if a < b {
      EntryFrame(s, t, a, b);
      EntryFacts(s, a, b);
      QuietFrame(s, t, a + RecLen(s, a), b);
    }
  }

  lemma {:induction false} QuietJoin(s: seq<Byte>, a: nat, b: nat, c: nat)
    requires Tiled(s, a, b) && Tiled(s, b, c) && Quiet(s, a, b) && Quiet(s, b, c)
    ensures Tiled(s, a, c) && Quiet(s, a, c)
    decreases b - a
  {
    hide At, HalfAt, NoNul;
    ChainJoin(s, a, b, c);
    if a < b {
      QuietJoin(s, a + RecLen(s, a), b, c);
    }
  }

  lemma {:induction false} QuietPrefix(s: seq<Byte>, a: nat, b: nat)
    requires Tiled(s, a, b) && a < b && Quiet(s, a, b)
    ensures Tiled(s, a, LastAt(s, a, b)) && Quiet(s, a, LastAt(s, a, b)) && NoNul(At(s, LastAt(s, a, b)).name)
    decreases b - a
  {
    hide At, HalfAt, NoNul;
    LastIs(s, a, b);
    if a + RecLen(s, a) < b {
      QuietPrefix(s, a + RecLen(s, a), b);
    }
  }

  lemma QuietOne(s: seq<Byte>, a: nat, b: nat)
    requires Fits(s, a, b) && NoNul(At(s, a).name)
    requires HEADER + |At(s, a).name| < RecLen(s, a) && s[a + HEADER + |At(s, a).name|] == 0
    requires Tiled(s, a + RecLen(s, a), b) && Quiet(s, a + RecLen(s, a), b)
    ensures Tiled(s, a, b) && Quiet(s, a, b)
  {
  }

  /** The bytes of the two records that appending leaves at the end. */
  lemma AppendedTail(s: seq<Byte>, o: nat, end: nat, inode: Word, fileType: Byte, name: seq<Byte>)
    requires |name| < 0x100 && Fits(s, o, end) && o + RecLen(s, o) == end
    requires Need(s[o + LEN_OFFSET]) + Need(|name|) <= RecLen(s, o)
    ensures var t, n := Appended(s, o, inode, fileType, name), o + Need(s[o + LEN_OFFSET]);
            && Fits(t, o, end) && RecLen(t, o) == n - o && At(t, o).name == At(s, o).name
            && Fits(t, n, end) && n + RecLen(t, n) == end && At(t, n) == Dirent(inode, end - n, fileType, name)
            && (forall k :: o + HEADER <= k < n ==> t[k] == s[k])
            && (forall k :: n + HEADER + |name| <= k < end ==> t[k] == s[k])
            && t[n] == inode % 0x100
            && (forall k :: 0 <= k < o + REC_OFFSET ==> t[k] == s[k]) && At(t, o).inode == At(s, o).inode
  {
    hide At, HalfAt;
    var need := Need(s[o + LEN_OFFSET]);
    var e := Dirent(inode, RecLen(s, o) - need, fileType, name);
    var m := Splice(s, o + REC_OFFSET, HalfBytes(need));
    var t, n := Appended(s, o, inode, fileType, name), o + need;
    RecLenStored(s, o, end, need);
    EntryFrame(m, t, o, n);
    EntryRoundTrip(m, n, e);
    EntryNamed(t, n, e);
    EntryNamed(t, o, At(t, o));
    assert EntryBytes(e)[0] == inode % 0x100;
    assert need >= HEADER + s[o + LEN_OFFSET] && Need(|name|) >= HEADER + |name|;
  }

  /**
   Creating an entry in a quiet directory with zeroed slack keeps it so, when neither name's length is a multiple of
   4.
   */
  lemma AppendedQuiet(s: seq<Byte>, size: nat, inode: Word, fileType: Byte, name: seq<Byte>)
    requires Tiled(s, 0, size) && 0 < size && Quiet(s, 0, size) && ZeroSlack(s, size) && NoNul(name) && |name| < 0x100
    requires s[LastAt(s, 0, size) + LEN_OFFSET] % 4 != 0 && |name| % 4 != 0
    requires Need(s[LastAt(s, 0, size) + LEN_OFFSET]) + Need(|name|) <= RecLen(s, LastAt(s, 0, size))
    ensures var t := Appended(s, LastAt(s, 0, size), inode, fileType, name);
            && Tiled(t, 0, size) && Quiet(t, 0, size) && ZeroSlack(t, size)
            && t[LastAt(t, 0, size) + LEN_OFFSET] == |name|
  {
    hide At, HalfAt, Need, Appended, Quiet, Parse, Tiled;
    LastIs(s, 0, size);
    var o := LastAt(s, 0, size);
    var t, n := Appended(s, o, inode, fileType, name), o + Need(s[o + LEN_OFFSET]);
    TiledOrder(s, 0, size);
    QuietPrefix(s, 0, size);
    EntryFacts(s, o, size);
    NeedRoom(s[o + LEN_OFFSET]);
    NeedRoom(|name|);
    AppendedTail(s, o, size, inode, fileType, name);
    AppendedPair(s, o, size, inode, fileType, name);
    EntryFacts(t, n, size);
    EntryFacts(t, o, size);
    NothingQuiet(t, size);
    QuietOne(t, n, size);
    QuietOne(t, o, size);
    QuietFrame(s, t, 0, o);
    QuietJoin(t, 0, o, size);
    LastOfTwo(t, 0, o, n, size);
  }

  lemma NothingQuiet(t: seq<Byte>, size: nat)
    requires size <= |t|
    ensures Tiled(t, size, size) && Quiet(t, size, size)
  {
  }

  lemma {:induction false} LastOfTwo(t: seq<Byte>, a: nat, o: nat, n: nat, end: nat)
    requires Tiled(t, a, o) && Fits(t, o, end) && o + RecLen(t, o) == n && Fits(t, n, end) && n + RecLen(t, n) == end
    ensures Tiled(t, a, end) && LastAt(t, a, end) == n
    decreases o - a
  {
    hide HalfAt;
    if a < o {
      LastOfTwo(t, a + RecLen(t, a), o, n, end);
    } else {
      assert Tiled(t, end, end);
    }
  }

  // ----- Lookups after a creation -----

  /**
   A directory to which a name can be added without changing what the other names stand for: the last name has its NUL,
   everything behind it is zero, and every earlier comparison ends before the last record's length field.
   */
  ghost predicate Ready(s: seq<Byte>, size: nat) {
    && Tiled(s, 0, size) && 0 < size && ZeroSlack(s, size)
    && var o := LastAt(s, 0, size);
       && s[o + LEN_OFFSET] % 4 != 0
       && (LastIs(s, 0, size); 0 < o ==> NulWithin(s, LastAt(s, 0, o) + HEADER, o + REC_OFFSET))
  }

  lemma ReadyFacts(s: seq<Byte>, size: nat)
    requires Ready(s, size)
    ensures Tiled(s, 0, size) && 0 < size && ZeroSlack(s, size)
    ensures LastAt(s, 0, size) + HEADER <= |s|
    ensures var o := LastAt(s, 0, size);
            && o + HEADER + s[o + LEN_OFFSET] < o + Need(s[o + LEN_OFFSET]) <= size <= |s|
            && s[o + HEADER + s[o + LEN_OFFSET]] == 0 && Tiled(s, 0, o)
            && (0 < o ==> NulWithin(s, LastAt(s, 0, o) + HEADER, o + REC_OFFSET))
  {
    hide HalfAt, Tiled;
    LastIs(s, 0, size);
    NeedRoom(s[LastAt(s, 0, size) + LEN_OFFSET]);
  }

  /** A ready directory is anchored. */
  lemma ReadyAnchored(s: seq<Byte>, size: nat)
    requires Ready(s, size)
    ensures Tiled(s, 0, size) && Anchored(s, size)
  {
    hide Tiled, ZeroSlack, Need, RecLen, LastAt;
    ReadyFacts(s, size);
    assert s[LastAt(s, 0, size) + HEADER + s[LastAt(s, 0, size) + LEN_OFFSET]] == 0;
  }

  /** A quiet directory with zeroed slack is ready when its last name leaves room for its NUL. */
  lemma QuietReady(s: seq<Byte>, size: nat)
    requires Tiled(s, 0, size) && 0 < size && Quiet(s, 0, size) && ZeroSlack(s, size)
    requires s[LastAt(s, 0, size) + LEN_OFFSET] % 4 != 0
    ensures Ready(s, size)
  {
    hide Quiet, ZeroSlack, HalfAt, Tiled;
    QuietPrefix(s, 0, size);
    if 0 < LastAt(s, 0, size) {
      QuietAnchored(s, 0, LastAt(s, 0, size));
    }
  }

  /** t is s with a record appended at offset n, behind the last one, which is at offset o. */
  ghost predicate AppendedAt(s: seq<Byte>, t: seq<Byte>, size: nat, o: nat, n: nat, inode: Word, fileType: Byte,
                             name: seq<Byte>) {
    && Tiled(s, 0, size) && 0 < size && Tiled(s, 0, o) && o == LastAt(s, 0, size) && |name| < 0x100
    && n == o + Need(s[o + LEN_OFFSET]) && n + Need(|name|) <= size
    && t == Appended(s, o, inode, fileType, name)
  }

  lemma AppendedAtLast(s: seq<Byte>, size: nat, inode: Word, fileType: Byte, name: seq<Byte>)
    requires Tiled(s, 0, size) && 0 < size && |name| < 0x100
    requires Need(s[LastAt(s, 0, size) + LEN_OFFSET]) + Need(|name|) <= RecLen(s, LastAt(s, 0, size))
    ensures var o := LastAt(s, 0, size);
            AppendedAt(s, Appended(s, o, inode, fileType, name), size, o, o + Need(s[o + LEN_OFFSET]), inode, fileType, name)
  {
    hide HalfAt, Need, Appended;
    LastIs(s, 0, size);
  }

  /** The two last records, before and after. */
  lemma AppendedAtFacts(s: seq<Byte>, t: seq<Byte>, size: nat, o: nat, n: nat, inode: Word, fileType: Byte,
                        name: seq<Byte>)
    requires AppendedAt(s, t, size, o, n, inode, fileType, name)
    ensures Tiled(s, 0, size) && 0 < size && Tiled(s, 0, o) && o == LastAt(s, 0, size) && size <= |s| == |t|
    ensures o + HEADER <= size && Fits(s, o, size) && o + RecLen(s, o) == size && n == o + Need(s[o + LEN_OFFSET])
    ensures Fits(t, o, size) && RecLen(t, o) == n - o && Fits(t, n, size) && n + RecLen(t, n) == size
    ensures At(t, n) == Dirent(inode, size - n, fileType, name) && At(t, o).inode == At(s, o).inode && At(t, o).name == At(s, o).name
    ensures forall k :: 0 <= k < o + REC_OFFSET || o + HEADER <= k < n || n + HEADER + |name| <= k < size ==> t[k] == s[k]
    ensures t[n] == inode % 0x100
  {
    hide HalfAt, Tiled, Need, Appended;
    LastIs(s, 0, size);
    NeedRoom(|name|);
    AppendedTail(s, o, size, inode, fileType, name);
    EntryFacts(t, n, size);
    EntryFacts(t, o, size);
  }

  /** What a lookup compares against, before and after a record is appended behind the last one. */
  lemma AppendedFind(s: seq<Byte>, t: seq<Byte>, size: nat, o: nat, n: nat, inode: Word, fileType: Byte,
                     name: seq<Byte>,
                     q: seq<Byte>)
    requires AppendedAt(s, t, size, o, n, inode, fileType, name) && NoNul(q) && o + HEADER <= |s|
    requires 0 < o ==> Tiled(s, 0, o) && NulWithin(s, LastAt(s, 0, o) + HEADER, o + REC_OFFSET)
    ensures Tiled(s, 0, size) && Tiled(s, 0, o) && Tiled(t, 0, size)
    ensures Find(s, 0, size, q) == if Found(s, 0, o, q) then Find(s, 0, o, q)
                                   else if NameIs(s, o + HEADER, q) then WordAt(s, o) else 0
    ensures Find(t, 0, size, q) == if Found(s, 0, o, q) then Find(s, 0, o, q)
                                   else if NameIs(t, o + HEADER, q) then WordAt(s, o)
                                   else if NameIs(t, n + HEADER, q) then inode else 0
    ensures Found(s, 0, size, q) <==> Found(s, 0, o, q) || NameIs(s, o + HEADER, q)
    ensures Found(t, 0, size, q) <==> Found(s, 0, o, q) || NameIs(t, o + HEADER, q) || NameIs(t, n + HEADER, q)
  {
    hide *;
    AppendedAtFacts(s, t, size, o, n, inode, fileType, name);
    EntryFacts(s, o, size);
    HeaderInside(s, o);
    if o == 0 {
      FindNone(s, t, q);
    } else {
      FindFrame(s, t, 0, o, o + REC_OFFSET, q);
    }
    FindOne(s, o, size, q);
    FindOne(t, n, size, q);
    FindTwo(t, o, n, size, q);
    FindJoin(s, 0, o, size, q);
    FindJoin(t, 0, o, size, q);
  }

  lemma HeaderInside(s: seq<Byte>, o: nat)
    requires o + HEADER <= |s|
    ensures o + REC_OFFSET <= o + LEN_OFFSET < |s|
  {
  }

  lemma FindNone(s: seq<Byte>, t: seq<Byte>, q: seq<Byte>)
    ensures Tiled(s, 0, 0) && Tiled(t, 0, 0) && !Found(s, 0, 0, q) && !Found(t, 0, 0, q) && Find(s, 0, 0, q) == 0 == Find(t, 0, 0, q)
  {
  }

  lemma FindOne(s: seq<Byte>, o: nat, end: nat, q: seq<Byte>)
    requires Fits(s, o, end) && o + RecLen(s, o) == end
    ensures Tiled(s, o, end) && At(s, o).inode == WordAt(s, o)
    ensures Find(s, o, end, q) == if NameIs(s, o + HEADER, q) then WordAt(s, o) else 0
    ensures Found(s, o, end, q) <==> NameIs(s, o + HEADER, q)
  {
    hide HalfAt, WordAt, NameIs;
    NothingTiled(s, end);
    assert Find(s, end, end, q) == 0;
  }

  lemma FindTwo(t: seq<Byte>, o: nat, n: nat, end: nat, q: seq<Byte>)
    requires Fits(t, o, end) && o + RecLen(t, o) == n && Tiled(t, n, end)
    ensures Tiled(t, o, end) && At(t, o).inode == WordAt(t, o)
    ensures Find(t, o, end, q) == if NameIs(t, o + HEADER, q) then WordAt(t, o) else Find(t, n, end, q)
    ensures Found(t, o, end, q) <==> NameIs(t, o + HEADER, q) || Found(t, n, end, q)
  {
    hide HalfAt, WordAt, NameIs;
  }

  /** The new record's name is found as itself, and the last name before it as before. */
  lemma AppendedNames(s: seq<Byte>, t: seq<Byte>, size: nat, o: nat, n: nat, inode: Word, fileType: Byte,
                      name: seq<Byte>,
                      q: seq<Byte>)
    requires AppendedAt(s, t, size, o, n, inode, fileType, name)
    requires Ready(s, size) && NoNul(name) && |name| % 4 != 0 && NoNul(q)
    ensures NameIs(t, o + HEADER, q) <==> NameIs(s, o + HEADER, q)
    ensures NameIs(t, n + HEADER, q) <==> q == name
  {
    hide HalfAt, Appended, NameIs, Tiled, Need, NoNul, LastAt, At, Ready, AppendedAt;
    ReadyFacts(s, size);
    NeedRoom(|name|);
    AppendedAtFacts(s, t, size, o, n, inode, fileType, name);
    StoredName(t, n, size, Dirent(inode, size - n, fileType, name));
    NameExact(t, n + HEADER, name, q);
    assert s[o + HEADER + s[o + LEN_OFFSET]] == 0;
    NameFrame(s, t, o + HEADER, n, q);
  }

  lemma StoredName(t: seq<Byte>, n: nat, end: nat, e: Dirent)
    requires Fits(t, n, end) && At(t, n) == e
    ensures Need(|e.name|) <= RecLen(t, n) && n + HEADER + |e.name| <= |t| && t[n + HEADER..n + HEADER + |e.name|] == e.name
    ensures t[n + LEN_OFFSET] == |e.name|
  {
    hide HalfAt;
    EntryFacts(t, n, end);
  }

  /**
   After a creation in a ready directory, looking up the new name gives its inode unless an entry of that name was there
   before, and every other lookup gives what it gave before; the directory is ready for the next creation.
   */
  lemma LookupAfterCreate(s: seq<Byte>, size: nat, inode: Word, fileType: Byte, name: seq<Byte>, q: seq<Byte>)
    requires Ready(s, size) && NoNul(name) && |name| < 0x100 && |name| % 4 != 0 && NoNul(q)
    requires Need(s[LastAt(s, 0, size) + LEN_OFFSET]) + Need(|name|) <= RecLen(s, LastAt(s, 0, size))
    ensures var t := Appended(s, LastAt(s, 0, size), inode, fileType, name);
            && Ready(t, size)
            && Find(t, 0, size, q) == (if q == name && !Found(s, 0, size, q) then inode else Find(s, 0, size, q))
            && (Found(t, 0, size, q) <==> q == name || Found(s, 0, size, q))
  {
    hide *;
    ReadyFacts(s, size);
    AppendedAtLast(s, size, inode, fileType, name);
    var o := LastAt(s, 0, size);
    HeaderInside(s, o);
    var t, n := Appended(s, o, inode, fileType, name), o + Need(s[o + LEN_OFFSET]);
    AppendedReady(s, t, size, o, n, inode, fileType, name);
    ReadyFacts(t, size);
    AppendedFind(s, t, size, o, n, inode, fileType, name, q);
    AppendedNames(s, t, size, o, n, inode, fileType, name, q);
  }

  lemma AppendedReady(s: seq<Byte>, t: seq<Byte>, size: nat, o: nat, n: nat, inode: Word, fileType: Byte,
                      name: seq<Byte>)
    requires AppendedAt(s, t, size, o, n, inode, fileType, name) && Ready(s, size) && |name| % 4 != 0
    ensures Ready(t, size)
  {
    hide HalfAt, Appended, Tiled, Need, LastAt, At, AppendedAt, ZeroSlack, Fits;
    ReadyFacts(s, size);
    NeedRoom(|name|);
    AppendedAtFacts(s, t, size, o, n, inode, fileType, name);
    NeedRoom(s[o + LEN_OFFSET]);
    StoredName(t, n, size, Dirent(inode, size - n, fileType, name));
    ChainFrame(s, t, 0, o);
    FitsLess(t, o, n, size);
    LastOfTwo(t, 0, o, n, size);
    LastOfOne(t, 0, o, n);
    assert t[o + HEADER + s[o + LEN_OFFSET]] == 0;
    SlackKept(s, t, size, o, n, |name|);
  }

  lemma FitsLess(t: seq<Byte>, o: nat, n: nat, end: nat)
    requires Fits(t, o, end) && o + RecLen(t, o) == n
    ensures Fits(t, o, n)
  {
  }

  lemma SlackKept(s: seq<Byte>, t: seq<Byte>, size: nat, o: nat, n: nat, length: nat)
    requires Tiled(s, 0, size) && 0 < size && ZeroSlack(s, size) && o == LastAt(s, 0, size)
    requires Tiled(t, 0, size) && LastAt(t, 0, size) == n && t[n + LEN_OFFSET] == length && |s| == |t|
    requires o + HEADER + s[o + LEN_OFFSET] <= n && forall k :: n + HEADER + length <= k < size ==> t[k] == s[k]
    ensures ZeroSlack(t, size)
  {
    hide HalfAt, Tiled, Need;
  }

  // ----- Removals -----

  lemma {:induction false} QuietSuffix(s: seq<Byte>, a: nat, o: nat, b: nat)
    requires Tiled(s, a, b) && Quiet(s, a, b) && Tiled(s, a, o) && Tiled(s, o, b)
    ensures Quiet(s, o, b)
    decreases o - a
  {
    hide At, HalfAt, NoNul;
    if a < o {
      QuietSuffix(s, a + RecLen(s, a), o, b);
    }
  }

  lemma {:induction false} QuietFront(s: seq<Byte>, a: nat, o: nat, b: nat)
    requires Tiled(s, a, b) && Quiet(s, a, b) && Tiled(s, a, o) && o <= b
    ensures Quiet(s, a, o)
    decreases o - a
  {
    hide At, HalfAt, NoNul;
    if a < o {
      QuietFront(s, a + RecLen(s, a), o, b);
    }
  }

  /** Bytes that are the same from the first name on make the same lookups. */
  lemma {:induction false} FindSame(s: seq<Byte>, t: seq<Byte>, a: nat, b: nat, q: seq<Byte>)
    requires Tiled(s, a, b) && |t| == |s| && forall k :: a <= k < |s| ==> s[k] == t[k]
    ensures Tiled(t, a, b) && Find(t, a, b, q) == Find(s, a, b, q) && Found(t, a, b, q) == Found(s, a, b, q)
    decreases b - a
  {
    hide At, HalfAt, NameIs;
    TiledOrder(s, a, b);
    ChainFrame(s, t, a, b);
    if a < b {
      EntryFrame(s, t, a, b);
      SameName(s, t, a + HEADER, q);
      FindSame(s, t, a + RecLen(s, a), b, q);
    }
  }

  lemma SameName(s: seq<Byte>, t: seq<Byte>, o: nat, q: seq<Byte>)
    requires |t| == |s| && forall k :: o <= k < |s| ==> s[k] == t[k]
    ensures NameIs(t, o, q) <==> NameIs(s, o, q)
  {
    if o + |q| < |s| {
      assert s[o..o + |q|] == t[o..o + |q|];
    }
  }

  /** The records behind the removed one: only the low byte of the first inode number can be lost. */
  lemma ErasedBehind(s: seq<Byte>, t: seq<Byte>, size: nat, limit: nat, prev: nat, o: nat, q: seq<Byte>)
    requires Between(s, size, prev, o) && Cleared(s, t, limit, prev, o) && size <= limit
    ensures var n := o + RecLen(s, o);
            && n <= size <= |s| && Tiled(s, n, size) && Tiled(t, n, size)
            && (Found(t, n, size, q) <==> Found(s, n, size, q))
            && Find(t, n, size, q) == (if n == o + HEADER < size && NameIs(s, n + HEADER, q) then WordAt(s, n) - s[n] as int
                                       else Find(s, n, size, q))
  {
    hide At, HalfAt, WordAt, NameIs, Need;
    var n := o + RecLen(s, o);
    NeedRoom(s[o + LEN_OFFSET]);
    TiledOrder(s, n, size);
    if n == o + HEADER < size {
      var m := n + RecLen(s, n);
      NeedRoom(s[n + LEN_OFFSET]);
      FirstLost(s, t, n, size);
      SameName(s, t, n + HEADER, q);
      FindSame(s, t, m, size, q);
    } else if n < size {
      FindSame(s, t, n, size, q);
    }
  }

  lemma FirstLost(s: seq<Byte>, t: seq<Byte>, n: nat, size: nat)
    requires Fits(s, n, size) && |t| == |s| && t[n] == 0 && forall k :: n < k < |s| ==> t[k] == s[k]
    ensures Fits(t, n, size) && RecLen(t, n) == RecLen(s, n) && WordAt(t, n) == WordAt(s, n) - s[n] as int
  {
  }

  /** The name of the record before the removed one now ends in zeroes where that record began. */
  lemma ErasedName(s: seq<Byte>, t: seq<Byte>, size: nat, limit: nat, prev: nat, o: nat, q: seq<Byte>)
    requires Between(s, size, prev, o) && Cleared(s, t, limit, prev, o) && size <= limit && NoNul(q)
    ensures prev + HEADER <= o < |s|
    ensures NameIs(t, prev + HEADER, q) <==>
            if NulWithin(s, prev + HEADER, o) then NameIs(s, prev + HEADER, q) else q == s[prev + HEADER..o]
  {
    hide HalfAt, WordAt;
    NeedRoom(s[prev + LEN_OFFSET]);
    NeedRoom(s[o + LEN_OFFSET]);
    if NulWithin(s, prev + HEADER, o) {
      NameFrame(s, t, prev + HEADER, o, q);
    } else {
      assert t[prev + HEADER..o] == s[prev + HEADER..o];
      NameExact(t, prev + HEADER, s[prev + HEADER..o], q);
    }
  }

  /** The chain after a later record was cleared: the one before it takes over its bytes. */
  lemma ErasedChain(s: seq<Byte>, t: seq<Byte>, size: nat, limit: nat, prev: nat, o: nat)
    requires Between(s, size, prev, o) && Cleared(s, t, limit, prev, o) && size <= limit
    ensures Tiled(t, 0, prev) && Fits(t, prev, size) && prev + RecLen(t, prev) == o + RecLen(s, o) && WordAt(t, prev) == WordAt(s, prev)
  {
    hide At, Tiled, Parse;
    NeedRoom(s[prev + LEN_OFFSET]);
    NeedRoom(s[o + LEN_OFFSET]);
    ChainFrame(s, t, 0, prev);
  }

  /** The name at `prev` reads as q once the record behind it, at o, is cleared. */
  predicate ReadsAs(s: seq<Byte>, prev: nat, o: nat, q: seq<Byte>)
    requires prev + HEADER <= o <= |s|
  {
    if NulWithin(s, prev + HEADER, o) then NameIs(s, prev + HEADER, q) else q == s[prev + HEADER..o]
  }

  lemma BetweenFacts(s: seq<Byte>, size: nat, prev: nat, o: nat)
    requires Between(s, size, prev, o)
    ensures Tiled(s, 0, size) && Tiled(s, 0, prev) && Tiled(s, prev, size) && Tiled(s, o, size) && Tiled(s, o + RecLen(s, o), size)
    ensures Fits(s, prev, size) && prev + RecLen(s, prev) == o && Fits(s, o, size) && prev + HEADER <= o && o + HEADER <= size <= |s|
    ensures At(s, prev).inode == WordAt(s, prev) && At(s, o).inode == WordAt(s, o)
    ensures prev + HEADER + s[prev + LEN_OFFSET] <= |s| && o + HEADER + s[o + LEN_OFFSET] <= |s|
  {
    hide At, HalfAt, WordAt;
    NeedRoom(s[prev + LEN_OFFSET]);
    NeedRoom(s[o + LEN_OFFSET]);
    ChainOne(s, o, size);
    ChainOne(s, prev, size);
    EntryFacts(s, prev, size);
    EntryFacts(s, o, size);
  }

  /** What the lookup of q compares against while the records at `prev` and o are there. */
  ghost predicate LookedUp(s: seq<Byte>, size: nat, prev: nat, o: nat, q: seq<Byte>)
    requires Between(s, size, prev, o)
  {
    BetweenFacts(s, size, prev, o);
    var n := o + RecLen(s, o);
    && Find(s, 0, size, q) == (if Found(s, 0, prev, q) then Find(s, 0, prev, q)
                               else if NameIs(s, prev + HEADER, q) then WordAt(s, prev)
                               else if NameIs(s, o + HEADER, q) then WordAt(s, o)
                               else Find(s, n, size, q))
    && (Found(s, 0, size, q) <==> Found(s, 0, prev, q) || NameIs(s, prev + HEADER, q) || NameIs(s, o + HEADER, q)
                                  || Found(s, n, size, q))
  }

  /** What it gives once the record at o is gone, in terms of the bytes s from before. */
  ghost predicate LookedUpErased(s: seq<Byte>, t: seq<Byte>, size: nat, prev: nat, o: nat, q: seq<Byte>)
    requires Between(s, size, prev, o) && Tiled(t, 0, size)
  {
    BetweenFacts(s, size, prev, o);
    var n := o + RecLen(s, o);
    && Find(t, 0, size, q) == (if Found(s, 0, prev, q) then Find(s, 0, prev, q)
                               else if ReadsAs(s, prev, o, q) then WordAt(s, prev)
                               else if n == o + HEADER < size && NameIs(s, n + HEADER, q) then WordAt(s, n) - s[n] as int
                               else Find(s, n, size, q))
    && (Found(t, 0, size, q) <==> Found(s, 0, prev, q) || ReadsAs(s, prev, o, q) || Found(s, n, size, q))
  }

  /**
   What a lookup compares against, before and after a later record is removed, whatever the names: the records before
   `prev` answer as before, the name at `prev` now ends where the removed record began, and the records behind the
   removed one answer as before but for one low byte of an inode number.
   */
  lemma ErasedFind(s: seq<Byte>, t: seq<Byte>, size: nat, limit: nat, prev: nat, o: nat, q: seq<Byte>)
    requires Between(s, size, prev, o) && Cleared(s, t, limit, prev, o) && size <= limit && NoNul(q)
    requires 0 < prev ==> NulWithin(s, LastAt(s, 0, prev) + HEADER, prev + REC_OFFSET)
    ensures Tiled(t, 0, size) && LookedUp(s, size, prev, o, q) && LookedUpErased(s, t, size, prev, o, q)
  {
    hide Find, Found, Tiled, NameIs, WordAt, RecLen, At, LastAt, Need, NoNul, NulWithin, Between, Cleared, Fits;
    BetweenFacts(s, size, prev, o);
    var n := o + RecLen(s, o);
    ErasedChain(s, t, size, limit, prev, o);
    ErasedBehind(s, t, size, limit, prev, o, q);
    ErasedName(s, t, size, limit, prev, o, q);
    ClearedFront(s, t, limit, prev, o);
    if prev == 0 {
      FindNone(s, t, q);
    } else {
      HeaderInside(s, prev);
      FindFrame(s, t, 0, prev, prev + REC_OFFSET, q);
    }
    FindTwo(s, prev, o, size, q);
    FindTwo(s, o, n, size, q);
    FindTwo(t, prev, n, size, q);
    FindJoin(s, 0, prev, size, q);
    FindJoin(t, 0, prev, size, q);
  }

  lemma ClearedFront(s: seq<Byte>, t: seq<Byte>, limit: nat, prev: nat, o: nat)
    requires Cleared(s, t, limit, prev, o) && prev + HEADER <= o
    ensures |t| == |s| && prev + HEADER <= |s| && forall k :: 0 <= k < prev + REC_OFFSET && k < |s| ==> s[k] == t[k]
  {
  }

  /**
   A name that fills its record reads as itself once the record behind it is removed, whatever that one's inode number
   was; the lookup of the name gives its inode unless a record before it has the same name.
   */
  lemma RestoredName(s: seq<Byte>, t: seq<Byte>, size: nat, limit: nat, prev: nat, o: nat)
    requires Between(s, size, prev, o) && Cleared(s, t, limit, prev, o) && size <= limit
    requires 0 < prev ==> NulWithin(s, LastAt(s, 0, prev) + HEADER, prev + REC_OFFSET)
    requires prev + HEADER + s[prev + LEN_OFFSET] == o && NoNul(At(s, prev).name)
    ensures Tiled(t, 0, size) && NameIs(t, prev + HEADER, At(s, prev).name) && Found(t, 0, size, At(s, prev).name)
    ensures Find(t, 0, size, At(s, prev).name) ==
            if Found(s, 0, prev, At(s, prev).name) then Find(s, 0, prev, At(s, prev).name) else At(s, prev).inode
    ensures WordAt(s, o) % 0x100 != 0 ==> !NameIs(s, prev + HEADER, At(s, prev).name)
  {
    hide HalfAt, WordAt, Cleared, Between, Find, Found, Tiled, NameIs, LastAt, Need;
    BetweenFacts(s, size, prev, o);
    var q := At(s, prev).name;
    NulFree(s, prev + HEADER, q);
    assert q == s[prev + HEADER..o];
    ErasedFind(s, t, size, limit, prev, o, q);
    ErasedName(s, t, size, limit, prev, o, q);
    LowByte(s, o);
    NotEnded(s, prev + HEADER, q);
  }

  lemma NotEnded(s: seq<Byte>, o: nat, q: seq<Byte>)
    requires o + |q| < |s|
    ensures s[o + |q|] != 0 ==> !NameIs(s, o, q)
  {
  }

  /** What every lookup gives after the first record for an inode was removed from a directory's bytes. */
  ghost predicate LooksUpDeleted(s: seq<Byte>, t: seq<Byte>, size: nat, target: Word) {
    && Deleted(s, t, size, target)
    && var o := FindAt(s, 0, size, target);
       0 < o ==>
         && Tiled(t, 0, size)
         && var prev := LastAt(s, 0, o);
            Between(s, size, prev, o) && Tiled(s, 0, prev) && prev + REC_OFFSET <= |s| &&
            forall q :: NoNul(q) && (0 < prev ==> NulWithin(s, LastAt(s, 0, prev) + HEADER, prev + REC_OFFSET)) ==>
                          LookedUpErased(s, t, size, prev, o, q)
  }

  lemma DeletedFind(s: seq<Byte>, t: seq<Byte>, size: nat, target: Word)
    requires Deleted(s, t, size, target)
    ensures LooksUpDeleted(s, t, size, target)
  {
    hide FindAt, LastAt, Cleared, Between, LookedUpErased, LookedUp, NoNul, NulWithin, Tiled, RecLen;
    var o := FindAt(s, 0, size, target);
    if 0 < o {
      var prev := LastAt(s, 0, o);
      BetweenFacts(s, size, prev, o);
      HeaderInside(s, prev);
      DeletedTiled(s, t, size, prev, o);
      forall q | NoNul(q) && (0 < prev ==> NulWithin(s, LastAt(s, 0, prev) + HEADER, prev + REC_OFFSET))
        ensures LookedUpErased(s, t, size, prev, o, q)
      {
        ErasedFind(s, t, size, size, prev, o, q);
      }
    }
  }

  lemma DeletedTiled(s: seq<Byte>, t: seq<Byte>, size: nat, prev: nat, o: nat)
    requires Between(s, size, prev, o) && Cleared(s, t, size, prev, o)
    ensures Tiled(t, 0, size)
  {
    hide *;
    BetweenFacts(s, size, prev, o);
    ErasedChain(s, t, size, size, prev, o);
    ErasedBehind(s, t, size, size, prev, o, []);
    ChainOne(t, prev, size);
    ChainJoin(t, 0, prev, size);
  }

  /** Removing a later record keeps a directory quiet. */
  lemma QuietErased(s: seq<Byte>, size: nat, prev: nat, o: nat)
    requires Middle(s, size, prev, o) && Tiled(s, 0, size) && Quiet(s, 0, size)
    ensures (MiddleFacts(s, size, prev, o);
             Tiled(Erased(s, prev, o), 0, size) && Quiet(Erased(s, prev, o), 0, size))
  {
    hide At, HalfAt, Erased, NoNul, Need, Tiled, Quiet;
    MiddleFacts(s, size, prev, o);
    var t, n := Erased(s, prev, o), o + RecLen(s, o);
    ErasedBytes(s, prev, o, size);
    ChainOne(s, o, size);
    ChainOne(s, prev, size);
    ChainJoin(s, 0, prev, size);
    QuietFront(s, 0, prev, size);
    QuietSuffix(s, 0, prev, size);
    QuietRecord(s, prev, size);
    QuietRecord(s, o, size);
    QuietFrame(s, t, 0, prev);
    QuietFrame(s, t, n, size);
    EntryFacts(s, prev, size);
    QuietOne(t, prev, size);
    QuietJoin(t, 0, prev, size);
  }

  lemma QuietRecord(s: seq<Byte>, a: nat, b: nat)
    requires Tiled(s, a, b) && a < b && Quiet(s, a, b)
    ensures Fits(s, a, b) && NoNul(At(s, a).name) && HEADER + |At(s, a).name| < RecLen(s, a) && s[a + HEADER + |At(s, a).name|] == 0
    ensures Tiled(s, a + RecLen(s, a), b) && Quiet(s, a + RecLen(s, a), b)
  {
    hide At, HalfAt, NoNul;
  }

  lemma {:induction false} QuietLengths(s: seq<Byte>, a: nat, b: nat)
    requires Tiled(s, a, b) && Quiet(s, a, b)
    ensures forall i :: 0 <= i < |Parse(s, a, b)| ==> HEADER < Parse(s, a, b)[i].recLen
    decreases b - a
  {
    hide HalfAt, NoNul;
    if a < b {
      EntryFacts(s, a, b);
      QuietLengths(s, a + RecLen(s, a), b);
    }
  }

  /** In a quiet directory every removal is safe. */
  lemma QuietSafe(s: seq<Byte>, size: nat, inode: Word)
    requires Tiled(s, 0, size) && Index(Parse(s, 0, size), inode) < |Parse(s, 0, size)|
    ensures Quiet(s, 0, size) ==> SafeToRemove(Parse(s, 0, size), Index(Parse(s, 0, size), inode))
  {
    if Quiet(s, 0, size) {
      QuietLengths(s, 0, size);
    }
  }

  /** The name of record i is no other record's. */
  predicate Unique(es: seq<Dirent>, i: nat)
    requires i < |es|
  {
    forall j :: 0 <= j < |es| && j != i ==> es[j].name != es[i].name
  }

  lemma {:induction false} ByNameConcat(es: seq<Dirent>, fs: seq<Dirent>, q: seq<Byte>)
    ensures ByName(es + fs, q) == if exists i :: 0 <= i < |es| && es[i].name == q then ByName(es, q) else ByName(fs, q)
    decreases |es|
  {
    if es == [] {
      assert es + fs == fs;
    } else {
      ByNameConcat(es[1..], fs, q);
      assert (es + fs)[1..] == es[1..] + fs;
      if es[0].name != q {
        if i :| 0 <= i < |es| && es[i].name == q {
          assert es[1..][i - 1].name == q;
        }
        if i :| 0 <= i < |es[1..]| && es[1..][i].name == q {
          assert es[i + 1].name == q;
        }
      }
    }
  }

  lemma ByNameOne(e: Dirent, q: seq<Byte>)
    ensures ByName([e], q) == (if e.name == q then e.inode else 0) && ByName([], q) == 0
  {
    assert [e][1..] == [];
  }

  /**
   Once a record with a name of its own is removed, that name is not there, and every other name stands for what it
   did.
   */
  lemma ByNameRemoved(es: seq<Dirent>, inode: Word, q: seq<Byte>)
    requires 0 < Index(es, inode) < |es| && Unique(es, Index(es, inode))
    ensures ByName(Removed(es, inode), q) == if q == es[Index(es, inode)].name then 0 else ByName(es, q)
  {
    hide ByName, Index;
    var i := Index(es, inode);
    var a, b, c := es[..i - 1], es[i - 1], es[i + 1..];
    var merged := b.(recLen := b.recLen + es[i].recLen);
    assert es == (a + [b]) + ([es[i]] + c) && Removed(es, inode) == (a + [merged]) + c;
    ByNameConcat(a + [b], [es[i]] + c, q);
    ByNameConcat(a + [merged], c, q);
    ByNameConcat([es[i]], c, q);
    ByNameConcat(a, [b], q);
    ByNameConcat(a, [merged], q);
    ByNameOne(b, q);
    ByNameOne(merged, q);
    ByNameOne(es[i], q);
    SameNames(a, b, merged, q);
    if q == es[i].name {
      NotNamed(a + [merged], q);
      NotNamed(c, q);
    }
  }

  lemma SameNames(a: seq<Dirent>, b: Dirent, c: Dirent, q: seq<Byte>)
    requires b.name == c.name
    ensures (exists i :: 0 <= i < |a + [b]| && (a + [b])[i].name == q) <==> (exists i :: 0 <= i < |a + [c]| && (a + [c])[i].name == q)
    ensures (exists i :: 0 <= i < |[b]| && [b][i].name == q) <==> b.name == q
  {
    if i :| 0 <= i < |a + [b]| && (a + [b])[i].name == q {
      assert (a + [c])[i].name == q;
    }
    if i :| 0 <= i < |a + [c]| && (a + [c])[i].name == q {
      assert (a + [b])[i].name == q;
    }
    assert [b][0] == b;
  }

  lemma {:induction false} NotNamed(es: seq<Dirent>, q: seq<Byte>)
    requires forall i :: 0 <= i < |es| ==> es[i].name != q
    ensures ByName(es, q) == 0
  {
    if es != [] {
      NotNamed(es[1..], q);
    }
  }

  // ----- Names that fill their records -----

  /**
   A last name whose length is a multiple of 4 fills its record: once an entry follows, it is found exactly if that
   entry's inode number ends in a zero byte.
   */
  lemma ShadowedName(s: seq<Byte>, size: nat, inode: Word, fileType: Byte, name: seq<Byte>)
    requires Tiled(s, 0, size) && 0 < size && |name| < 0x100
    requires s[LastAt(s, 0, size) + LEN_OFFSET] % 4 == 0
    requires Need(s[LastAt(s, 0, size) + LEN_OFFSET]) + Need(|name|) <= RecLen(s, LastAt(s, 0, size))
    ensures var o := LastAt(s, 0, size);
            NameIs(Appended(s, o, inode, fileType, name), o + HEADER, At(s, o).name) <==> inode % 0x100 == 0
  {
    hide HalfAt, Need, Appended, Tiled, LastAt;
    var o := LastAt(s, 0, size);
    NeedRoom(s[o + LEN_OFFSET]);
    AppendedTail(s, o, size, inode, fileType, name);
    var t := Appended(s, o, inode, fileType, name);
    assert t[o + HEADER..o + HEADER + |At(s, o).name|] == At(s, o).name;
  }

  /**
   What looking up such a name then gives, when nothing before it reads the same: its inode if the new inode number ends
   in a zero byte, and otherwise what the new entry has to offer.
   */
  lemma ShadowedLookup(s: seq<Byte>, t: seq<Byte>, size: nat, o: nat, n: nat, inode: Word, fileType: Byte,
                       name: seq<Byte>)
    requires AppendedAt(s, t, size, o, n, inode, fileType, name) && Fits(s, o, size) && s[o + LEN_OFFSET] % 4 == 0
    requires 0 < o ==> Tiled(s, 0, o) && NulWithin(s, LastAt(s, 0, o) + HEADER, o + REC_OFFSET)
    requires NoNul(At(s, o).name) && Tiled(s, 0, o) && !Found(s, 0, o, At(s, o).name)
    ensures Tiled(t, 0, size)
    ensures Find(t, 0, size, At(s, o).name) ==
            if inode % 0x100 == 0 then At(s, o).inode else if NameIs(t, n + HEADER, At(s, o).name) then inode else 0
  {
    hide *;
    EntryFacts(s, o, size);
    AppendedShadow(s, t, size, o, n, inode, fileType, name);
    AppendedFind(s, t, size, o, n, inode, fileType, name, At(s, o).name);
  }

  lemma AppendedShadow(s: seq<Byte>, t: seq<Byte>, size: nat, o: nat, n: nat, inode: Word, fileType: Byte,
                       name: seq<Byte>)
    requires AppendedAt(s, t, size, o, n, inode, fileType, name) && Fits(s, o, size) && s[o + LEN_OFFSET] % 4 == 0
    ensures NameIs(t, o + HEADER, At(s, o).name) <==> inode % 0x100 == 0
  {
    hide HalfAt, Appended, Tiled, Need, LastAt, At, NameIs;
    NeedRoom(|name|);
    AppendedAtFacts(s, t, size, o, n, inode, fileType, name);
    ShadowedName(s, size, inode, fileType, name);
  }
}
