/** Reading directory records: the list of entries in use, and entries by name as strcmp sees them. */
module Lookups {
  import opened Codec
  import opened Chains
  import opened Dentries

  // ----- All entries in use -----

  /** The entries with an inode. */
  function InUse(es: seq<Dirent>): seq<Dirent> {
    if es == [] then [] else (if es[0].inode != 0 then [es[0]] else []) + InUse(es[1..])
  }

  /** What is listed of a list is what is listed of its parts, and an entry is listed exactly if it has an inode. */
  lemma {:induction false} InUseParts(es: seq<Dirent>, fs: seq<Dirent>, e: Dirent)
    ensures InUse(es + fs) == InUse(es) + InUse(fs)
    ensures InUse([e]) == if e.inode != 0 then [e] else []
    decreases |es|
  {
    assert [e][1..] == [];
    if es == [] {
      assert es + fs == fs;
    } else {
      assert (es + fs)[1..] == es[1..] + fs;
      InUseParts(es[1..], fs, e);
    }
  }

  lemma InUseStep(s: seq<Byte>, a: nat, b: nat)
    requires Tiled(s, a, b) && a < b
    ensures Fits(s, a, b)
    ensures InUse(Parse(s, a, b)) == (if WordAt(s, a) != 0 then [At(s, a)] else []) + InUse(Parse(s, a + RecLen(s, a), b))
  {
    var rest := Parse(s, a + RecLen(s, a), b);
    assert ([At(s, a)] + rest)[1..] == rest;
  }

  /** The two passes of ext2_get_all_dirs: count the entries in use, then copy them in order. */
  method AllEntries(buffer: array<Byte>, size: nat) returns (entries: array<Dirent>)
    requires size <= buffer.Length && Tiled(buffer[..], 0, size)
    ensures fresh(entries) && entries[..] == InUse(Parse(buffer[..], 0, size))
  {
    hide At, HalfAt, WordAt, InUse;
    ghost var s := buffer[..];
    ghost var all := InUse(Parse(s, 0, size));
    NoneInUse();
    var parsed: nat, count: nat := 0, 0;
    while parsed < size
      invariant Tiled(s, parsed, size) && count + |InUse(Parse(s, parsed, size))| == |all|
      decreases size - parsed
    {
      InUseStep(s, parsed, size);
      if WordAt(buffer[..], parsed) != 0 {
        count := count + 1;
      }
      parsed := parsed + RecLen(buffer[..], parsed);
    }
    entries := new Dirent[count](_ => Dirent(0, 0, 0, []));
    parsed, count := 0, 0;
    while parsed < size
      invariant Tiled(s, parsed, size) && buffer[..] == s
      invariant count <= entries.Length == |all| && entries[..count] + InUse(Parse(s, parsed, size)) == all
      decreases size - parsed
    {
      InUseStep(s, parsed, size);
      if WordAt(buffer[..], parsed) != 0 {
        EntryFacts(s, parsed, size);
        ghost var done, rest := entries[..count], InUse(Parse(s, parsed + RecLen(s, parsed), size));
        assert done + ([At(s, parsed)] + rest) == (done + [At(s, parsed)]) + rest;
        entries[count] := At(buffer[..], parsed);
        assert entries[..count + 1] == done + [At(s, parsed)];
        count := count + 1;
      }
      parsed := parsed + RecLen(buffer[..], parsed);
    }
    assert entries[..count] == entries[..];
  }

  lemma NoneInUse()
    ensures InUse([]) == []
  {
  }

  // ----- Entries by name -----

  /** strcmp finds the string at offset o equal to q: q's bytes, then a NUL. */
  predicate NameIs(s: seq<Byte>, o: nat, q: seq<Byte>) {
    o + |q| < |s| && s[o..o + |q|] == q && s[o + |q|] == 0
  }

  predicate NoNul(q: seq<Byte>) {
    forall k :: 0 <= k < |q| ==> q[k] != 0
  }

  lemma NameDiffers(s: seq<Byte>, o: nat, q: seq<Byte>, k: nat)
    requires k < |q| && o + k < |s| && s[o + k] != q[k]
    ensures !NameIs(s, o, q)
  {
    if o + |q| < |s| {
      assert s[o..o + |q|][k] == s[o + k];
    }
  }

  /** strcmp, where a NUL or the length of q ends the comparison within the buffer. */
  method SameString(buffer: array<Byte>, o: nat, q: seq<Byte>) returns (same: bool)
    requires NoNul(q) && (o + |q| < buffer.Length || exists k :: o <= k < buffer.Length && buffer[k] == 0)
    ensures same <==> NameIs(buffer[..], o, q)
  {
    ghost var s := buffer[..];
    ghost var z: nat := o + |q|;
    if buffer.Length <= z {
      z :| o <= z < buffer.Length && s[z] == 0;
    }
    var k: nat := 0;
    while k < |q| && buffer[o + k] == q[k]
      invariant k <= |q| && o + k <= z && forall j :: 0 <= j < k ==> s[o + j] == q[j]
    {
      k := k + 1;
    }
    if k < |q| {
      NameDiffers(s, o, q, k);
      return false;
    }
    assert s[o..o + |q|] == q;
    return buffer[o + k] == 0;
  }

  /** The inode of the first entry whose stored name reads as q; 0 when there is none. */
  function Find(s: seq<Byte>, a: nat, b: nat, q: seq<Byte>): Word
    requires Tiled(s, a, b)
    decreases b - a
  {
    if a == b then 0 else if NameIs(s, a + HEADER, q) then WordAt(s, a) else Find(s, a + RecLen(s, a), b, q)
  }

  /** Some entry's stored name reads as q. */
  predicate Found(s: seq<Byte>, a: nat, b: nat, q: seq<Byte>)
    requires Tiled(s, a, b)
    decreases b - a
  {
    a < b && (NameIs(s, a + HEADER, q) || Found(s, a + RecLen(s, a), b, q))
  }

  predicate NulWithin(s: seq<Byte>, from: nat, to: nat)
    requires to <= |s|
  {
    exists k :: from <= k < to && s[k] == 0
  }

  /** A NUL follows the start of the last name, so that every comparison ends before offset `size`. */
  predicate Anchored(s: seq<Byte>, size: nat)
    requires Tiled(s, 0, size)
  {
    0 < size ==> NulWithin(s, LastAt(s, 0, size) + HEADER, size)
  }

  /** The scan of ext2_inode_from_path_and_parent over a directory's bytes. */
  method Lookup(buffer: array<Byte>, size: nat, q: seq<Byte>) returns (inode: Word)
    requires size <= buffer.Length && Tiled(buffer[..], 0, size) && NoNul(q)
    requires size + |q| < buffer.Length || Anchored(buffer[..], size)
    ensures inode == Find(buffer[..], 0, size, q)
  {
    hide HalfAt, WordAt, NameIs;
    ghost var s := buffer[..];
    var parsed: nat := 0;
    while parsed < size
      invariant Tiled(s, parsed, size) && Find(s, 0, size, q) == Find(s, parsed, size, q)
      invariant parsed < size ==> LastAt(s, 0, size) == LastAt(s, parsed, size)
      decreases size - parsed
    {
      var same := SameString(buffer, parsed + HEADER, q);
      if same {
        return WordAt(buffer[..], parsed);
      }
      parsed := parsed + RecLen(buffer[..], parsed);
    }
    return 0;
  }

  /** A comparison sees nothing behind the first NUL. */
  lemma NameFrame(s: seq<Byte>, t: seq<Byte>, o: nat, e: nat, q: seq<Byte>)
    requires e <= |s| && e <= |t| && (forall k :: o <= k < e ==> s[k] == t[k]) && NoNul(q) && NulWithin(s, o, e)
    ensures NameIs(s, o, q) <==> NameIs(t, o, q)
  {
    var z :| o <= z < e && s[z] == 0;
    if o + |q| <= z {
      assert s[o..o + |q|] == t[o..o + |q|];
    } else {
      NameDiffers(s, o, q, z - o);
      NameDiffers(t, o, q, z - o);
    }
  }

  /** Lookup depends only on the bytes up to a NUL behind the start of the last name. */
  lemma {:induction false} FindFrame(s: seq<Byte>, t: seq<Byte>, a: nat, b: nat, e: nat, q: seq<Byte>)
    requires Tiled(s, a, b) && b <= e <= |s| && e <= |t| && (forall k :: a <= k < e ==> s[k] == t[k]) && NoNul(q)
    requires a < b ==> NulWithin(s, LastAt(s, a, b) + HEADER, e)
    ensures Tiled(t, a, b) && Find(t, a, b, q) == Find(s, a, b, q) && Found(t, a, b, q) == Found(s, a, b, q)
    decreases b - a
  {
    hide At, HalfAt, NameIs, NoNul;
    ChainFrame(s, t, a, b);
    if a < b {
      EntryFrame(s, t, a, b);
      NameFrame(s, t, a + HEADER, e, q);
      FindFrame(s, t, a + RecLen(s, a), b, e, q);
    }
  }

  /** The first of two stretches that has the name decides. */
  lemma {:induction false} FindJoin(s: seq<Byte>, a: nat, b: nat, c: nat, q: seq<Byte>)
    requires Tiled(s, a, b) && Tiled(s, b, c)
    ensures Tiled(s, a, c) && Find(s, a, c, q) == if Found(s, a, b, q) then Find(s, a, b, q) else Find(s, b, c, q)
    ensures Found(s, a, c, q) <==> Found(s, a, b, q) || Found(s, b, c, q)
    decreases b - a
  {
    hide At, HalfAt, WordAt, NameIs;
    ChainJoin(s, a, b, c);
    if a < b {
      TiledOrder(s, b, c);
      FindJoin(s, a + RecLen(s, a), b, c, q);
    }
  }

  lemma {:induction false} NotFound(s: seq<Byte>, a: nat, b: nat, q: seq<Byte>)
    requires Tiled(s, a, b) && !Found(s, a, b, q)
    ensures Find(s, a, b, q) == 0
    decreases b - a
  {
    hide HalfAt, WordAt, NameIs;
    if a < b {
      NotFound(s, a + RecLen(s, a), b, q);
    }
  }

  /** What is found is the inode of a record. */
  lemma {:induction false} FindAmong(s: seq<Byte>, a: nat, b: nat, q: seq<Byte>)
    requires Tiled(s, a, b)
    ensures Find(s, a, b, q) == 0 || exists i :: 0 <= i < |Parse(s, a, b)| && Parse(s, a, b)[i].inode == Find(s, a, b, q)
    decreases b - a
  {
    hide HalfAt, WordAt, NameIs;
    if a < b {
      EntryFacts(s, a, b);
      var n: nat := a + RecLen(s, a);
      FindAmong(s, n, b, q);
      assert Parse(s, a, b)[0].inode == WordAt(s, a);
      if i :| 0 <= i < |Parse(s, n, b)| && Parse(s, n, b)[i].inode == Find(s, n, b, q) {
        assert Parse(s, a, b)[i + 1] == Parse(s, n, b)[i];
      }
    }
  }

  /** The inode of the first entry of the given name. */
  function ByName(es: seq<Dirent>, q: seq<Byte>): Word {
    if es == [] then 0 else if es[0].name == q then es[0].inode else ByName(es[1..], q)
  }

  /** Every name is without NUL, and a NUL follows it within its record. */
  predicate Quiet(s: seq<Byte>, a: nat, b: nat)
    requires Tiled(s, a, b)
    decreases b - a
  {
    a < b ==>
      && NoNul(At(s, a).name) && HEADER + |At(s, a).name| < RecLen(s, a) && s[a + HEADER + |At(s, a).name|] == 0
      && Quiet(s, a + RecLen(s, a), b)
  }

  lemma NulFree(s: seq<Byte>, o: nat, q: seq<Byte>)
    requires o + |q| <= |s| && s[o..o + |q|] == q && NoNul(q)
    ensures forall k :: o <= k < o + |q| ==> s[k] != 0
  {
    forall k | o <= k < o + |q| ensures s[k] != 0 {
      assert q[k - o] == s[o..o + |q|][k - o];
    }
  }

  /** A name with its NUL reads as itself and as nothing else. */
  lemma NameExact(s: seq<Byte>, o: nat, name: seq<Byte>, q: seq<Byte>)
    requires o + |name| < |s| && s[o..o + |name|] == name && s[o + |name|] == 0 && NoNul(name) && NoNul(q)
    ensures NameIs(s, o, q) <==> q == name
  {
    NulFree(s, o, name);
    if NameIs(s, o, q) {
      NulFree(s, o, q);
    }
  }

  /** In a quiet directory, lookup by stored bytes is lookup by name in the list of entries. */
  lemma {:induction false} FindIsByName(s: seq<Byte>, a: nat, b: nat, q: seq<Byte>)
    requires Tiled(s, a, b) && Quiet(s, a, b) && NoNul(q)
    ensures Find(s, a, b, q) == ByName(Parse(s, a, b), q)
    decreases b - a
  {
    hide HalfAt, WordAt, NoNul, NameIs, Need;
    if a < b {
      EntryFacts(s, a, b);
      NameExact(s, a + HEADER, At(s, a).name, q);
      FindIsByName(s, a + RecLen(s, a), b, q);
      var rest := Parse(s, a + RecLen(s, a), b);
      assert ([At(s, a)] + rest)[1..] == rest;
    }
  }

  /** A quiet directory is anchored. */
  lemma {:induction false} QuietAnchored(s: seq<Byte>, a: nat, b: nat)
    requires Tiled(s, a, b) && a < b && Quiet(s, a, b)
    ensures NulWithin(s, LastAt(s, a, b) + HEADER, b)
    decreases b - a
  {
    hide HalfAt, NoNul;
    EntryFacts(s, a, b);
    if a + RecLen(s, a) < b {
      QuietAnchored(s, a + RecLen(s, a), b);
    } else {
      assert s[a + HEADER + |At(s, a).name|] == 0;
    }
  }

  /** Some entry has the name. */
  predicate Named(es: seq<Dirent>, q: seq<Byte>) {
    exists i :: 0 <= i < |es| && es[i].name == q
  }

  lemma NamedFirst(e: Dirent, rest: seq<Dirent>, q: seq<Byte>)
    ensures Named([e] + rest, q) <==> e.name == q || Named(rest, q)
    ensures !Named([], q)
  {
    var es := [e] + rest;
    assert es[0] == e;
    if i :| 0 <= i < |rest| && rest[i].name == q {
      assert es[i + 1].name == q;
    }
    if i :| 0 < i < |es| && es[i].name == q {
      assert rest[i - 1].name == q;
    }
  }

  /** In a quiet directory, what can be found is what has the name. */
  lemma {:induction false} FoundIsNamed(s: seq<Byte>, a: nat, b: nat, q: seq<Byte>)
    requires Tiled(s, a, b) && Quiet(s, a, b) && NoNul(q)
    ensures Found(s, a, b, q) <==> Named(Parse(s, a, b), q)
    decreases b - a
  {
    hide HalfAt, WordAt, NoNul, NameIs, Named;
    if a < b {
      EntryFacts(s, a, b);
      NameExact(s, a + HEADER, At(s, a).name, q);
      var n: nat := a + RecLen(s, a);
      FoundIsNamed(s, n, b, q);
      NamedFirst(At(s, a), Parse(s, n, b), q);
      assert Parse(s, a, b) == [At(s, a)] + Parse(s, n, b);
    } else {
      NamedFirst(Dirent(0, 0, 0, []), [], q);
    }
  }
}
