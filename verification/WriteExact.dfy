/** When ext2_write_inode_bytes writes what it was given: exactly for which offsets and counts. */
module WriteExact {
  import opened Codec
  import opened Arith
  import opened ByteRange
  import opened ByteWrite

  /**
   Block-aligned, or within the first block with the count equal to the bytes skipped, or from half block to half
   block.
   */
  predicate WritesExactly(size: nat, s: nat, count: nat)
    requires 0 < size
  {
    s == 0 || s == count || (2 * s == size && count % size == s)
  }

  /** The sizes at which a write is memory-safe. */
  ghost predicate SafeWrite(length: nat, o: nat, room: nat, size: nat, s: nat, count: nat, blocks: nat) {
    && 0 < size && s < size && (s == 0 || 2 * s <= size) && blocks == DivUp(count, size)
    && (0 < count ==> 0 < blocks && count <= blocks * size && 0 <= (blocks - 1) * size < count)
    && blocks * size == (if blocks > 0 then (blocks - 1) * size + size else 0)
    && o + Extent(size, s, count, blocks) <= length && o + count <= length
    && Needed(size, s, count, blocks) <= room && count <= room
  }

  lemma AlignedWrite(all: seq<Byte>, o: nat, source: seq<Byte>, size: nat, count: nat, blocks: nat)
    requires SafeWrite(|all|, o, |source|, size, 0, count, blocks)
    ensures Overwritten(all, o, source, size, 0, count, blocks) == Splice(all, o, source[..count])
  {
    if 0 < count {
      var w := (blocks - 1) * size;
      assert source[0..w] + source[w..w + (count - w)] == source[..count];
      SpliceSplice(all, o, source[0..w], source[w..w + (count - w)]);
      assert o + 0 + w == o + |source[0..w]|;
    } else {
      assert source[..0] == [];
    }
  }

  /** One byte after a memcpy. */
  lemma SpliceAt(s: seq<Byte>, i: nat, t: seq<Byte>, k: nat)
    requires i + |t| <= |s| && k < |s|
    ensures Splice(s, i, t)[k] == if i <= k < i + |t| then t[k - i] else s[k]
  {
  }

  /** What one byte of the file becomes. */
  lemma OverwrittenAt(all: seq<Byte>, o: nat, source: seq<Byte>, size: nat, s: nat, count: nat, blocks: nat, k: nat)
    requires SafeWrite(|all|, o, |source|, size, s, count, blocks) && 0 < s && k < |all|
    ensures var h, w := size - s, (blocks - 1) * size;
            Overwritten(all, o, source, size, s, count, blocks)[k] ==
            if count > h && count - h > w && o + h + w <= k < o + count then source[k - o + h]
            else if count > h && o + h <= k < o + h + w then source[k - o]
            else if o <= k < o + s then source[k - o]
            else all[k]
  {
    hide Splice, DivUp;
    var h := size - s;
    var w: int := (blocks - 1) * size;
    var first := Splice(all, o, source[..s]);
    SpliceAt(all, o, source[..s], k);
    if count > h {
      var mid := Splice(first, o + h, source[h..h + w]);
      SpliceAt(first, o + h, source[h..h + w], k);
      if count - h > w {
        var tail := source[2 * h + w..2 * h + w + (count - h - w)];
        SpliceAt(mid, o + h + w, tail, k);
      }
    }
  }

  /** Byte i of the source. */
  function ByteIn(source: seq<Byte>, i: int): int {
    if 0 <= i < |source| then source[i] as int else -1
  }

  /**
   What one byte of the file becomes in a write that starts s bytes into its block k, carried out or given up: the head is
   written when block k is below 12, the whole blocks when the first of them is, the tail when its own block is, too.
   */
  lemma OutcomeAt(all: seq<Byte>, o: nat, source: seq<Byte>, size: nat, k: nat, s: nat, count: nat, blocks: nat, x: nat)
    requires SafeWrite(|all|, o, |source|, size, s, count, blocks) && x < |all|
    ensures var h, w, next := if s == 0 then 0 else size - s, (blocks - 1) * size, if s == 0 then k else k + 1;
            WriteOutcome(all, o, source, size, k, s, count, blocks)[x] as int ==
            if s != 0 && k >= 12 then all[x] as int
            else if next < 12 && next + (blocks - 1) < 12 && h < count && h + w < count && o + h + w <= x < o + count then
              ByteIn(source, x - o + h)
            else if next < 12 && h < count && o + h <= x < o + h + w then ByteIn(source, x - o)
            else if o <= x < o + s then ByteIn(source, x - o)
            else all[x] as int
  {
    hide Splice, DivUp, Overwritten, PartlyWritten;
    if Reach(size, k, s, count, blocks) {
      if s == 0 {
        AlignedWrite(all, o, source, size, count, blocks);
        SpliceAt(all, o, source[..count], x);
      } else {
        OverwrittenAt(all, o, source, size, s, count, blocks, x);
      }
    } else {
      PartlyAt(all, o, source, size, k, s, count, blocks, x);
    }
  }

  lemma PartlyAt(all: seq<Byte>, o: nat, source: seq<Byte>, size: nat, k: nat, s: nat, count: nat, blocks: nat, x: nat)
    requires SafeWrite(|all|, o, |source|, size, s, count, blocks) && x < |all| && !Reach(size, k, s, count, blocks)
    ensures var h, w, next := if s == 0 then 0 else size - s, (blocks - 1) * size, if s == 0 then k else k + 1;
            PartlyWritten(all, o, source, size, k, s, count, blocks)[x] as int ==
            if s != 0 && k >= 12 then all[x] as int
            else if next < 12 && o + h <= x < o + h + w then ByteIn(source, x - o)
            else if o <= x < o + s then ByteIn(source, x - o)
            else all[x] as int
  {
    hide Splice, DivUp;
    var h: nat := if s == 0 then 0 else size - s;
    var w: int := (blocks - 1) * size;
    if k < 12 {
      if s == 0 {
        SpliceAt(all, o, source[..w], x);
      } else {
        var first := Splice(all, o, source[..s]);
        SpliceAt(all, o, source[..s], x);
        if k + 1 < 12 {
          SpliceAt(first, o + h, source[h..h + w], x);
        }
      }
    }
  }

  lemma ExactWrite(all: seq<Byte>, o: nat, source: seq<Byte>, size: nat, s: nat, count: nat, blocks: nat)
    requires SafeWrite(|all|, o, |source|, size, s, count, blocks) && WritesExactly(size, s, count)
    ensures Overwritten(all, o, source, size, s, count, blocks) == Splice(all, o, source[..count])
  {
    if s == 0 {
      AlignedWrite(all, o, source, size, count, blocks);
    } else {
      HalfBlocks(size, s, count, blocks);
      var r := Overwritten(all, o, source, size, s, count, blocks);
      forall k | 0 <= k < |all| ensures r[k] == Splice(all, o, source[..count])[k] {
        OverwrittenAt(all, o, source, size, s, count, blocks, k);
      }
    }
  }

  /** A count that ends half a block in needs one block more than it fills. */
  lemma HalfBlocks(size: nat, s: nat, count: nat, blocks: nat)
    requires 0 < s && 2 * s <= size && blocks == DivUp(count, size) && WritesExactly(size, s, count)
    ensures 0 < blocks
    ensures (s == count && (blocks - 1) * size == 0) || (2 * s == size && count == (blocks - 1) * size + s)
  {
    if s == count {
      DivUpUnique(count, size, 1);
    } else {
      DivMod(count, size);
      var q := count / size;
      MulSucc(q, size);
      DivUpUnique(count, size, q + 1);
    }
  }

  /** Any other write puts some byte of some source in the wrong place, or keeps a byte it should have replaced. */
  lemma InexactWrite(length: nat, o: nat, room: nat, size: nat, s: nat, count: nat, blocks: nat)
    returns (all: seq<Byte>, source: seq<Byte>)
    requires SafeWrite(length, o, room, size, s, count, blocks) && !WritesExactly(size, s, count)
    ensures |all| == length && |source| == room
    ensures Overwritten(all, o, source, size, s, count, blocks) != Splice(all, o, source[..count])
  {
    hide Splice, DivUp, Overwritten;
    all := seq(length, _ => 0);
    var h, w := size - s, (blocks - 1) * size;
    var bad: nat, at: nat;
    if count <= h {
      // The head phase stops short of the count, or runs past it.
      bad := if s < count then s else count;
      at := o + bad;
    } else if s < h {
      // The head phase stops short of the end of the first block.
      bad, at := s, o + s;
    } else if count - h < w {
      // The whole blocks run past the count.
      bad, at := count, o + count;
    } else if count - h == w {
      CountHalf(size, s, count, blocks);
      assert false;
    } else {
      // The tail is taken from too far along the source.
      bad, at := h + w, o + h + w;
    }
    source := seq(room, i => if i == bad then 1 else 0);
    OverwrittenAt(all, o, source, size, s, count, blocks, at);
    SpliceAt(all, o, source[..count], at);
  }

  lemma CountHalf(size: nat, s: nat, count: nat, blocks: nat)
    requires 0 < s && 2 * s == size && 0 < blocks && count - (size - s) == (blocks - 1) * size
    ensures WritesExactly(size, s, count)
  {
    QuotientUnique(count, size, blocks - 1, s);
  }

  /** A byte write is a plain splice for every file and every source exactly under WritesExactly. */
  lemma WriteExactness(length: nat, o: nat, room: nat, size: nat, s: nat, count: nat, blocks: nat)
    requires SafeWrite(length, o, room, size, s, count, blocks)
    ensures WritesExactly(size, s, count) <==>
            forall all: seq<Byte>, source: seq<Byte> :: |all| == length && |source| == room ==>
              Overwritten(all, o, source, size, s, count, blocks) == Splice(all, o, source[..count])
  {
    if WritesExactly(size, s, count) {
      forall all: seq<Byte>, source: seq<Byte> | |all| == length && |source| == room
        ensures Overwritten(all, o, source, size, s, count, blocks) == Splice(all, o, source[..count])
      {
        ExactWrite(all, o, source, size, s, count, blocks);
      }
    } else {
      var all, source := InexactWrite(length, o, room, size, s, count, blocks);
    }
  }
}
