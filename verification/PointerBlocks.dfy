/** How many pointer blocks a file needs, in closed form. */
module PointerBlocks {
  import opened Arith
  import opened Trees
  import opened Builder
  import opened Files

  lemma Caps(e: nat)
    ensures Cap(e, 0) == 1 && Cap(e, 1) == e && Cap(e, 2) == e * e && Cap(e, 3) == e * (e * e)
  {
  }

  /** Taking one whole divisor off takes one off the quotient, rounded up. */
  lemma DivUpStep(x: nat, y: nat, k: nat)
    requires 0 < y && k * y <= x
    ensures DivUp(x, y) == k + DivUp(x - k * y, y)
  {
    DivUpBounds(x - k * y, y);
    MulDistributes(k, DivUp(x - k * y, y), y);
    DivUpUnique(x, y, k + DivUp(x - k * y, y));
  }

  lemma {:induction false} NoPointers(e: nat, m: nat)
    requires 0 < e
    ensures Forest(e, 0, m) == 0
    decreases m
  {
    if m > 1 {
      NoPointers(e, m - 1);
    }
  }

  lemma SingleMeta(e: nat, m: nat)
    requires 0 < e
    ensures Meta(e, 1, m) == 1
  {
    NoPointers(e, m);
  }

  /** Single-indirect blocks for m data blocks. */
  lemma {:induction false} SingleForest(e: nat, m: nat)
    requires 0 < e
    ensures Forest(e, 1, m) == DivUp(m, e)
    decreases m
  {
    Caps(e);
    if 0 < m <= e {
      SingleMeta(e, m);
      DivUpUnique(m, e, 1);
    } else if m > e {
      SingleMeta(e, e);
      SingleForest(e, m - e);
      DivUpStep(m, e, 1);
    }
  }

  lemma DoubleMeta(e: nat, m: nat)
    requires 0 < e
    ensures Meta(e, 2, m) == 1 + DivUp(m, e)
  {
    SingleForest(e, m);
  }

  lemma SquarePositive(e: nat)
    requires 0 < e
    ensures 0 < e * e
  {
  }

  /** Pointer blocks of double-indirect trees for m data blocks. */
  lemma {:induction false} DoubleForest(e: nat, m: nat)
    requires 0 < e
    ensures 0 < e * e && Forest(e, 2, m) == DivUp(m, e * e) + DivUp(m, e)
    decreases m
  {
    Caps(e);
    SquarePositive(e);
    var square := e * e;
    if 0 < m <= square {
      DoubleMeta(e, m);
      DivUpUnique(m, square, 1);
    } else if m > square {
      DoubleMeta(e, square);
      DivUpUnique(square, e, e);
      DoubleForest(e, m - square);
      DivUpStep(m, square, 1);
      DivUpStep(m, e, e);
    }
  }

  lemma TripleMeta(e: nat, m: nat)
    requires 0 < e
    ensures 0 < e * e && Meta(e, 3, m) == 1 + DivUp(m, e * e) + DivUp(m, e)
  {
    DoubleForest(e, m);
  }

  /** Direct entries need no pointer blocks. */
  lemma {:induction false} DirectMeta(e: nat, i: nat, r: nat)
    requires 0 < e && i <= 12
    ensures FileMeta(e, i, r) == if r <= 12 - i then 0 else FileMeta(e, 12, r - (12 - i))
    decreases 12 - i
  {
    hide FileMeta, Meta, Cap;
    if r == 0 {
      NothingMeta(e, i);
    } else if i < 12 {
      EntryShare(e, i, r);
      LevelZero(e);
      DirectMeta(e, i + 1, r - 1);
    }
  }

  lemma NothingMeta(e: nat, i: nat)
    requires 0 < e
    ensures FileMeta(e, i, 0) == 0
  {
  }

  lemma LevelZero(e: nat)
    requires 0 < e
    ensures Cap(e, 0) == 1 && Meta(e, 0, 1) == 0
  {
  }

  lemma {:induction false} DirectRoom(e: nat, i: nat)
    requires i <= 12
    ensures Room(e, i) == 12 - i + Room(e, 12)
    decreases 12 - i
  {
    if i < 12 {
      DirectRoom(e, i + 1);
    }
  }

  /** A file has room for 12 + e + e^2 + e^3 data blocks. */
  lemma RoomIs(e: nat)
    ensures Room(e, 0) == 12 + e + e * e + e * (e * e)
  {
    DirectRoom(e, 0);
    Caps(e);
    assert Room(e, 14) == Cap(e, 3) + Room(e, 15);
    assert Room(e, 13) == Cap(e, 2) + Room(e, 14);
    assert Room(e, 12) == Cap(e, 1) + Room(e, 13);
  }

  /** Pointer blocks of a file of n data blocks, for square == e * e: each term is there when its level is reached. */
  function PointersOf(e: nat, square: nat, n: nat): nat
    requires 0 < e && 0 < square
  {
    if n <= 12 then 0
    else if n <= 12 + e then 1
    else if n <= 12 + e + square then 1 + (1 + DivUp(n - 12 - e, e))
    else
      var m := n - 12 - e - square;
      1 + (1 + DivUp(square, e)) + (1 + DivUp(m, square) + DivUp(m, e))
  }

  lemma TripleTerm(e: nat, square: nat, r: nat)
    requires 0 < e && square == Cap(e, 2) && 0 < square && r <= Cap(e, 3)
    ensures FileMeta(e, 14, r) == if r > 0 then 1 + DivUp(r, square) + DivUp(r, e) else 0
  {
    Caps(e);
    hide Meta, Cap, DivUp;
    if r > 0 {
      TripleMeta(e, r);
      assert FileMeta(e, 15, 0) == 0;
    }
  }

  lemma DoubleTerm(e: nat, square: nat, r: nat)
    requires 0 < e && square == Cap(e, 2) && 0 < square
    ensures FileMeta(e, 13, r) == if r > 0 then 1 + DivUp(Min(r, square), e) + FileMeta(e, 14, r - Min(r, square)) else 0
  {
    Caps(e);
    hide Meta, Cap, DivUp;
    if r > 0 {
      DoubleMeta(e, Min(r, square));
    }
  }

  lemma SingleTerm(e: nat, r: nat)
    requires 0 < e
    ensures FileMeta(e, 12, r) == if r > 0 then 1 + FileMeta(e, 13, r - Min(r, e)) else 0
  {
    Caps(e);
    hide Meta, Cap;
    if r > 0 {
      SingleMeta(e, Min(r, e));
    }
  }

  lemma FileMetaTerms(e: nat, square: nat, n: nat)
    requires 0 < e && 0 < square && square == Cap(e, 2) && n <= 12 + e + square + Cap(e, 3)
    ensures FileMeta(e, 0, n) == PointersOf(e, square, n)
  {
    hide FileMeta, Cap, Room, DivUp;
    DirectMeta(e, 0, n);
    if n > 12 {
      SingleTerm(e, n - 12);
      var r := n - 12 - Min(n - 12, e);
      DoubleTerm(e, square, r);
      if r > 0 {
        TripleTerm(e, square, r - Min(r, square));
      }
    }
  }

  /** Growing an empty file to n data blocks takes this many pointer blocks. */
  lemma FileMetaIs(e: nat, n: nat)
    requires 0 < e && n <= Room(e, 0)
    ensures 0 < e * e && FileMeta(e, 0, n) == PointersOf(e, e * e, n)
  {
    hide FileMeta, PointersOf;
    RoomIs(e);
    Caps(e);
    SquarePositive(e);
    FileMetaTerms(e, e * e, n);
  }

  /** Only files of more than 12 blocks have pointer blocks. */
  lemma NoMeta(e: nat, n: nat)
    requires 0 < e
    ensures FileMeta(e, 0, n) == 0 <==> n <= 12
  {
    DirectMeta(e, 0, n);
    if n > 12 {
      Caps(e);
      SingleMeta(e, Min(n - 12, e));
    }
  }
}
