/** Little-endian views of raw bytes: what a cast of a block buffer to `uint32_t *` reads and writes. */
module Codec {

  type Byte = x: int | 0 <= x < 0x100
  type Word = x: int | 0 <= x < 0x1_0000_0000
  type Block = seq<Byte>

  /** The 16-bit field stored at offset i. */
  function HalfAt(s: seq<Byte>, i: nat): (h: int)
    requires i + 2 <= |s|
    ensures 0 <= h < 0x1_0000
  {
    s[i] as int + 0x100 * s[i + 1] as int
  }

  function HalfBytes(h: int): (s: seq<Byte>)
    requires 0 <= h < 0x1_0000
    ensures |s| == 2 && HalfAt(s, 0) == h
  {
    [h % 0x100, h / 0x100]
  }

  /** The 32-bit word stored at offset i. */
  function WordAt(s: seq<Byte>, i: nat): Word
    requires i + 4 <= |s|
  {
    s[i] as int + 0x100 * (s[i + 1] as int + 0x100 * (s[i + 2] as int + 0x100 * s[i + 3] as int))
  }

  /** The digits of a 16-bit field to base 256 are its bytes, the lowest first. */
  lemma HalfDigits(s: seq<Byte>, i: nat)
    requires i + 2 <= |s|
    ensures HalfAt(s, i) % 0x100 == s[i] && HalfAt(s, i) / 0x100 == s[i + 1]
  {
  }

  /** The digits of a word to base 256 are its bytes, the lowest first. */
  lemma WordDigits(s: seq<Byte>, i: nat)
    requires i + 4 <= |s|
    ensures var w := WordAt(s, i);
            && w % 0x100 == s[i] && w / 0x100 % 0x100 == s[i + 1]
            && w / 0x1_0000 % 0x100 == s[i + 2] && w / 0x100_0000 == s[i + 3]
  {
    FourDigits(s[i], s[i + 1], s[i + 2], s[i + 3]);
  }

  lemma FourDigits(b0: Byte, b1: Byte, b2: Byte, b3: Byte)
    ensures var w: int := b0 as int + 0x100 * (b1 as int + 0x100 * (b2 as int + 0x100 * b3 as int));
            w % 0x100 == b0 && w / 0x100 % 0x100 == b1 && w / 0x1_0000 % 0x100 == b2 && w / 0x100_0000 == b3
  {
    var w2: int := b2 as int + 0x100 * b3 as int;
    var w1: int := b1 as int + 0x100 * w2;
    var w: int := b0 as int + 0x100 * w1;
    assert w / 0x100 == w1 && w % 0x100 == b0;
    Quotients(w);
    assert w1 / 0x100 == w2 && w1 % 0x100 == b1;
    assert w2 / 0x100 == b3 && w2 % 0x100 == b2;
  }

  lemma Quotients(w: nat)
    ensures w / 0x1_0000 == w / 0x100 / 0x100 && w / 0x100_0000 == w / 0x100 / 0x100 / 0x100
  {
  }

  /** A word is two 16-bit fields, the low one first. */
  lemma WordHalves(s: seq<Byte>, i: nat)
    requires i + 4 <= |s|
    ensures WordAt(s, i) == HalfAt(s, i) + 0x1_0000 * HalfAt(s, i + 2)
  {
  }

  /** The number whose base-256 digits, lowest first, are the four bytes from i on. */
  function Little(s: seq<Byte>, i: nat): nat
    requires i + 4 <= |s|
  {
    s[i] as nat + 0x100 * s[i + 1] as nat + 0x1_0000 * s[i + 2] as nat + 0x100_0000 * s[i + 3] as nat
  }

  lemma LittleIs(s: seq<Byte>, i: nat)
    requires i + 4 <= |s|
    ensures WordAt(s, i) == Little(s, i)
  {
  }

  /** Byte k of the word w. */
  function ByteOf(w: nat, k: nat): Byte {
    if k == 0 then w % 0x100 else ByteOf(w / 0x100, k - 1)
  }

  function WordBytes(w: Word): (s: seq<Byte>)
    ensures |s| == 4
  {
    [ByteOf(w, 0), ByteOf(w, 1), ByteOf(w, 2), ByteOf(w, 3)]
  }

  /** A buffer read as an array of 32-bit words. */
  function ToWords(s: seq<Byte>): (ws: seq<Word>)
    ensures |ws| == |s| / 4
  {
    seq(|s| / 4, j requires 0 <= j < |s| / 4 => WordAt(s, 4 * j))
  }

  /** An array of 32-bit words read as a buffer. */
  function ToBytes(ws: seq<Word>): (s: seq<Byte>)
    ensures |s| == 4 * |ws|
  {
    seq(4 * |ws|, i requires 0 <= i < 4 * |ws| => ByteOf(ws[i / 4], i % 4))
  }

  /** Byte k of a word is its digit k. */
  lemma ByteDigits(w: Word)
    ensures ByteOf(w, 0) == w % 0x100 && ByteOf(w, 1) == w / 0x100 % 0x100
    ensures ByteOf(w, 2) == w / 0x1_0000 % 0x100 && ByteOf(w, 3) == w / 0x100_0000
  {
    var w1 := w / 0x100;
    var w2 := w1 / 0x100;
    assert w2 == w / 0x1_0000 && w2 / 0x100 == w / 0x100_0000;
    assert ByteOf(w, 2) == ByteOf(w1, 1) == ByteOf(w2, 0);
    assert ByteOf(w, 3) == ByteOf(w1, 2) == ByteOf(w2, 1) == ByteOf(w2 / 0x100, 0);
  }

  lemma WordOfBytes(w: Word)
    ensures ByteOf(w, 0) + 0x100 * (ByteOf(w, 1) + 0x100 * (ByteOf(w, 2) + 0x100 * ByteOf(w, 3))) == w
  {
    var w1 := w / 0x100;
    var w2 := w1 / 0x100;
    var w3 := w2 / 0x100;
    assert w3 < 0x100;
    assert ByteOf(w, 1) == w1 % 0x100;
    assert ByteOf(w, 2) == ByteOf(w1, 1) == w2 % 0x100;
    assert ByteOf(w, 3) == ByteOf(w1, 2) == ByteOf(w2, 1) == w3;
  }

  lemma BytesOfWord(b0: Byte, b1: Byte, b2: Byte, b3: Byte)
    ensures var w := b0 + 0x100 * (b1 + 0x100 * (b2 + 0x100 * b3));
            ByteOf(w, 0) == b0 && ByteOf(w, 1) == b1 && ByteOf(w, 2) == b2 && ByteOf(w, 3) == b3
  {
    var w2 := b2 + 0x100 * b3;
    var w1 := b1 + 0x100 * w2;
    var w := b0 + 0x100 * w1;
    assert w / 0x100 == w1 && w1 / 0x100 == w2 && w2 / 0x100 == b3;
    assert ByteOf(w, 1) == ByteOf(w1, 0);
    assert ByteOf(w, 2) == ByteOf(w1, 1) == ByteOf(w2, 0);
    assert ByteOf(w, 3) == ByteOf(w1, 2) == ByteOf(w2, 1) == ByteOf(b3, 0);
  }

  lemma WordsOfBytes(ws: seq<Word>)
    ensures ToWords(ToBytes(ws)) == ws
  {
    var s := ToBytes(ws);
    forall j | 0 <= j < |ws| ensures WordAt(s, 4 * j) == ws[j] {
      WordOfBytes(ws[j]);
      assert s[4 * j] == ByteOf(ws[j], 0) && s[4 * j + 1] == ByteOf(ws[j], 1);
      assert s[4 * j + 2] == ByteOf(ws[j], 2) && s[4 * j + 3] == ByteOf(ws[j], 3);
    }
  }

  lemma BytesOfWords(s: seq<Byte>)
    requires |s| % 4 == 0
    ensures ToBytes(ToWords(s)) == s
  {
    var ws := ToWords(s);
    forall i | 0 <= i < |s| ensures ToBytes(ws)[i] == s[i] {
      var j, k := i / 4, i % 4;
      BytesOfWord(s[4 * j], s[4 * j + 1], s[4 * j + 2], s[4 * j + 3]);
      assert ws[j] == WordAt(s, 4 * j);
      assert k == 0 || k == 1 || k == 2 || k == 3;
    }
  }

  /** Storing a word of a buffer and then its old value again restores every byte. */
  lemma WordRestored(s: seq<Byte>, k: nat, w: Word)
    requires |s| % 4 == 0 && k < |s| / 4
    ensures var ws := ToWords(s);
            ToWords(ToBytes(ws[k := w])) == ws[k := w] && ToBytes(ws[k := w][k := ws[k]]) == s
  {
    var ws := ToWords(s);
    WordsOfBytes(ws[k := w]);
    BytesOfWords(s);
    assert ws[k := w][k := ws[k]] == ws;
  }

  /** memcpy of t over s starting at offset i. */
  function Splice<T>(s: seq<T>, i: nat, t: seq<T>): (r: seq<T>)
    requires i + |t| <= |s|
    ensures |r| == |s|
    ensures forall k :: 0 <= k < |s| ==> r[k] == if i <= k < i + |t| then t[k - i] else s[k]
  {
    s[..i] + t + s[i + |t|..]
  }

  lemma SpliceSplice<T>(s: seq<T>, i: nat, t: seq<T>, u: seq<T>)
    requires i + |t| + |u| <= |s|
    ensures Splice(Splice(s, i, t), i + |t|, u) == Splice(s, i, t + u)
  {
  }
}
