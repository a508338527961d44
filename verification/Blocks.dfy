/** Disk blocks as 512 bytes, read and written as bytes, as little-endian 32-bit words and as
    single bits: the three ways the file system looks at a buffer's data. */
module Blocks {
  const BSIZE := 512
  const WORDS := 128
  const BPB := 4096

  type Byte = x: int | 0 <= x < 0x100
  type Word = x: nat | x < 0x1_0000_0000
  type Block = b: seq<Byte> | |b| == BSIZE witness seq(BSIZE, i => 0)

  const ZERO: Block := seq(BSIZE, i => 0)

  /** A whole disk (or the flat store seen through the cache), indexed by block number. */
  type Image = seq<Block>

  /** A 32-bit word from its four bytes, least significant first. */
  function Join(s: seq<Byte>): (w: Word)
    requires |s| == 4
  {
    var b0: int, b1: int, b2: int, b3: int := s[0], s[1], s[2], s[3];
    b0 + 0x100 * (b1 + 0x100 * (b2 + 0x100 * b3))
  }

  function Split(w: Word): (s: seq<Byte>)
    ensures |s| == 4 && Join(s) == w
  {
    var q1 := w / 0x100;
    var q2 := q1 / 0x100;
    [w % 0x100, q1 % 0x100, q2 % 0x100, q2 / 0x100]
  }

  function WordAt(b: Block, i: nat): (w: Word)
    requires i < WORDS
  {
    Join(b[4 * i..4 * i + 4])
  }

  /** Store word w at index i: the word reads back, every other word is untouched. */
  function WithWord(b: Block, i: nat, w: Word): (r: Block)
    requires i < WORDS
    ensures WordAt(r, i) == w
    ensures forall j: nat | j < WORDS && j != i :: WordAt(r, j) == WordAt(b, j)
  {
    var r := b[..4 * i] + Split(w) + b[4 * i + 4..];
    assert r[4 * i..4 * i + 4] == Split(w);
    assert forall j: nat | j < i :: r[4 * j..4 * j + 4] == b[4 * j..4 * j + 4];
    assert forall j: nat | i < j < WORDS :: r[4 * j..4 * j + 4] == b[4 * j..4 * j + 4];
    r
  }

  /** 1 << k. */
  function Mask(k: nat): (m: nat)
    ensures m >= 1
  {
    if k == 0 then 1 else 2 * Mask(k - 1)
  }

  /** (x & (1 << k)) != 0 */
  predicate BitOf(x: nat, k: nat) {
    if k == 0 then x % 2 == 1 else BitOf(x / 2, k - 1)
  }

  predicate BitAt(b: Block, i: nat)
    requires i < BPB
  {
    BitOf(b[i / 8], i % 8)
  }

  lemma {:induction false} SetBitOf(x: nat, k: nat, j: nat, n: nat)
    requires !BitOf(x, k) && k < n && x < Mask(n)
    ensures x + Mask(k) < Mask(n)
    ensures BitOf(x + Mask(k), j) == (j == k || BitOf(x, j))
  {
    if k > 0 {
      SetBitOf(x / 2, k - 1, if j > 0 then j - 1 else 0, n - 1);
      assert (x + Mask(k)) / 2 == x / 2 + Mask(k - 1);
    }
  }

  lemma {:induction false} ClearBitOf(x: nat, k: nat, j: nat)
    requires BitOf(x, k)
    ensures x >= Mask(k)
    ensures BitOf(x - Mask(k), j) == (j != k && BitOf(x, j))
  {
    if k > 0 {
      ClearBitOf(x / 2, k - 1, if j > 0 then j - 1 else 0);
      assert (x - Mask(k)) / 2 == x / 2 - Mask(k - 1);
    } else {
      assert (x - 1) / 2 == x / 2;
    }
  }

  /** Mark bit i, which must be clear: every other bit is untouched. */
  function WithBit(b: Block, i: nat): (r: Block)
    requires i < BPB && !BitAt(b, i)
    ensures forall j: nat | j < BPB :: BitAt(r, j) == (j == i || BitAt(b, j))
  {
    SetBitOf(b[i / 8], i % 8, 0, 8);
    var r := b[i / 8 := b[i / 8] + Mask(i % 8)];
    assert forall j: nat | j < BPB :: BitAt(r, j) == (j == i || BitAt(b, j)) by {
      forall j: nat | j < BPB ensures BitAt(r, j) == (j == i || BitAt(b, j)) {
        SetBitOf(b[i / 8], i % 8, j % 8, 8);
      }
    }
    r
  }

  /** Clear bit i, which must be set: every other bit is untouched. */
  function WithoutBit(b: Block, i: nat): (r: Block)
    requires i < BPB && BitAt(b, i)
    ensures forall j: nat | j < BPB :: BitAt(r, j) == (j != i && BitAt(b, j))
  {
    ClearBitOf(b[i / 8], i % 8, 0);
    var r := b[i / 8 := b[i / 8] - Mask(i % 8)];
    assert forall j: nat | j < BPB :: BitAt(r, j) == (j != i && BitAt(b, j)) by {
      forall j: nat | j < BPB ensures BitAt(r, j) == (j != i && BitAt(b, j)) {
        ClearBitOf(b[i / 8], i % 8, j % 8);
      }
    }
    r
  }
}
