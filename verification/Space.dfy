/** How many blocks a file needs and how many there are: every block balloc hands out fills one slot
    of the inode and leaves the free ones by one. */
module Space {
  import opened Blocks
  import opened Counting
  import opened Inodes

  ghost function Free(sb: Superblock, disk: Image): set<nat>
    requires SbOk(sb) && |disk| == sb.size
  {
    set c: nat | c < sb.size && !Used(sb, disk, c)
  }

  /** The slots of an inode that refer to a block. */
  ghost function Filled(disk: Image, d: Inode): set<nat> {
    set k: nat | k < NSLOTS && Slot(disk, d, k) != 0
  }

  /** The slots that blocks lo to hi of a file go through: their own, and the one of the indirect block. */
  predicate Wanted(k: nat, lo: nat, hi: nat) {
    if k < NDIRECT then lo <= k < hi
    else if k == NDIRECT then NDIRECT < hi && lo < hi
    else lo <= k - 1 < hi
  }

  /** Those of them that are still empty: what writing these blocks has to allocate. */
  ghost function Empty(disk: Image, d: Inode, lo: nat, hi: nat): set<nat> {
    set k: nat | k < NSLOTS && Wanted(k, lo, hi) && Slot(disk, d, k) == 0
  }

  /** A slot that referred to a block refers to it still. */
  ghost predicate Kept(d0: Image, v0: Inode, d1: Image, v1: Inode) {
    forall k: nat | k < NSLOTS && Slot(d0, v0, k) != 0 :: Slot(d1, v1, k) == Slot(d0, v0, k)
  }

  /** Slots have only been filled, wanted ones, each with one free block. */
  ghost predicate Grew(sb: Superblock, d0: Image, v0: Inode, d1: Image, v1: Inode, lo: nat, hi: nat) {
    && SbOk(sb) && |d0| == |d1| == sb.size && Free(sb, d1) <= Free(sb, d0)
    && Kept(d0, v0, d1, v1) && Filled(d0, v0) <= Filled(d1, v1)
    && (forall k: nat | k in Filled(d1, v1) && k !in Filled(d0, v0) :: Wanted(k, lo, hi))
    && |Free(sb, d1)| + |Filled(d1, v1)| == |Free(sb, d0)| + |Filled(d0, v0)|
  }

  lemma GrewNone(sb: Superblock, d0: Image, v0: Inode, d1: Image, v1: Inode, lo: nat, hi: nat)
    requires SbOk(sb) && |d0| == |d1| == sb.size
    requires forall c: nat | c < sb.size :: Used(sb, d1, c) == Used(sb, d0, c)
    requires forall k: nat | k < NSLOTS :: Slot(d1, v1, k) == Slot(d0, v0, k)
    ensures Grew(sb, d0, v0, d1, v1, lo, hi)
  {
    hide Used, Slot;
    assert Free(sb, d1) == Free(sb, d0) && Filled(d1, v1) == Filled(d0, v0);
  }

  lemma GrewOne(sb: Superblock, d0: Image, v0: Inode, d1: Image, v1: Inode, k: nat, b: nat, lo: nat, hi: nat)
    requires SbOk(sb) && |d0| == |d1| == sb.size && b < sb.size && !Used(sb, d0, b) && k < NSLOTS && Wanted(k, lo, hi)
    requires forall c: nat | c < sb.size :: Used(sb, d1, c) == (c == b || Used(sb, d0, c))
    requires Slot(d0, v0, k) == 0 != Slot(d1, v1, k)
    requires forall m: nat | m < NSLOTS && m != k :: Slot(d1, v1, m) == Slot(d0, v0, m)
    ensures Grew(sb, d0, v0, d1, v1, lo, hi)
  {
    hide Used, Slot, Free, Filled;
    FreeOne(sb, d0, d1, b);
    FilledOne(d0, v0, d1, v1, k);
  }

  lemma FreeOne(sb: Superblock, d0: Image, d1: Image, b: nat)
    requires SbOk(sb) && |d0| == |d1| == sb.size && b < sb.size && !Used(sb, d0, b)
    requires forall c: nat | c < sb.size :: Used(sb, d1, c) == (c == b || Used(sb, d0, c))
    ensures Free(sb, d1) <= Free(sb, d0) && |Free(sb, d0)| == |Free(sb, d1)| + 1
  {
    hide Used;
    assert Free(sb, d0) == Free(sb, d1) + {b} && b !in Free(sb, d1);
  }

  lemma FilledOne(d0: Image, v0: Inode, d1: Image, v1: Inode, k: nat)
    requires k < NSLOTS && Slot(d0, v0, k) == 0 != Slot(d1, v1, k)
    requires forall m: nat | m < NSLOTS && m != k :: Slot(d1, v1, m) == Slot(d0, v0, m)
    ensures Filled(d1, v1) == Filled(d0, v0) + {k} && |Filled(d1, v1)| == |Filled(d0, v0)| + 1
  {
    hide Slot;
    assert Filled(d1, v1) == Filled(d0, v0) + {k} && k !in Filled(d0, v0);
  }

  lemma GrewTrans(sb: Superblock, d0: Image, v0: Inode, d1: Image, v1: Inode, d2: Image, v2: Inode,
                  lo1: nat, hi1: nat, lo2: nat, hi2: nat, lo: nat, hi: nat)
    requires Grew(sb, d0, v0, d1, v1, lo1, hi1) && Grew(sb, d1, v1, d2, v2, lo2, hi2)
    requires lo <= lo1 && hi1 <= hi && lo <= lo2 && hi2 <= hi
    ensures Grew(sb, d0, v0, d2, v2, lo, hi)
  {
    hide Used, Slot, Free, Filled, Kept;
    KeptTrans(d0, v0, d1, v1, d2, v2);
  }

  lemma KeptTrans(d0: Image, v0: Inode, d1: Image, v1: Inode, d2: Image, v2: Inode)
    requires Kept(d0, v0, d1, v1) && Kept(d1, v1, d2, v2)
    ensures Kept(d0, v0, d2, v2)
  {
    hide Slot;
  }

  /** With every wanted slot filled, just the empty ones have cost a block. */
  lemma EnoughFree(sb: Superblock, d0: Image, v0: Inode, d1: Image, v1: Inode, lo: nat, hi: nat)
    requires Grew(sb, d0, v0, d1, v1, lo, hi) && Empty(d1, v1, lo, hi) == {}
    ensures |Empty(d0, v0, lo, hi)| + |Free(sb, d1)| == |Free(sb, d0)|
  {
    hide Used, Slot, Free, Wanted;
    var e := Empty(d0, v0, lo, hi);
    forall k | k in e ensures k in Filled(d1, v1) {
      assert k !in Empty(d1, v1, lo, hi);
    }
    assert Filled(d1, v1) == Filled(d0, v0) + e && Filled(d0, v0) !! e;
  }

  /** If some slots turn out to need more blocks than are left, all the wanted ones needed more than
      there were. */
  lemma TooFewFree(sb: Superblock, d0: Image, v0: Inode, d1: Image, v1: Inode, lo: nat, hi: nat, lo1: nat, hi1: nat)
    requires Grew(sb, d0, v0, d1, v1, lo, hi) && lo <= lo1 && hi1 <= hi
    requires |Empty(d1, v1, lo1, hi1)| > |Free(sb, d1)|
    ensures |Empty(d0, v0, lo, hi)| > |Free(sb, d0)|
  {
    hide Used, Slot, Free;
    var e0, e1, grown := Empty(d0, v0, lo, hi), Empty(d1, v1, lo1, hi1), Filled(d1, v1) - Filled(d0, v0);
    assert grown !! e1 && grown <= e0;
    assert e1 <= e0 by {
      forall k | k in e1 ensures k in e0 {
        assert k !in Filled(d1, v1);
        assert k !in Filled(d0, v0);
      }
    }
    assert Filled(d1, v1) == Filled(d0, v0) + grown;
    assert e0 == grown + e1 + (e0 - grown - e1);
    assert |e0| >= |grown| + |e1|;
  }

  lemma NothingFree(sb: Superblock, disk: Image)
    requires SbOk(sb) && |disk| == sb.size && forall c: nat | c < sb.size :: Used(sb, disk, c)
    ensures Free(sb, disk) == {}
  {
    hide Used;
  }

  /** An empty slot that is wanted. */
  lemma SomeEmpty(disk: Image, d: Inode, k: nat, lo: nat, hi: nat)
    requires k < NSLOTS && Wanted(k, lo, hi) && Slot(disk, d, k) == 0
    ensures |Empty(disk, d, lo, hi)| > 0
  {
    assert k in Empty(disk, d, lo, hi);
  }

  /** The end of the blocks that n bytes from off on lie in. */
  function Through(off: nat, n: nat): nat {
    if n == 0 then off / BSIZE else (off + n - 1) / BSIZE + 1
  }

  /** All the blocks that n bytes from off on lie in are there, and no more have been allocated. */
  ghost predicate Supplied(sb: Superblock, d0: Image, v0: Inode, d1: Image, v1: Inode, off: nat, n: nat) {
    && Grew(sb, d0, v0, d1, v1, off / BSIZE, Through(off, n))
    && Empty(d1, v1, off / BSIZE, Through(off, n)) == {}
  }

  lemma SuppliedNone(sb: Superblock, disk: Image, d: Inode, off: nat)
    requires SbOk(sb) && |disk| == sb.size
    ensures Supplied(sb, disk, d, disk, d, off, 0)
  {
    hide Used, Slot;
    GrewNone(sb, disk, d, disk, d, off / BSIZE, off / BSIZE);
    NothingEmpty(disk, d, off / BSIZE);
  }

  /** The next m bytes from o on lie in one block. */
  lemma ThroughMore(off: nat, tot: nat, m: nat)
    requires 0 < m && (off + tot) % BSIZE + m <= BSIZE
    ensures Through(off, tot + m) == (off + tot) / BSIZE + 1
    ensures off / BSIZE <= (off + tot) / BSIZE <= Through(off, tot) <= Through(off, tot + m)
  {
  }

  lemma NothingEmpty(disk: Image, d: Inode, lo: nat)
    ensures Empty(disk, d, lo, lo) == {}
  {
  }

  /** Filling one more block, with nothing empty before it. */
  lemma FilledMore(sb: Superblock, d1: Image, v1: Inode, d2: Image, v2: Inode, lo: nat, hi: nat, bn: nat)
    requires Grew(sb, d1, v1, d2, v2, bn, bn + 1) && lo <= bn <= hi && bn < MAXFILE
    requires Empty(d1, v1, lo, hi) == {} && Slot(d2, v2, SlotOf(bn)) != 0
    ensures Empty(d2, v2, lo, bn + 1) == {}
  {
    forall k: nat | k < NSLOTS && Wanted(k, lo, bn + 1) ensures Slot(d2, v2, k) != 0 {
      if Wanted(k, lo, hi) {
        assert k !in Empty(d1, v1, lo, hi);
        assert k in Filled(d1, v1);
        assert k in Filled(d2, v2);
      }
    }
  }

  lemma GrewWider(sb: Superblock, d0: Image, v0: Inode, d1: Image, v1: Inode, lo: nat, hi: nat, hi': nat)
    requires Grew(sb, d0, v0, d1, v1, lo, hi) && hi <= hi'
    ensures Grew(sb, d0, v0, d1, v1, lo, hi')
  {
    hide Free, Filled;
  }

  /** Nothing empty in either of two ranges that meet, nothing empty in both together. */
  lemma EmptyJoin(sb: Superblock, d1: Image, v1: Inode, d2: Image, v2: Inode, lo: nat, hi: nat, lo': nat, hi': nat)
    requires Grew(sb, d1, v1, d2, v2, lo', hi') && lo <= lo' <= hi <= hi'
    requires Empty(d1, v1, lo, hi) == {} && Empty(d2, v2, lo', hi') == {}
    ensures Empty(d2, v2, lo, hi') == {}
  {
    hide Slot, Free;
    forall k: nat | k < NSLOTS && Wanted(k, lo, hi') ensures Slot(d2, v2, k) != 0 {
      if Wanted(k, lo', hi') {
        assert k !in Empty(d2, v2, lo', hi');
      } else {
        assert Wanted(k, lo, hi);
        assert k !in Empty(d1, v1, lo, hi);
        assert k in Filled(d1, v1);
        assert k in Filled(d2, v2);
      }
    }
  }

  // ----- the bitmap blocks that allocating writes -----

  /** The bitmap blocks with a bit that has been set. */
  ghost function Marks(sb: Superblock, d0: Image, d1: Image): set<nat>
    requires SbOk(sb) && |d0| == |d1| == sb.size
  {
    set b | b in Free(sb, d0) && b !in Free(sb, d1) :: Bblock(sb, b)
  }

  lemma MarkedOne(sb: Superblock, d0: Image, d1: Image, b: nat)
    requires SbOk(sb) && |d0| == |d1| == sb.size && b < sb.size && !Used(sb, d0, b) && Used(sb, d1, b)
    ensures Bblock(sb, b) in Marks(sb, d0, d1)
  {
    hide Used;
    assert b in Free(sb, d0) && b !in Free(sb, d1);
  }

  lemma MarksMore(sb: Superblock, d0: Image, v0: Inode, d1: Image, v1: Inode, d2: Image, v2: Inode,
                  lo1: nat, hi1: nat, lo2: nat, hi2: nat)
    requires Grew(sb, d0, v0, d1, v1, lo1, hi1) && Grew(sb, d1, v1, d2, v2, lo2, hi2)
    ensures Marks(sb, d0, d1) <= Marks(sb, d0, d2) && Marks(sb, d1, d2) <= Marks(sb, d0, d2)
  {
    hide Free, Slot, Filled, Kept;
  }

  lemma {:induction false} MarksAtMost(sb: Superblock, bs: set<nat>)
    ensures |set b | b in bs :: Bblock(sb, b)| <= |bs|
  {
    var marks := set b | b in bs :: Bblock(sb, b);
    if bs == {} {
      assert marks == {};
    } else {
      var x :| x in bs;
      MarksAtMost(sb, bs - {x});
      var rest := set b | b in bs - {x} :: Bblock(sb, b);
      assert marks == rest + {Bblock(sb, x)};
    }
  }

  /** No more bitmap blocks than slots filled, and no more than there are. */
  lemma MarksCount(sb: Superblock, d0: Image, v0: Inode, d1: Image, v1: Inode, lo: nat, hi: nat)
    requires Grew(sb, d0, v0, d1, v1, lo, hi) && Empty(d1, v1, lo, hi) == {}
    ensures |Marks(sb, d0, d1)| <= |Empty(d0, v0, lo, hi)| && (sb.size <= BPB ==> |Marks(sb, d0, d1)| <= 1)
  {
    hide Slot, Filled, Kept, Empty, Free;
    EnoughFree(sb, d0, v0, d1, v1, lo, hi);
    var taken := Free(sb, d0) - Free(sb, d1);
    DifferenceCount(Free(sb, d1), Free(sb, d0));
    assert Marks(sb, d0, d1) == set b | b in taken :: Bblock(sb, b);
    MarksAtMost(sb, taken);
    if sb.size <= BPB {
      OneMark(sb, d0, d1);
    }
  }

  lemma OneMark(sb: Superblock, d0: Image, d1: Image)
    requires SbOk(sb) && |d0| == |d1| == sb.size <= BPB
    ensures |Marks(sb, d0, d1)| <= 1
  {
    hide Used;
    assert Marks(sb, d0, d1) <= {sb.bmapstart};
    hide Marks;
    SubsetCount(Marks(sb, d0, d1), {sb.bmapstart});
  }

  ghost function Slots(lo: nat, hi: nat): set<nat>
    requires hi <= MAXFILE
  {
    set bn: nat | lo <= bn < hi :: SlotOf(bn)
  }

  lemma {:induction false} SlotsCount(lo: nat, hi: nat)
    requires lo <= hi <= MAXFILE
    ensures |Slots(lo, hi)| <= hi - lo
  {
    if lo == hi {
      assert Slots(lo, hi) == {};
    } else {
      SlotsCount(lo, hi - 1);
      assert Slots(lo, hi) == Slots(lo, hi - 1) + {SlotOf(hi - 1)};
    }
  }

  /** A range that is there up to from lacks at most the blocks behind and the indirect one. */
  lemma EmptyCount(disk: Image, d: Inode, lo: nat, from: nat, hi: nat)
    requires lo <= from <= hi <= MAXFILE && forall bn: nat | lo <= bn < from :: Slot(disk, d, SlotOf(bn)) != 0
    ensures |Empty(disk, d, lo, hi)| <= hi - from + 1
  {
    hide Slot;
    SlotsCount(from, hi);
    forall k | k in Empty(disk, d, lo, hi) && k != NDIRECT ensures k in Slots(from, hi) {
      var bn := if k < NDIRECT then k else k - 1;
      assert SlotOf(bn) == k && from <= bn < hi;
    }
    assert Empty(disk, d, lo, hi) <= Slots(from, hi) + {NDIRECT};
    hide Empty, Slots;
    SubsetCount(Empty(disk, d, lo, hi), Slots(from, hi) + {NDIRECT});
  }
}
