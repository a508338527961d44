/** Inodes and the blocks they own, over the flat block store: the on-disk inode, the free bitmap,
    the twelve direct block numbers and the indirect block, and the bytes of a file. */
module Inodes {
  import opened Blocks

  const NDIRECT := 12
  const NINDIRECT := 128
  const MAXFILE := 140
  const IPB := 8
  const NSLOTS := 141
  const T_DEV := 3

  /** The part of the superblock this layer uses. */
  datatype Superblock = Superblock(size: nat, ninodes: nat, inodestart: nat, bmapstart: nat)

  /** An inode as struct dinode lays it out in sixteen words: type and major, minor and nlink,
      size, twelve direct block numbers and the number of the indirect block. */
  datatype RawInode = RawInode(typeMajor: Word, minorNlink: Word, size: Word, addrs: seq<Word>)
  type Inode = d: RawInode | |d.addrs| == NDIRECT + 1 witness RawInode(0, 0, 0, seq(NDIRECT + 1, i => 0))

  function Type(d: Inode): nat {
    d.typeMajor % 0x1_0000
  }

  /** The first data block: after boot block, superblock, log, inodes and bitmap. */
  function DataStart(sb: Superblock): nat {
    sb.bmapstart + sb.size / BPB + 1
  }

  predicate SbOk(sb: Superblock) {
    && 0 < sb.inodestart && 0 < sb.ninodes
    && sb.inodestart + sb.ninodes / IPB < sb.bmapstart && DataStart(sb) <= sb.size < 0x1_0000_0000
  }

  // ----- the free bitmap -----

  function Bblock(sb: Superblock, b: nat): nat {
    sb.bmapstart + b / BPB
  }

  predicate Used(sb: Superblock, disk: Image, b: nat)
    requires SbOk(sb) && |disk| == sb.size && b < sb.size
  {
    BitAt(disk[Bblock(sb, b)], b % BPB)
  }

  /** The disk with block b marked in use. */
  function Marked(sb: Superblock, disk: Image, b: nat): (r: Image)
    requires SbOk(sb) && |disk| == sb.size && b < sb.size && !Used(sb, disk, b)
    ensures |r| == |disk| && (forall c: nat | c < sb.size :: Used(sb, r, c) == (c == b || Used(sb, disk, c)))
    ensures forall c: nat | c < sb.size && !(sb.bmapstart <= c < DataStart(sb)) :: r[c] == disk[c]
  {
    disk[Bblock(sb, b) := WithBit(disk[Bblock(sb, b)], b % BPB)]
  }

  /** The disk with block b marked free. */
  function Unmarked(sb: Superblock, disk: Image, b: nat): (r: Image)
    requires SbOk(sb) && |disk| == sb.size && b < sb.size && Used(sb, disk, b)
    ensures |r| == |disk| && (forall c: nat | c < sb.size :: Used(sb, r, c) == (c != b && Used(sb, disk, c)))
    ensures forall c: nat | c < sb.size && !(sb.bmapstart <= c < DataStart(sb)) :: r[c] == disk[c]
  {
    disk[Bblock(sb, b) := WithoutBit(disk[Bblock(sb, b)], b % BPB)]
  }

  // ----- inodes on disk -----

  function Iblock(sb: Superblock, i: nat): nat {
    sb.inodestart + i / IPB
  }

  function Decode(b: Block, slot: nat): (d: Inode)
    requires slot < IPB
  {
    var addrs := seq<Word>(NDIRECT + 1, k requires 0 <= k <= NDIRECT => WordAt(b, 16 * slot + 3 + k));
    RawInode(WordAt(b, 16 * slot), WordAt(b, 16 * slot + 1), WordAt(b, 16 * slot + 2), addrs)
  }

  function PutAddrs(b: Block, slot: nat, addrs: seq<Word>): (r: Block)
    requires slot < IPB && |addrs| <= NDIRECT + 1
    ensures forall k: nat | k < |addrs| :: WordAt(r, 16 * slot + 3 + k) == addrs[k]
    ensures forall w: nat | w < WORDS && !(16 * slot + 3 <= w < 16 * slot + 3 + |addrs|) :: WordAt(r, w) == WordAt(b, w)
  {
    hide WordAt, WithWord;
    if addrs == [] then b
    else WithWord(PutAddrs(b, slot, addrs[..|addrs| - 1]), 16 * slot + 2 + |addrs|, addrs[|addrs| - 1])
  }

  /** iupdate's copy of the in-memory inode into its place in the inode block. */
  function Encode(b: Block, slot: nat, d: Inode): (r: Block)
    requires slot < IPB
  {
    PutAddrs(WithWord(WithWord(WithWord(b, 16 * slot, d.typeMajor), 16 * slot + 1, d.minorNlink),
                      16 * slot + 2, d.size), slot, d.addrs)
  }

  /** The inode written is the inode read back, and the others in the block are untouched. */
  lemma EncodeDecode(b: Block, slot: nat, d: Inode, other: nat)
    requires slot < IPB && other < IPB
    ensures Decode(Encode(b, slot, d), other) == if other == slot then d else Decode(b, other)
  {
    hide WordAt, WithWord;
    var r := Encode(b, slot, d);
    var x := Decode(r, other);
    if other == slot {
      assert forall k: nat | k <= NDIRECT :: x.addrs[k] == d.addrs[k];
      assert x.addrs == d.addrs;
    } else {
      assert forall w: nat | 16 * other <= w < 16 * other + 16 :: WordAt(r, w) == WordAt(b, w);
      assert x.addrs == Decode(b, other).addrs;
    }
  }

  function DinodeAt(sb: Superblock, disk: Image, i: nat): (d: Inode)
    requires SbOk(sb) && |disk| == sb.size && i < sb.ninodes
  {
    Decode(disk[Iblock(sb, i)], i % IPB)
  }

  /** Every inode on the disk. */
  function Dinodes(sb: Superblock, disk: Image): (f: seq<Inode>)
    requires SbOk(sb) && |disk| == sb.size
    ensures |f| == sb.ninodes && forall i: nat | i < |f| :: f[i] == DinodeAt(sb, disk, i)
  {
    seq(sb.ninodes, i requires 0 <= i < sb.ninodes => DinodeAt(sb, disk, i))
  }

  // ----- the blocks an inode refers to -----

  /** The k-th block number an inode refers to, 0 for none: direct blocks, the indirect block
      (slot NDIRECT), and the entries of the indirect block. */
  function Slot(disk: Image, d: Inode, k: nat): (b: Word)
    requires k < NSLOTS
  {
    if k <= NDIRECT then d.addrs[k]
    else if d.addrs[NDIRECT] == 0 || d.addrs[NDIRECT] >= |disk| then 0
    else WordAt(disk[d.addrs[NDIRECT]], k - NDIRECT - 1)
  }

  /** The slot that holds the number of block bn of the file. */
  function SlotOf(bn: nat): (k: nat)
    requires bn < MAXFILE
    ensures k < NSLOTS && k != NDIRECT
  {
    if bn < NDIRECT then bn else bn + 1
  }

  /** Each block number that an inode refers to belongs to that slot alone. owner is exactly this
      relation: it maps every block referred to, and no other, to the one inode and slot that
      refer to it; and all of them are data blocks marked in use. */
  ghost predicate Owns(sb: Superblock, disk: Image, f: seq<Inode>, owner: map<nat, (nat, nat)>)
    requires SbOk(sb) && |disk| == sb.size
  {
    && (forall i: nat, k: nat | i < |f| && k < NSLOTS && Slot(disk, f[i], k) != 0 ::
          Slot(disk, f[i], k) in owner && owner[Slot(disk, f[i], k)] == (i, k))
    && (forall b | b in owner :: && DataStart(sb) <= b < sb.size && Used(sb, disk, b)
                                 && owner[b].0 < |f| && owner[b].1 < NSLOTS
                                 && Slot(disk, f[owner[b].0], owner[b].1) == b)
    && (forall b: nat | b < DataStart(sb) :: Used(sb, disk, b))
  }

  const MAXBYTES := 71680      // MAXFILE * BSIZE

  /** Byte p of the file, whatever its size; 0 where no block is allocated. */
  function FileByte(disk: Image, d: Inode, p: nat): Byte
    requires p < MAXBYTES
  {
    var b := Slot(disk, d, SlotOf(p / BSIZE));
    if b == 0 || b >= |disk| then 0 else disk[b][p % BSIZE]
  }

  /** No file has a byte that differs. */
  ghost predicate SameBytes(disk: Image, f: seq<Inode>, disk': Image, f': seq<Inode>) {
    |f| == |f'| && forall i: nat, p: nat | i < |f| && p < MAXBYTES ::
      FileByte(disk', f'[i], p) == FileByte(disk, f[i], p)
  }

  lemma SameBitmap(sb: Superblock, disk: Image, disk': Image)
    requires SbOk(sb) && |disk| == |disk'| == sb.size
    requires forall b: nat | sb.bmapstart <= b < DataStart(sb) :: disk'[b] == disk[b]
    ensures forall b: nat | b < sb.size :: Used(sb, disk', b) == Used(sb, disk, b)
  {
  }

  /** A block that is free is owned by nobody, so marking it and zeroing it disturbs no inode. */
  lemma TakenOwns(sb: Superblock, disk: Image, f: seq<Inode>, owner: map<nat, (nat, nat)>, b: nat)
    requires SbOk(sb) && |disk| == sb.size && Owns(sb, disk, f, owner) && b < sb.size && !Used(sb, disk, b)
    ensures var disk' := Marked(sb, disk, b)[b := ZERO];
            && DataStart(sb) <= b && b !in owner && Owns(sb, disk', f, owner) && Used(sb, disk', b)
            && SameBytes(disk, f, disk', f)
            && (forall i: nat, k: nat | i < |f| && k < NSLOTS :: Slot(disk', f[i], k) == Slot(disk, f[i], k))
  {
    hide WordAt, BitAt, Marked;
    var disk' := Marked(sb, disk, b)[b := ZERO];
    SameBitmap(sb, Marked(sb, disk, b), disk');
    assert forall c: nat | DataStart(sb) <= c < sb.size && c != b :: disk'[c] == disk[c];
    forall i: nat, k: nat | i < |f| && k < NSLOTS ensures Slot(disk', f[i], k) == Slot(disk, f[i], k) {
      var a := Slot(disk, f[i], NDIRECT);
      if k > NDIRECT && a != 0 {
        assert a in owner;
      }
    }
  }

  lemma ZeroWord(m: nat)
    requires m < WORDS
    ensures WordAt(ZERO, m) == 0
  {
  }

  /** Recording a taken block b in an empty direct slot, or as the indirect block. */
  lemma LinkAddr(sb: Superblock, disk: Image, f: seq<Inode>, owner: map<nat, (nat, nat)>, i: nat, k: nat, b: Word)
    requires SbOk(sb) && |disk| == sb.size && Owns(sb, disk, f, owner)
    requires i < |f| && k <= NDIRECT && f[i].addrs[k] == 0
    requires DataStart(sb) <= b < sb.size && Used(sb, disk, b) && b !in owner && disk[b] == ZERO
    ensures var f' := f[i := f[i].(addrs := f[i].addrs[k := b])];
            && Owns(sb, disk, f', owner[b := (i, k)]) && SameBytes(disk, f, disk, f')
            && (forall j: nat, m: nat | j < |f| && m < NSLOTS && (j, m) != (i, k) ::
                  Slot(disk, f'[j], m) == Slot(disk, f[j], m))
  {
    hide WordAt, Used;
    var f' := f[i := f[i].(addrs := f[i].addrs[k := b])];
    forall j: nat, m: nat | j < |f| && m < NSLOTS && (j, m) != (i, k)
      ensures Slot(disk, f'[j], m) == Slot(disk, f[j], m)
    {
      if j == i && k == NDIRECT && m > NDIRECT {
        ZeroWord(m - NDIRECT - 1);
      }
    }
    assert Slot(disk, f'[i], k) == b;
  }

  /** Recording a taken block b in an empty entry of the indirect block. */
  lemma LinkEntry(sb: Superblock, disk: Image, f: seq<Inode>, owner: map<nat, (nat, nat)>, i: nat, m: nat, b: Word)
    requires SbOk(sb) && |disk| == sb.size && Owns(sb, disk, f, owner)
    requires i < |f| && m < NINDIRECT && f[i].addrs[NDIRECT] != 0 && Slot(disk, f[i], NDIRECT + 1 + m) == 0
    requires DataStart(sb) <= b < sb.size && Used(sb, disk, b) && b !in owner && disk[b] == ZERO
    ensures Slot(disk, f[i], NDIRECT) in owner && f[i].addrs[NDIRECT] < |disk|
    ensures var a := f[i].addrs[NDIRECT]; var disk' := disk[a := WithWord(disk[a], m, b)];
            && Owns(sb, disk', f, owner[b := (i, NDIRECT + 1 + m)]) && SameBytes(disk, f, disk', f)
            && (forall j: nat, k: nat | j < |f| && k < NSLOTS && (j, k) != (i, NDIRECT + 1 + m) ::
                  Slot(disk', f[j], k) == Slot(disk, f[j], k))
            && Slot(disk', f[i], NDIRECT + 1 + m) == b
  {
    hide WordAt, Used;
    assert Slot(disk, f[i], NDIRECT) in owner;
    var a := f[i].addrs[NDIRECT];
    var disk' := disk[a := WithWord(disk[a], m, b)];
    SameBitmap(sb, disk, disk');
    forall j: nat, k: nat | j < |f| && k < NSLOTS && (j, k) != (i, NDIRECT + 1 + m)
      ensures Slot(disk', f[j], k) == Slot(disk, f[j], k)
    {
      assert j != i ==> Slot(disk, f[j], NDIRECT) != a;
    }
  }

  /** Writing a data block of file i changes that block of that file and nothing else. */
  lemma WriteData(sb: Superblock, disk: Image, f: seq<Inode>, owner: map<nat, (nat, nat)>, i: nat, bn: nat, x: Block,
                  disk': Image)
    requires SbOk(sb) && |disk| == sb.size && Owns(sb, disk, f, owner)
    requires i < |f| && bn < MAXFILE && 0 != Slot(disk, f[i], SlotOf(bn)) < |disk|
    requires disk' == disk[Slot(disk, f[i], SlotOf(bn)) := x]
    ensures Owns(sb, disk', f, owner)
    ensures Dinodes(sb, disk') == Dinodes(sb, disk)
    ensures forall j: nat, k: nat | j < |f| && k < NSLOTS :: Slot(disk', f[j], k) == Slot(disk, f[j], k)
    ensures forall p: nat | p < MAXBYTES && p / BSIZE == bn :: FileByte(disk', f[i], p) == x[p % BSIZE]
    ensures forall j: nat, p: nat | j < |f| && p < MAXBYTES && !(j == i && p / BSIZE == bn) ::
              FileByte(disk', f[j], p) == FileByte(disk, f[j], p)
  {
    hide WordAt, Used;
    var b := Slot(disk, f[i], SlotOf(bn));
    assert b in owner;
    SameBitmap(sb, disk, disk');
    SameInodes(sb, disk, disk');
    forall j: nat, k: nat | j < |f| && k < NSLOTS ensures Slot(disk', f[j], k) == Slot(disk, f[j], k) {
      assert Slot(disk, f[j], NDIRECT) != b;
    }
    forall j: nat, p: nat | j < |f| && p < MAXBYTES && !(j == i && p / BSIZE == bn)
      ensures FileByte(disk', f[j], p) == FileByte(disk, f[j], p)
    {
      assert Slot(disk, f[j], SlotOf(p / BSIZE)) != b;
    }
  }

  lemma SameInodes(sb: Superblock, disk: Image, disk': Image)
    requires SbOk(sb) && |disk| == |disk'| == sb.size
    requires forall b: nat | sb.inodestart <= b < sb.bmapstart :: disk'[b] == disk[b]
    ensures Dinodes(sb, disk') == Dinodes(sb, disk)
  {
  }

  /** Writing an inode block disturbs no block any inode refers to. */
  lemma WriteInode(sb: Superblock, disk: Image, f: seq<Inode>, owner: map<nat, (nat, nat)>, i: nat, d: Inode)
    requires SbOk(sb) && |disk| == sb.size && Owns(sb, disk, f, owner) && i < sb.ninodes
    ensures var disk' := disk[Iblock(sb, i) := Encode(disk[Iblock(sb, i)], i % IPB, d)];
            && Owns(sb, disk', f, owner) && SameBytes(disk, f, disk', f)
            && Dinodes(sb, disk') == Dinodes(sb, disk)[i := d]
            && (forall j: nat, k: nat | j < |f| && k < NSLOTS :: Slot(disk', f[j], k) == Slot(disk, f[j], k))
  {
    hide WordAt, Used, Encode, Decode;
    var disk' := disk[Iblock(sb, i) := Encode(disk[Iblock(sb, i)], i % IPB, d)];
    SameBitmap(sb, disk, disk');
    forall j: nat, k: nat | j < |f| && k < NSLOTS ensures Slot(disk', f[j], k) == Slot(disk, f[j], k) {
      var a := Slot(disk, f[j], NDIRECT);
      assert a != 0 ==> a in owner;
    }
    forall j: nat, p: nat | j < |f| && p < MAXBYTES ensures FileByte(disk', f[j], p) == FileByte(disk, f[j], p) {
      var b := Slot(disk, f[j], SlotOf(p / BSIZE));
      assert b != 0 ==> b in owner;
    }
    forall j: nat | j < sb.ninodes ensures DinodeAt(sb, disk', j) == if j == i then d else DinodeAt(sb, disk, j) {
      EncodeDecode(disk[Iblock(sb, i)], i % IPB, d, j % IPB);
    }
  }

  /** An inode that refers to nothing. */
  function Cleared(d: Inode): (r: Inode) {
    var none: seq<Word> := seq(NDIRECT + 1, k => 0);
    RawInode(d.typeMajor, d.minorNlink, 0, none)
  }

  ghost function OwnedBy(owner: map<nat, (nat, nat)>, i: nat): set<nat> {
    set b | b in owner && owner[b].0 == i
  }

  /** What belongs to inodes other than i. */
  ghost function Foreign(owner: map<nat, (nat, nat)>, i: nat): map<nat, (nat, nat)> {
    owner - OwnedBy(owner, i)
  }

  /** Every inode but the i-th refers to the same blocks. */
  ghost predicate SameBlocks(d0: Image, f0: seq<Inode>, d1: Image, f1: seq<Inode>, i: nat) {
    |f0| == |f1| && forall j: nat, k: nat | j < |f0| && j != i && k < NSLOTS :: Slot(d1, f1[j], k) == Slot(d0, f0[j], k)
  }

  /** While inodes other than i own what they owned, they refer to the blocks they referred to. */
  lemma OthersKept(sb: Superblock, d0: Image, f0: seq<Inode>, own0: map<nat, (nat, nat)>,
                   d1: Image, f1: seq<Inode>, own1: map<nat, (nat, nat)>, i: nat)
    requires SbOk(sb) && |d0| == |d1| == sb.size && Owns(sb, d0, f0, own0) && Owns(sb, d1, f1, own1)
    requires |f0| == |f1| && Foreign(own0, i) == Foreign(own1, i)
    ensures SameBlocks(d0, f0, d1, f1, i)
  {
    hide Slot, Used;
    forall j: nat, k: nat | j < |f0| && j != i && k < NSLOTS ensures Slot(d1, f1[j], k) == Slot(d0, f0[j], k) {
      var b0, b1 := Slot(d0, f0[j], k), Slot(d1, f1[j], k);
      assert b0 != 0 ==> b0 in Foreign(own0, i) && own1[b0] == (j, k);
      assert b1 != 0 ==> b1 in Foreign(own1, i) && own0[b1] == (j, k);
    }
  }

  /** Forgetting everything inode i refers to leaves the others as they are. */
  lemma Detach(sb: Superblock, disk: Image, f: seq<Inode>, owner: map<nat, (nat, nat)>, i: nat)
    requires SbOk(sb) && |disk| == sb.size && Owns(sb, disk, f, owner) && i < |f|
    ensures Owns(sb, disk, f[i := Cleared(f[i])], owner - OwnedBy(owner, i))
  {
    hide WordAt, Used;
    var f', owner' := f[i := Cleared(f[i])], owner - OwnedBy(owner, i);
    forall k: nat | k < NSLOTS ensures Slot(disk, f'[i], k) == 0 {}
  }

  /** Freeing a block nobody owns disturbs no inode. */
  lemma FreeUnowned(sb: Superblock, disk: Image, f: seq<Inode>, owner: map<nat, (nat, nat)>, b: nat)
    requires SbOk(sb) && |disk| == sb.size && Owns(sb, disk, f, owner)
    requires DataStart(sb) <= b < sb.size && Used(sb, disk, b) && b !in owner
    ensures var disk' := Unmarked(sb, disk, b);
            Owns(sb, disk', f, owner) && SameBytes(disk, f, disk', f) && Dinodes(sb, disk') == Dinodes(sb, disk)
  {
    hide WordAt, Used, Unmarked;
    var disk' := Unmarked(sb, disk, b);
    SameInodes(sb, disk, disk');
    forall j: nat, k: nat | j < |f| && k < NSLOTS ensures Slot(disk', f[j], k) == Slot(disk, f[j], k) {
      var a := Slot(disk, f[j], NDIRECT);
      assert a != 0 ==> a in owner;
    }
    forall j: nat, p: nat | j < |f| && p < MAXBYTES ensures FileByte(disk', f[j], p) == FileByte(disk, f[j], p) {
      var c := Slot(disk, f[j], SlotOf(p / BSIZE));
      assert c != 0 ==> c in owner;
    }
  }
}
