/** The operations on inode contents: block allocation, block mapping, truncation, and reading and
    writing byte ranges, over the flat block store that the buffer cache provides. */
module Fs {
  import opened Blocks
  import opened Common
  import opened Counting
  import opened Inodes
  import opened Space
  import opened Truncate
  import Wal

  /** struct inode: the in-memory copy of an inode. */
  class InodeCopy {
    const inum: nat
    var v: Inode

    constructor (inum: nat, v: Inode)
      ensures this.inum == inum && this.v == v
    {
      this.inum, this.v := inum, v;
    }
  }

  class FileSystem {
    const sb: Superblock
    var disk: Image
    ghost var owner: map<nat, (nat, nat)>    // which inode and slot refer to a block
    ghost var start: Image                   // the disk when the current operation began
    var writes: seq<Wal.Update>              // the blocks it has given to log_write, in order
    ghost var logged: set<nat>               // which blocks these are
    ghost var ops: seq<set<nat>>             // what the operations that ended had logged

    constructor (sb: Superblock, disk: Image, ghost owner: map<nat, (nat, nat)>)
      ensures this.sb == sb && this.disk == disk && this.owner == owner
      ensures start == disk && writes == [] && logged == {} && ops == []
      ensures SbOk(sb) && |disk| == sb.size ==> Shape()
    {
      this.sb, this.disk, this.owner, start, writes, logged, ops := sb, disk, owner, disk, [], {}, [];
    }

    /** The disk has its size, and is what it was when the operation began but for the blocks that
        were given to log_write. */
    ghost predicate Shape()
      reads this
    {
      SbOk(sb) && |disk| == sb.size && History(start, disk, writes, logged)
    }

    /** All inodes, the one in memory as it is there. */
    ghost function Files(ip: InodeCopy): (f: seq<Inode>)
      reads this, ip
      requires Shape() && ip.inum < sb.ninodes
      ensures |f| == sb.ninodes && f[ip.inum] == ip.v
    {
      Dinodes(sb, disk)[ip.inum := ip.v]
    }

    ghost predicate Valid(ip: InodeCopy)
      reads this, ip
    {
      Shape() && ip.inum < sb.ninodes && Owns(sb, disk, Files(ip), owner)
    }

    /** bread and log_write around a change of one block. */
    method LogBlock(b: nat, data: Block)
      requires Shape() && b < |disk|
      modifies this`disk, this`logged, this`writes
      ensures Shape() && disk == old(disk)[b := data] && logged == old(logged) + {b}
    {
      HistoryMore(start, disk, writes, logged, b, data);
      disk, writes, logged := disk[b := data], writes + [Wal.Update(b, data)], logged + {b};
    }

    /** The two loops of balloc: the first free block, if any. */
    method FindFree() returns (r: Option<nat>)
      requires Shape()
      ensures r.Some? ==> && r.value < sb.size && !Used(sb, disk, r.value)
                          && forall c: nat | c < r.value :: Used(sb, disk, c)
      ensures r.None? ==> forall c: nat | c < sb.size :: Used(sb, disk, c)
    {
      hide BitOf, History;
      var b := 0;
      while b < sb.size
        invariant b % BPB == 0
        invariant forall c: nat | c < b && c < sb.size :: Used(sb, disk, c)
      {
        var data := disk[Bblock(sb, b)];
        var bi := 0;
        while bi < BPB && b + bi < sb.size
          invariant 0 <= bi <= BPB
          invariant forall c: nat | c < b + bi && c < sb.size :: Used(sb, disk, c)
        {
          assert (b + bi) / BPB == b / BPB && (b + bi) % BPB == bi;
          if !BitAt(data, bi) {
            return Some(b + bi);
          }
          bi := bi + 1;
        }
        b := b + BPB;
      }
      return None;
    }

    /** balloc: the first free block, marked in use and zeroed. None is the panic for want of a
        free block. */
    method Balloc() returns (r: Option<Word>)
      requires Shape()
      modifies this`disk, this`logged, this`writes
      ensures Shape()
      ensures r.None? <==> forall c: nat | c < sb.size :: Used(sb, old(disk), c)
      ensures r.None? ==> disk == old(disk) && logged == old(logged)
      ensures r.Some? ==> && r.value < sb.size && !Used(sb, old(disk), r.value)
                          && (forall c: nat | c < r.value :: Used(sb, old(disk), c))
                          && disk == Marked(sb, old(disk), r.value)[r.value := ZERO]
                          && logged == old(logged) + {Bblock(sb, r.value), r.value}
    {
      hide BitAt, History;
      var free := FindFree();
      if free.None? {
        return None;
      }
      var b := free.value;
      LogBlock(Bblock(sb, b), WithBit(disk[Bblock(sb, b)], b % BPB));
      LogBlock(b, ZERO);
      return Some(b);
    }

    /** bfree: false is the panic for a block that is free already. */
    method Bfree(b: nat) returns (ok: bool)
      requires Shape() && b < sb.size
      modifies this`disk, this`logged, this`writes
      ensures Shape()
      ensures ok <==> Used(sb, old(disk), b)
      ensures !ok ==> disk == old(disk)
      ensures ok ==> disk == Unmarked(sb, old(disk), b)
    {
      hide BitOf, History;
      var data := disk[Bblock(sb, b)];
      if !BitAt(data, b % BPB) {
        return false;
      }
      LogBlock(Bblock(sb, b), WithoutBit(data, b % BPB));
      return true;
    }

    /** Whatever bmap does, no file's bytes and no inode on disk change, of the inode in memory only
        block numbers that were missing, and other inodes own what they owned. */
    twostate predicate OnlyGrows(ip: InodeCopy, k: nat)
      reads this, ip
    {
      && old(Shape()) && Shape() && ip.inum < sb.ninodes && k < NSLOTS
      && Dinodes(sb, disk) == Dinodes(sb, old(disk))
      && SameBytes(old(disk), old(Files(ip)), disk, Files(ip))
      && ip.v == old(ip.v).(addrs := ip.v.addrs) && Foreign(owner, ip.inum) == Foreign(old(owner), ip.inum)
      && (forall m: nat | m < NSLOTS && m != k && m != NDIRECT :: Slot(disk, ip.v, m) == Slot(old(disk), old(ip.v), m))
    }

    /** balloc on behalf of an inode: the block is nobody's yet. */
    method Take(ip: InodeCopy) returns (r: Option<Word>)
      requires Valid(ip)
      modifies this`disk, this`logged, this`writes
      ensures Valid(ip) && OnlyGrows(ip, 0)
      ensures r.None? <==> forall c: nat | c < sb.size :: Used(sb, old(disk), c)
      ensures r.None? ==> disk == old(disk) && logged == old(logged)
      ensures r.Some? ==> && DataStart(sb) <= r.value < sb.size && r.value !in owner && r.value != 0
                          && Used(sb, disk, r.value) && disk[r.value] == ZERO
                          && logged == old(logged) + {Bblock(sb, r.value), r.value}
                          && !Used(sb, old(disk), r.value)
                          && forall c: nat | c < sb.size ::
                               Used(sb, disk, c) == (c == r.value || Used(sb, old(disk), c))
      ensures forall m: nat | m < NSLOTS :: Slot(disk, ip.v, m) == Slot(old(disk), ip.v, m)
    {
      hide Used, WordAt, Marked, Owns, SameBytes, History, Foreign;
      r := Balloc();
      if r.Some? {
        TakenOwns(sb, old(disk), old(Files(ip)), owner, r.value);
        SameBitmap(sb, Marked(sb, old(disk), r.value), disk);
        SameInodes(sb, old(disk), disk);
      } else {
        SameBytesRefl(disk, Files(ip));
      }
    }

    /** ip->addrs[k] = balloc(), for a direct block or for the indirect block. */
    method AddAddr(ip: InodeCopy, k: nat, ghost bn: nat) returns (r: Option<Word>)
      requires Valid(ip) && k <= NDIRECT && ip.v.addrs[k] == 0 && Wanted(k, bn, bn + 1)
      modifies this`disk, this`logged, this`writes, this`owner, ip
      ensures Valid(ip) && OnlyGrows(ip, k)
      ensures Grew(sb, old(disk), old(ip.v), disk, ip.v, bn, bn + 1)
      ensures r.None? ==> disk == old(disk) && ip.v == old(ip.v) && forall c: nat | c < sb.size :: Used(sb, disk, c)
      ensures r.Some? ==> && r.value != 0 && r.value < sb.size && ip.v.addrs == old(ip.v.addrs)[k := r.value]
                          && Slot(disk, ip.v, k) == r.value
                          && logged <= old(logged) + {r.value} + Marks(sb, old(disk), disk)
    {
      hide Used, WordAt, Marked, Owns, SameBytes, History, Grew, Foreign, Marks;
      r := Take(ip);
      if r.Some? {
        ghost var f := Files(ip);
        LinkAddr(sb, disk, f, owner, ip.inum, k, r.value);
        ForeignAdd(owner, ip.inum, k, r.value);
        owner := owner[r.value := (ip.inum, k)];
        ip.v := ip.v.(addrs := ip.v.addrs[k := r.value]);
        assert Files(ip) == f[ip.inum := f[ip.inum].(addrs := f[ip.inum].addrs[k := r.value])];
        SameBytesTrans(old(disk), old(Files(ip)), disk, f, disk, Files(ip));
        GrewOne(sb, old(disk), old(ip.v), disk, ip.v, k, r.value, bn, bn + 1);
        MarkedOne(sb, old(disk), disk, r.value);
      } else {
        GrewNone(sb, old(disk), old(ip.v), disk, ip.v, bn, bn + 1);
      }
    }

    /** a[m] = balloc() in the indirect block. */
    method AddEntry(ip: InodeCopy, m: nat) returns (r: Option<Word>)
      requires Valid(ip) && m < NINDIRECT && ip.v.addrs[NDIRECT] != 0 && Slot(disk, ip.v, NDIRECT + 1 + m) == 0
      modifies this`disk, this`logged, this`writes, this`owner
      ensures Valid(ip) && OnlyGrows(ip, NDIRECT + 1 + m)
      ensures Grew(sb, old(disk), old(ip.v), disk, ip.v, NDIRECT + m, NDIRECT + m + 1)
      ensures r.None? ==> disk == old(disk) && forall c: nat | c < sb.size :: Used(sb, disk, c)
      ensures r.Some? ==> && r.value != 0 && r.value < sb.size && Slot(disk, ip.v, NDIRECT + 1 + m) == r.value
                          && logged <= old(logged) + {r.value, ip.v.addrs[NDIRECT]} + Marks(sb, old(disk), disk)
    {
      hide Used, WordAt, Marked, Owns, SameBytes, History, Grew, Foreign, Marks;
      r := Take(ip);
      if r.Some? {
        ghost var before := disk;
        LinkEntry(sb, disk, Files(ip), owner, ip.inum, m, r.value);
        var a := ip.v.addrs[NDIRECT];
        DataBlock(sb, disk, Files(ip), owner, ip.inum, NDIRECT);
        LogBlock(a, WithWord(disk[a], m, r.value));
        ForeignAdd(owner, ip.inum, NDIRECT + 1 + m, r.value);
        owner := owner[r.value := (ip.inum, NDIRECT + 1 + m)];
        SameInodes(sb, before, disk);
        SameBytesTrans(old(disk), old(Files(ip)), before, old(Files(ip)), disk, Files(ip));
        SameBitmap(sb, before, disk);
        GrewOne(sb, old(disk), old(ip.v), disk, ip.v, NDIRECT + 1 + m, r.value, NDIRECT + m, NDIRECT + m + 1);
        MarkedOne(sb, old(disk), disk, r.value);
      } else {
        GrewNone(sb, old(disk), old(ip.v), disk, ip.v, NDIRECT + m, NDIRECT + m + 1);
      }
    }

    /** bmap: the number of block bn of the file, allocating it (and the indirect block) if it has
        none. None is one of the panics: bn beyond the largest file, or no free block. */
    method Bmap(ip: InodeCopy, bn: nat) returns (r: Option<Word>)
      requires Valid(ip)
      modifies this`disk, this`logged, this`writes, this`owner, ip
      ensures Valid(ip)
      ensures bn >= MAXFILE ==> r.None? && disk == old(disk) && ip.v == old(ip.v)
      ensures r.None? && bn < MAXFILE ==> forall c: nat | c < sb.size :: Used(sb, disk, c)
      ensures r.None? && bn < MAXFILE ==> Slot(disk, ip.v, SlotOf(bn)) == 0
      ensures SameBlocks(old(disk), old(Files(ip)), disk, Files(ip), ip.inum)
      ensures bn < MAXFILE ==> OnlyGrows(ip, SlotOf(bn)) && Grew(sb, old(disk), old(ip.v), disk, ip.v, bn, bn + 1)
      ensures r.Some? ==> bn < MAXFILE && r.value != 0 && r.value == Slot(disk, ip.v, SlotOf(bn))
      ensures bn < MAXFILE && Slot(old(disk), old(ip.v), SlotOf(bn)) != 0 ==>
                r.Some? && disk == old(disk) && ip.v == old(ip.v) && logged == old(logged) && owner == old(owner)
      ensures r.Some? ==> logged <= old(logged) + {r.value} + Indirect(ip.v) + Marks(sb, old(disk), disk)
    {
      hide Used, WordAt, Marked, Owns, SameBytes, History, Grew, Foreign, Marks;
      if bn < NDIRECT {
        if ip.v.addrs[bn] == 0 {
          r := AddAddr(ip, bn, bn);
        } else {
          SameBytesRefl(disk, Files(ip));
          GrewNone(sb, disk, ip.v, disk, ip.v, bn, bn + 1);
          r := Some(ip.v.addrs[bn]);
        }
      } else if bn < MAXFILE {
        r := BmapIndirect(ip, bn - NDIRECT);
      } else {
        r := None;
      }
      OthersKept(sb, old(disk), old(Files(ip)), old(owner), disk, Files(ip), owner, ip.inum);
    }

    /** The second half of bmap. */
    method BmapIndirect(ip: InodeCopy, m: nat) returns (r: Option<Word>)
      requires Valid(ip) && m < NINDIRECT
      modifies this`disk, this`logged, this`writes, this`owner, ip
      ensures Valid(ip) && OnlyGrows(ip, NDIRECT + 1 + m)
      ensures Grew(sb, old(disk), old(ip.v), disk, ip.v, NDIRECT + m, NDIRECT + m + 1)
      ensures r.None? ==> Slot(disk, ip.v, NDIRECT + 1 + m) == 0 && forall c: nat | c < sb.size :: Used(sb, disk, c)
      ensures r.Some? ==> r.value != 0 && r.value == Slot(disk, ip.v, NDIRECT + 1 + m)
      ensures Slot(old(disk), old(ip.v), NDIRECT + 1 + m) != 0 ==>
                r.Some? && disk == old(disk) && ip.v == old(ip.v) && logged == old(logged) && owner == old(owner)
      ensures r.Some? ==> logged <= old(logged) + {r.value} + Indirect(ip.v) + Marks(sb, old(disk), disk)
    {
      hide Used, WordAt, Marked, Owns, SameBytes, History, Grew, Foreign, Marks;
      if ip.v.addrs[NDIRECT] == 0 {
        var a := AddAddr(ip, NDIRECT, NDIRECT + m);
        if a.None? {
          return None;
        }
      } else {
        SameBytesRefl(disk, Files(ip));
        GrewNone(sb, disk, ip.v, disk, ip.v, NDIRECT + m, NDIRECT + m + 1);
      }
      ghost var d1, f1, v1 := disk, Files(ip), ip.v;
      DataBlock(sb, disk, Files(ip), owner, ip.inum, NDIRECT);
      var entry := WordAt(disk[ip.v.addrs[NDIRECT]], m);
      if entry == 0 {
        r := AddEntry(ip, m);
        SameBytesTrans(old(disk), old(Files(ip)), d1, f1, disk, Files(ip));
        GrewTrans(sb, old(disk), old(ip.v), d1, v1, disk, ip.v, NDIRECT + m, NDIRECT + m + 1,
                  NDIRECT + m, NDIRECT + m + 1, NDIRECT + m, NDIRECT + m + 1);
        MarksMore(sb, old(disk), old(ip.v), d1, v1, disk, ip.v, NDIRECT + m, NDIRECT + m + 1, NDIRECT + m,
                  NDIRECT + m + 1);
      } else {
        r := Some(entry);
      }
    }

    /** iupdate: the inode on disk becomes the one in memory. */
    method Iupdate(ip: InodeCopy)
      requires Valid(ip)
      modifies this`disk, this`logged, this`writes
      ensures Valid(ip) && Dinodes(sb, disk) == Dinodes(sb, old(disk))[ip.inum := ip.v]
      ensures SameBytes(old(disk), old(Files(ip)), disk, Files(ip))
      ensures forall k: nat | k < NSLOTS :: Slot(disk, ip.v, k) == Slot(old(disk), ip.v, k)
      ensures logged == old(logged) + {Iblock(sb, ip.inum)}
      ensures forall b: nat | b < sb.size && b != Iblock(sb, ip.inum) :: disk[b] == old(disk)[b]
    {
      hide Used, WordAt, Owns, SameBytes, Encode, Decode, History;
      WriteInode(sb, disk, Files(ip), owner, ip.inum, ip.v);
      LogBlock(Iblock(sb, ip.inum), Encode(disk[Iblock(sb, ip.inum)], ip.inum % IPB, ip.v));
      assert Files(ip) == old(Files(ip));
    }

    /** readi: the bytes of the file from off, as many as asked for and as there are, zeros where the
        file has no block. No byte of any file changes, and nothing at all in a file without holes; a
        hole makes bmap allocate, and NoBlock is its panic when there are too few free blocks. */
    method Readi(ip: InodeCopy, off: Word, n: Word) returns (r: ReadResult)
      requires Valid(ip) && ip.v.size <= MAXBYTES
      modifies this`disk, this`logged, this`writes, this`owner, ip
      ensures Valid(ip) && ip.v == old(ip.v).(addrs := ip.v.addrs)
      ensures SameBytes(old(disk), old(Files(ip)), disk, Files(ip)) && Dinodes(sb, disk) == Dinodes(sb, old(disk))
      ensures Foreign(owner, ip.inum) == Foreign(old(owner), ip.inum)
      ensures NoHoles(old(disk), old(ip.v)) ==>
                disk == old(disk) && owner == old(owner) && ip.v == old(ip.v) && !r.NoBlock?
      ensures SameBlocks(old(disk), old(Files(ip)), disk, Files(ip), ip.inum)
      ensures r.ReadDevice? <==> Type(ip.v) == T_DEV
      ensures r.ReadError? <==> Type(ip.v) != T_DEV && (off > ip.v.size || off + n >= 0x1_0000_0000)
      ensures r.NoBlock? <==> && Type(ip.v) != T_DEV && off <= ip.v.size && off + n < 0x1_0000_0000
                              && TooFew(sb, old(disk), old(ip.v), off, Min(n, ip.v.size - off))
      ensures r.Bytes? ==> r.data == Contents(old(disk), old(ip.v))[off..Min(off + n, ip.v.size)]
    {
      hide Used, WordAt, Owns, SameBytes, Slot, FileByte, History, TooFew, NoHoles, Contents, Dinodes, Foreign;
      SameBytesRefl(disk, Files(ip));
      if Type(ip.v) == T_DEV {
        return ReadDevice;
      }
      if off > ip.v.size || (off + n) % 0x1_0000_0000 < off {
        return ReadError;
      }
      var n' := if off + n > ip.v.size then ip.v.size - off else n;
      var data := ReadBytes(ip, off, n');
      OthersKept(sb, old(disk), old(Files(ip)), old(owner), disk, Files(ip), owner, ip.inum);
      return if data.None? then NoBlock else Bytes(data.value);
    }

    /** The loop of readi. */
    method ReadBytes(ip: InodeCopy, off: nat, n: nat) returns (r: Option<seq<Byte>>)
      requires Valid(ip) && off + n <= ip.v.size <= MAXBYTES
      modifies this`disk, this`logged, this`writes, this`owner, ip
      ensures Valid(ip) && ip.v == old(ip.v).(addrs := ip.v.addrs)
      ensures SameBytes(old(disk), old(Files(ip)), disk, Files(ip)) && Dinodes(sb, disk) == Dinodes(sb, old(disk))
      ensures Foreign(owner, ip.inum) == Foreign(old(owner), ip.inum)
      ensures NoHoles(old(disk), old(ip.v)) ==> disk == old(disk) && owner == old(owner) && ip.v == old(ip.v) && r.Some?
      ensures r.None? <==> TooFew(sb, old(disk), old(ip.v), off, n)
      ensures r.Some? ==> r.value == Contents(old(disk), old(ip.v))[off..off + n]
    {
      hide Used, WordAt, Owns, SameBytes, Slot, FileByte, History, Supplied, TooFew, Through, Free, NoHoles, Contents,
           Dinodes, DinodeAt, Type, Foreign;
      ghost var c := Contents(disk, ip.v);
      SameBytesRefl(disk, Files(ip));
      SuppliedNone(sb, disk, ip.v, off);
      var tot, data := 0, [];
      while tot < n
        invariant 0 <= tot <= n && Valid(ip) && ip.v == old(ip.v).(addrs := ip.v.addrs)
        invariant NoHoles(old(disk), old(ip.v)) ==> disk == old(disk) && owner == old(owner) && ip.v == old(ip.v)
        invariant SameBytes(old(disk), old(Files(ip)), disk, Files(ip)) && Dinodes(sb, disk) == Dinodes(sb, old(disk))
        invariant Foreign(owner, ip.inum) == Foreign(old(owner), ip.inum)
        invariant Supplied(sb, old(disk), old(ip.v), disk, ip.v, off, tot)
        invariant data == c[off..off + tot]
      {
        var m := Min(n - tot, BSIZE - (off + tot) % BSIZE);
        ghost var d1, f1, v1 := disk, Files(ip), ip.v;
        var chunk := ReadChunk(ip, off + tot, m);
        SameBytesTrans(old(disk), old(Files(ip)), d1, f1, disk, Files(ip));
        if chunk.None? {
          OutOfSpace(sb, old(disk), old(ip.v), d1, v1, disk, ip.v, off, tot, m, n);
          return None;
        }
        OneBlockMore(sb, old(disk), old(ip.v), d1, v1, disk, ip.v, off, tot, m);
        SameContents(old(disk), old(ip.v), old(Files(ip)), d1, v1, f1, ip.inum);
        SliceMore(c, off, off + tot, off + tot + m);
        data, tot := data + chunk.value, tot + m;
      }
      EnoughBlocks(sb, old(disk), old(ip.v), disk, ip.v, off, n);
      return Some(data);
    }

    /** The loop body of readi: m bytes from offset o, which stay within one block. None is bmap's
        panic. */
    method ReadChunk(ip: InodeCopy, o: nat, m: nat) returns (data: Option<seq<Byte>>)
      requires Valid(ip) && ip.v.size <= MAXBYTES && 0 < m && o + m <= ip.v.size && o % BSIZE + m <= BSIZE
      modifies this`disk, this`logged, this`writes, this`owner, ip
      ensures Valid(ip) && ip.v == old(ip.v).(addrs := ip.v.addrs)
      ensures SameBytes(old(disk), old(Files(ip)), disk, Files(ip)) && Dinodes(sb, disk) == Dinodes(sb, old(disk))
      ensures Foreign(owner, ip.inum) == Foreign(old(owner), ip.inum)
      ensures NoHoles(old(disk), old(ip.v)) ==>
                disk == old(disk) && owner == old(owner) && ip.v == old(ip.v) && data.Some?
      ensures Grew(sb, old(disk), old(ip.v), disk, ip.v, o / BSIZE, o / BSIZE + 1)
      ensures data.None? <==> Slot(disk, ip.v, SlotOf(o / BSIZE)) == 0
      ensures data.None? ==> forall c: nat | c < sb.size :: Used(sb, disk, c)
      ensures data.Some? ==> data.value == Contents(old(disk), old(ip.v))[o..o + m]
    {
      hide Used, WordAt, Owns, SameBytes, Slot, FileByte, History, Grew, Foreign, SameBlocks, Marks;
      assert o / BSIZE * BSIZE <= o;
      var b := Bmap(ip, o / BSIZE);
      if b.None? {
        return None;
      }
      DataBlock(sb, disk, Files(ip), owner, ip.inum, SlotOf(o / BSIZE));
      ContentsInBlock(disk, ip.v, o, m);
      SameContents(old(disk), old(ip.v), old(Files(ip)), disk, ip.v, Files(ip), ip.inum);
      return Some(disk[b.value][o % BSIZE..o % BSIZE + m]);
    }

    /** The loop body of writei: copy data, which stays within one block, to offset o of the file.
        False is bmap's panic for want of a free block. */
    method WriteChunk(ip: InodeCopy, o: nat, data: seq<Byte>) returns (ok: bool)
      requires Valid(ip) && o < MAXBYTES && o % BSIZE + |data| <= BSIZE
      modifies this`disk, this`logged, this`writes, this`owner, ip
      ensures Valid(ip) && ip.v == old(ip.v).(addrs := ip.v.addrs)
      ensures !ok ==> forall c: nat | c < sb.size :: Used(sb, disk, c)
      ensures Dinodes(sb, disk) == Dinodes(sb, old(disk))
      ensures Grew(sb, old(disk), old(ip.v), disk, ip.v, o / BSIZE, o / BSIZE + 1)
      ensures ok ==> WroteBytes(old(disk), old(Files(ip)), disk, Files(ip), ip.inum, o, data)
      ensures ok <==> Slot(disk, ip.v, SlotOf(o / BSIZE)) != 0
      ensures Foreign(owner, ip.inum) == Foreign(old(owner), ip.inum)
      ensures ok ==>
                logged <= old(logged) + {Slot(disk, ip.v, SlotOf(o / BSIZE))} + Indirect(ip.v) +
                          Marks(sb, old(disk), disk)
    {
      hide Used, WordAt, Owns, SameBytes, Slot, WroteBytes, History, Grew, Foreign, SameBlocks, Marks;
      var r := Bmap(ip, o / BSIZE);
      if r.None? {
        return false;
      }
      ghost var bn, d1, f1 := o / BSIZE, disk, Files(ip);
      DataBlock(sb, disk, f1, owner, ip.inum, SlotOf(bn));
      LogBlock(r.value, Overlay(disk[r.value], o % BSIZE, data));
      ChunkWritten(sb, d1, f1, owner, ip.inum, o, data, disk);
      assert Files(ip) == f1;
      SameThenWrote(old(disk), old(Files(ip)), d1, f1, disk, ip.inum, o, data);
      SameBitmap(sb, d1, disk);
      GrewNone(sb, d1, ip.v, disk, ip.v, bn, bn + 1);
      GrewTrans(sb, old(disk), old(ip.v), d1, ip.v, disk, ip.v, bn, bn + 1, bn, bn + 1, bn, bn + 1);
      MarksMore(sb, old(disk), old(ip.v), d1, ip.v, disk, ip.v, bn, bn + 1, bn, bn + 1);
      return true;
    }

    /** writei: the bytes of the file from off on become src, and the file grows if they reach
        beyond its end. No other file changes. It runs out of blocks exactly when the slots it has to
        fill are more than the free blocks. The inode is written only if the file grows, so an inode
        that was the same on disk as in memory stays so exactly if the file grows or no block number
        that goes into the inode was missing; in a file without holes that is always the case. */
    method Writei(ip: InodeCopy, src: seq<Byte>, off: Word) returns (r: WriteResult)
      requires Valid(ip) && ip.v.size <= MAXBYTES && |src| < 0x1_0000_0000
      modifies this`disk, this`logged, this`writes, this`owner, ip
      ensures Shape()
      ensures r.WriteDevice? <==> Type(old(ip.v)) == T_DEV
      ensures r.WriteError? <==> Type(old(ip.v)) != T_DEV && !Fits(old(ip.v), off, |src|)
      ensures r.WriteDevice? || r.WriteError? ==>
                Valid(ip) && disk == old(disk) && owner == old(owner) && ip.v == old(ip.v) && logged == old(logged)
      ensures r.OutOfBlocks? <==> && Type(old(ip.v)) != T_DEV && Fits(old(ip.v), off, |src|)
                                  && TooFew(sb, old(disk), old(ip.v), off, |src|)
      ensures r.OutOfBlocks? ==> forall c: nat | c < sb.size :: Used(sb, disk, c)
      ensures r.Wrote? ==> && Valid(ip) && r.n == |src|
                           && ip.v == old(ip.v).(size := Max(old(ip.v).size, off + |src|), addrs := ip.v.addrs)
                           && WroteBytes(old(disk), old(Files(ip)), disk, Files(ip), ip.inum, off, src)
                           && Contents(disk, ip.v) == Splice(Contents(old(disk), old(ip.v)), off, src)
      ensures r.Wrote? ==> && Foreign(owner, ip.inum) == Foreign(old(owner), ip.inum)
                           && SameBlocks(old(disk), old(Files(ip)), disk, Files(ip), ip.inum)
      ensures r.Wrote? ==>
                && Dinodes(sb, disk) == (if Grows(old(ip.v), off, |src|) then Dinodes(sb, old(disk))[ip.inum := ip.v]
                                         else Dinodes(sb, old(disk)))
                && (ip.v.addrs == old(ip.v).addrs <==> !Lacks(old(ip.v), off / BSIZE, Through(off, |src|)))
      ensures r.Wrote? && DinodeAt(sb, old(disk), ip.inum) == old(ip.v) ==>
                (DinodeAt(sb, disk, ip.inum) == ip.v <==>
                   Grows(old(ip.v), off, |src|) || !Lacks(old(ip.v), off / BSIZE, Through(off, |src|)))
      ensures r.Wrote? && NoHoles(old(disk), old(ip.v)) ==> NoHoles(disk, ip.v)
      ensures old(Ready(ip)) && !r.OutOfBlocks? ==> Ready(ip)
      ensures old(Ready(ip)) && !r.OutOfBlocks? ==>
                forall o: InodeCopy | old(allocated(o)) && o.inum != ip.inum && old(Ready(o)) :: Ready(o)
      ensures old(Ready(ip)) && old(Whole()) && Type(old(ip.v)) != 0 && !r.OutOfBlocks? ==> Whole()
      ensures r.Wrote? ==> logged <= old(logged) + Touched(sb, old(disk), disk, ip.inum, ip.v, off, |src|)
      ensures r.Wrote? ==> Supplied(sb, old(disk), old(ip.v), disk, ip.v, off, |src|)
    {
      hide Used, WordAt, Owns, SameBytes, Slot, FileByte, WroteBytes, History, Supplied, Through, Free, Foreign,
           Marks, WriteLog, SameBlocks, NoHoles, Consistent, Contents, DinodeAt, Lacks, TooFew;
      if Type(ip.v) == T_DEV {
        return WriteDevice;
      }
      if off > ip.v.size || (off + |src|) % 0x1_0000_0000 < off {
        return WriteError;
      }
      if off + |src| > MAXBYTES {
        return WriteError;
      }
      var ok := WriteBytes(ip, src, off);
      if !ok {
        return OutOfBlocks;
      }
      AddrsKept(sb, old(disk), old(ip.v), disk, ip.v, off, |src|);
      if |src| > 0 && off + |src| > ip.v.size {
        ghost var d1, f1, v1 := disk, Files(ip), ip.v;
        SetSize(ip, off + |src|);
        WroteThenSame(old(disk), old(Files(ip)), d1, f1, disk, Files(ip), ip.inum, off, src);
        SizeSpace(sb, old(disk), old(ip.v), d1, v1, disk, ip.v, off, |src|);
        WriteLogSame(sb, old(disk), d1, v1, disk, ip.v, off, |src|);
      }
      AfterWrite(sb, old(disk), old(Files(ip)), old(owner), disk, Files(ip), owner, ip.inum, off, src);
      OneInode(sb, old(disk), disk, ip.inum, ip.v);
      if old(Ready(ip)) {
        OthersReady(ip);
        if old(Whole()) && Type(ip.v) != 0 {
          OthersWhole(ip);
        }
      }
      return Wrote(|src|);
    }

    /** The loop of writei. False is the panic for want of a free block. */
    method WriteBytes(ip: InodeCopy, src: seq<Byte>, off: nat) returns (ok: bool)
      requires Valid(ip) && off + |src| <= MAXBYTES
      modifies this`disk, this`logged, this`writes, this`owner, ip
      ensures Shape()
      ensures ok <==> !TooFew(sb, old(disk), old(ip.v), off, |src|)
      ensures !ok ==> forall c: nat | c < sb.size :: Used(sb, disk, c)
      ensures ok ==> Valid(ip) && ip.v == old(ip.v).(addrs := ip.v.addrs)
      ensures ok ==>
                Dinodes(sb, disk) == Dinodes(sb, old(disk)) && Foreign(owner, ip.inum) == Foreign(old(owner), ip.inum)
      ensures ok ==> WroteBytes(old(disk), old(Files(ip)), disk, Files(ip), ip.inum, off, src)
      ensures ok ==> logged <= old(logged) + WriteLog(sb, old(disk), disk, ip.v, off, |src|)
      ensures ok ==> Supplied(sb, old(disk), old(ip.v), disk, ip.v, off, |src|)
    {
      hide Used, WordAt, Owns, SameBytes, Slot, FileByte, WroteBytes, History, Supplied, TooFew, Through, Free,
           Dinodes, DinodeAt, Filled, Foreign, Marks, WriteLog, Indirect;
      WroteNothing(disk, Files(ip), ip.inum, off);
      SuppliedNone(sb, disk, ip.v, off);
      assert src[..0] == [];
      var tot := 0;
      while tot < |src|
        invariant 0 <= tot <= |src| && Valid(ip) && ip.v == old(ip.v).(addrs := ip.v.addrs)
        invariant Dinodes(sb, disk) == Dinodes(sb, old(disk)) && Foreign(owner, ip.inum) == Foreign(old(owner), ip.inum)
        invariant WroteBytes(old(disk), old(Files(ip)), disk, Files(ip), ip.inum, off, src[..tot])
        invariant logged <= old(logged) + WriteLog(sb, old(disk), disk, ip.v, off, tot)
        invariant Supplied(sb, old(disk), old(ip.v), disk, ip.v, off, tot)
      {
        var o := off + tot;
        var m := Min(|src| - tot, BSIZE - o % BSIZE);
        ghost var d1, f1, v1, l1 := disk, Files(ip), ip.v, logged;
        ok := WriteChunk(ip, o, src[tot..tot + m]);
        if !ok {
          OutOfSpace(sb, old(disk), old(ip.v), d1, v1, disk, ip.v, off, tot, m, |src|);
          return;
        }
        SliceMore(src, 0, tot, tot + m);
        WroteMore(old(disk), old(Files(ip)), d1, f1, disk, Files(ip), ip.inum, off, src[..tot], src[tot..tot + m]);
        LoggedMore(sb, old(disk), old(ip.v), d1, v1, disk, ip.v, off, tot, m, old(logged), l1, logged);
        OneBlockMore(sb, old(disk), old(ip.v), d1, v1, disk, ip.v, off, tot, m);
        tot := tot + m;
      }
      assert src[..|src|] == src;
      EnoughBlocks(sb, old(disk), old(ip.v), disk, ip.v, off, |src|);
      ok := true;
    }

    /** ip->size = size; iupdate(ip). */
    method SetSize(ip: InodeCopy, size: Word)
      requires Valid(ip)
      modifies this`disk, this`logged, this`writes, ip
      ensures Valid(ip) && ip.v == old(ip.v).(size := size)
      ensures Dinodes(sb, disk) == Dinodes(sb, old(disk))[ip.inum := ip.v]
      ensures SameBytes(old(disk), old(Files(ip)), disk, Files(ip))
      ensures forall k: nat | k < NSLOTS :: Slot(disk, ip.v, k) == Slot(old(disk), old(ip.v), k)
      ensures logged == old(logged) + {Iblock(sb, ip.inum)}
      ensures forall c: nat | c < sb.size :: Used(sb, disk, c) == Used(sb, old(disk), c)
    {
      hide Used, WordAt, Owns, SameBytes, FileByte, History;
      ghost var f := Files(ip);
      SameSlotsOwn(sb, disk, f, owner, ip.inum, ip.v.(size := size));
      ip.v := ip.v.(size := size);
      assert Files(ip) == f[ip.inum := f[ip.inum].(size := size)];
      ghost var f1 := Files(ip);
      Iupdate(ip);
      SameBitmap(sb, old(disk), disk);
      SameBytesTrans(old(disk), f, old(disk), f1, disk, Files(ip));
    }

    /** The first loop of itrunc: free the direct blocks. */
    method FreeDirect(ip: InodeCopy, ghost d0: Image, ghost f: seq<Inode>, ghost own: map<nat, (nat, nat)>)
      returns (ok: bool, ghost freed: set<nat>)
      requires Shape() && ip.inum < |f| && f[ip.inum] == ip.v && disk == d0
      requires Truncating(sb, d0, f, own, ip.inum, disk, {})
      modifies this`disk, this`logged, this`writes, ip
      ensures ok && Shape() && Truncating(sb, d0, f, own, ip.inum, disk, freed)
      ensures forall b | b in freed :: b in own && own[b].1 < NDIRECT
      ensures forall k: nat | k < NDIRECT && Slot(d0, f[ip.inum], k) != 0 :: Slot(d0, f[ip.inum], k) as nat in freed
      ensures forall k: nat | k < NDIRECT :: ip.v.addrs[k] == 0
      ensures ip.v == old(ip.v).(addrs := ip.v.addrs) && ip.v.addrs[NDIRECT] == old(ip.v).addrs[NDIRECT]
    {
      hide Used, WordAt, Owns, SameBytes, OwnedBy, Unmarked, History;
      freed := {};
      for i := 0 to NDIRECT
        invariant Shape() && Truncating(sb, d0, f, own, ip.inum, disk, freed)
        invariant forall b | b in freed :: b in own && own[b].1 < i
        invariant forall k: nat | k < i && Slot(d0, f[ip.inum], k) != 0 :: Slot(d0, f[ip.inum], k) as nat in freed
        invariant forall k: nat | k < i :: ip.v.addrs[k] == 0
        invariant forall k: nat | i <= k <= NDIRECT :: ip.v.addrs[k] == f[ip.inum].addrs[k]
        invariant ip.v == old(ip.v).(addrs := ip.v.addrs)
      {
        if ip.v.addrs[i] != 0 {
          var b := ip.v.addrs[i];
          assert Slot(d0, f[ip.inum], i) == b;
          OwnerOf(sb, d0, f, own, ip.inum, i);
          FreeNext(sb, d0, f, own, ip.inum, disk, freed, i);
          ok := Bfree(b);
          freed := freed + {b};
          ip.v := ip.v.(addrs := ip.v.addrs[i := 0]);
        }
      }
      ok := true;
    }

    /** The rest of itrunc's freeing: the blocks the indirect block names, then that block. */
    method FreeIndirect(ip: InodeCopy, ghost d0: Image, ghost f: seq<Inode>, ghost own: map<nat, (nat, nat)>,
                        ghost freed0: set<nat>)
      returns (ok: bool, ghost freed: set<nat>)
      requires Shape() && ip.inum < |f| && ip.v.addrs[NDIRECT] == f[ip.inum].addrs[NDIRECT] != 0
      requires Truncating(sb, d0, f, own, ip.inum, disk, freed0)
      requires forall b | b in freed0 :: b in own && own[b].1 < NDIRECT
      modifies this`disk, this`logged, this`writes, ip
      ensures ok && Shape() && Truncating(sb, d0, f, own, ip.inum, disk, freed) && freed0 <= freed
      ensures forall k: nat | NDIRECT <= k < NSLOTS && Slot(d0, f[ip.inum], k) != 0 ::
                Slot(d0, f[ip.inum], k) as nat in freed
      ensures ip.v == old(ip.v).(addrs := old(ip.v).addrs[NDIRECT := 0])
    {
      hide Used, WordAt, Owns, SameBytes, OwnedBy, Unmarked, History;
      freed := freed0;
      var a := ip.v.addrs[NDIRECT];
      OwnerOf(sb, d0, f, own, ip.inum, NDIRECT);
      var data := disk[a];
      for j := 0 to NINDIRECT
        invariant Shape() && Truncating(sb, d0, f, own, ip.inum, disk, freed) && freed0 <= freed && ip.v == old(ip.v)
        invariant forall b | b in freed :: b in own && (own[b].1 < NDIRECT || NDIRECT < own[b].1 <= NDIRECT + j)
        invariant forall k: nat | NDIRECT < k <= NDIRECT + j && Slot(d0, f[ip.inum], k) != 0 ::
                    Slot(d0, f[ip.inum], k) as nat in freed
      {
        assert Slot(d0, f[ip.inum], NDIRECT + 1 + j) == WordAt(data, j);
        if WordAt(data, j) != 0 {
          var b := WordAt(data, j);
          OwnerOf(sb, d0, f, own, ip.inum, NDIRECT + 1 + j);
          FreeNext(sb, d0, f, own, ip.inum, disk, freed, NDIRECT + 1 + j);
          ok := Bfree(b);
          freed := freed + {b};
        }
      }
      FreeNext(sb, d0, f, own, ip.inum, disk, freed, NDIRECT);
      ok := Bfree(a);
      freed := freed + {a};
      ip.v := ip.v.(addrs := ip.v.addrs[NDIRECT := 0]);
    }

    /** itrunc: the file becomes empty, on disk and in memory, and exactly its own blocks become
        free. The panic for freeing a free block cannot happen. No other file changes. */
    method Itrunc(ip: InodeCopy) returns (ok: bool)
      requires Valid(ip)
      modifies this`disk, this`logged, this`writes, this`owner, ip
      ensures ok && Valid(ip) && ip.v == Cleared(old(ip.v))
      ensures owner == old(owner) - OwnedBy(old(owner), ip.inum)
      ensures Dinodes(sb, disk) == Dinodes(sb, old(disk))[ip.inum := ip.v]
      ensures forall b: nat | b < sb.size ::
                Used(sb, disk, b) == (Used(sb, old(disk), b) && b !in OwnedBy(old(owner), ip.inum))
      ensures forall j: nat, p: nat | j < sb.ninodes && j != ip.inum && p < MAXBYTES ::
                FileByte(disk, DinodeAt(sb, disk, j), p) == FileByte(old(disk), DinodeAt(sb, old(disk), j), p)
      ensures SameBlocks(old(disk), old(Files(ip)), disk, Files(ip), ip.inum)
      ensures Ready(ip)
      ensures forall o: InodeCopy | old(allocated(o)) && o.inum != ip.inum && old(Ready(o)) :: Ready(o)
      ensures old(Whole()) ==> Whole()
    {
      hide Used, WordAt, Owns, SameBytes, OwnedBy, History, Consistent, SameBlocks;
      ghost var d0, f, own, freed := disk, Files(ip), owner, {};
      StartTruncating(sb, d0, f, own, ip.inum);
      ok, freed := FreeDirect(ip, d0, f, own);
      if ip.v.addrs[NDIRECT] != 0 {
        ok, freed := FreeIndirect(ip, d0, f, own, freed);
      }
      ip.v := ip.v.(size := 0);
      assert ip.v == Cleared(f[ip.inum]);
      AllFreed(sb, d0, f, own, ip.inum, disk, freed);
      owner := own - OwnedBy(own, ip.inum);
      assert Files(ip) == Others(f, ip.inum);
      ghost var d1 := disk;
      Iupdate(ip);
      SameBitmap(sb, d1, disk);
      assert Files(ip) == Others(f, ip.inum);
      AfterTruncate(sb, d0, f, own, ip.inum, d1, disk);
      OtherInodes(ip);
    }

    /** What truncating, or freeing, means for the other inodes. */
    twostate lemma OtherInodes(ip: InodeCopy)
      requires old(Valid(ip)) && Valid(ip) && owner == old(owner) - OwnedBy(old(owner), ip.inum)
      requires Dinodes(sb, disk) == Dinodes(sb, old(disk))[ip.inum := ip.v] && ip.v.size == 0
      requires forall k: nat | k <= NDIRECT :: ip.v.addrs[k] == 0
      requires forall o: InodeCopy | old(allocated(o)) && o.inum != ip.inum :: o.v == old(o.v)
      ensures SameBlocks(old(disk), old(Files(ip)), disk, Files(ip), ip.inum)
      ensures Ready(ip)
      ensures forall o: InodeCopy | old(allocated(o)) && o.inum != ip.inum && old(Ready(o)) :: Ready(o)
      ensures old(Whole()) ==> Whole()
    {
      hide Used, WordAt, Owns, History, Consistent, SameBlocks, Slot, DinodeAt;
      ForeignTwice(old(owner), ip.inum);
      OthersKept(sb, old(disk), old(Files(ip)), old(owner), disk, Files(ip), owner, ip.inum);
      OneInode(sb, old(disk), disk, ip.inum, ip.v);
      assert Dinodes(sb, disk)[ip.inum] == ip.v;
      OthersReady(ip);
      if old(Whole()) {
        OthersWhole(ip);
      }
    }

    /** filewrite on a regular file open at offset off: write in chunks, each its own log operation.
        newOff is where the file offset ends up; what lies between off and newOff has been written,
        also when the call fails, and no other file has changed. The panic for a short write cannot
        happen. None is the panic for want of a free block, exactly when the chunks that fit the
        largest file need more blocks than are free. No operation logs more than OpLimit blocks, and
        whatever changed on the disk was logged by one of them. */
    method Filewrite(ip: InodeCopy, src: seq<Byte>, off: Word) returns (r: Option<int>, newOff: Word)
      requires Valid(ip) && ip.v.size <= MAXBYTES && Type(ip.v) != T_DEV && |src| < 0x8000_0000
      modifies this, ip
      ensures Shape()
      ensures r.None? <==> off <= old(ip.v).size && TooFew(sb, old(disk), old(ip.v), off, ChunkBytes(off, |src|))
      ensures r.None? ==> forall c: nat | c < sb.size :: Used(sb, disk, c)
      ensures r.None? ==> SmallOps(old(ops), ops, OpLimit(sb, NoHoles(old(disk), old(ip.v))))
      ensures r.Some? ==> Valid(ip) && newOff == off + if off <= old(ip.v).size then ChunkBytes(off, |src|) else 0
      ensures r.Some? ==> r.value == if newOff == off + |src| then |src| else -1
      ensures r.Some? ==> Progress(sb, old(Now(ip)), Now(ip), ip.inum, off, src, newOff - off)
      ensures r.Some? ==> SameBlocks(old(disk), old(Files(ip)), disk, Files(ip), ip.inum)
      ensures r.Some? && old(Ready(ip)) ==> Ready(ip)
      ensures r.Some? && old(Ready(ip)) ==>
                forall o: InodeCopy | old(allocated(o)) && o.inum != ip.inum && old(Ready(o)) :: Ready(o)
      ensures r.Some? && old(Ready(ip)) && old(Whole()) && Type(old(ip.v)) != 0 ==> Whole()
    {
      hide Owns, NoHoles, Dinodes, DinodeAt, History, Used, Progress, TooFew, Touched, Supplied, Through, WroteBytes,
           Splice, Contents, Foreign, SameBlocks, Consistent, SmallOps, Lacks;
      ghost var a := Now(ip);
      ProgressStart(sb, a, ip.inum, off, src);
      newOff := off;
      var i := 0;
      while i < |src|
        invariant 0 <= i <= |src| && newOff == off + i && (i == |src| || i % CHUNK == 0)
        invariant Valid(ip) && ip.v.size <= MAXBYTES && Type(ip.v) == Type(old(ip.v))
        invariant i == 0 ==> ip.v == old(ip.v)
        invariant i > 0 ==> off <= old(ip.v).size && newOff <= ip.v.size
        invariant Progress(sb, a, Now(ip), ip.inum, off, src, i)
        invariant old(Ready(ip)) ==> Ready(ip)
        invariant old(Ready(ip)) ==>
                    forall o: InodeCopy | old(allocated(o)) && o.inum != ip.inum && old(Ready(o)) :: Ready(o)
        invariant old(Ready(ip)) && old(Whole()) && Type(old(ip.v)) != 0 ==> Whole()
      {
        var n1 := Min(|src| - i, CHUNK);
        ghost var b := Now(ip);
        var w := WriteOperation(ip, src[i..i + n1], newOff);
        if w.OutOfBlocks? {
          ProgressTooFew(sb, a, b, ip.inum, off, src, i, n1);
          return None, newOff;
        }
        if w.WriteError? {
          ProgressIdle(sb, a, b, Now(ip), ip.inum, off, src, i);
          break;
        }
        HistoryKeeps(start, disk, writes, logged);
        ProgressMore(sb, a, b, Now(ip), ip.inum, off, src, i, n1, logged);
        newOff, i := newOff + n1, i + n1;
      }
      ProgressEnough(sb, a, Now(ip), ip.inum, off, src, i);
      OthersKept(sb, old(disk), old(Files(ip)), old(owner), disk, Files(ip), owner, ip.inum);
      if off <= old(ip.v).size {
        ChunkCount(off, |src|, i);
      }
      r := Some(if i == |src| then |src| else -1);
    }

    /** The state that filewrite's progress is about. */
    ghost function Now(ip: InodeCopy): View
      reads this, ip
      requires Shape() && ip.inum < sb.ninodes
    {
      View(disk, Files(ip), owner, ops)
    }

    /** One trip round filewrite's loop: begin_op, writei, end_op. */
    method WriteOperation(ip: InodeCopy, chunk: seq<Byte>, off: Word) returns (w: WriteResult)
      requires Valid(ip) && ip.v.size <= MAXBYTES && Type(ip.v) != T_DEV && 0 < |chunk| <= CHUNK
      modifies this, ip
      ensures Shape() && start == old(disk) && !w.WriteDevice?
      ensures w.WriteError? <==> !Fits(old(ip.v), off, |chunk|)
      ensures w.OutOfBlocks? <==> Fits(old(ip.v), off, |chunk|) && TooFew(sb, old(disk), old(ip.v), off, |chunk|)
      ensures w.OutOfBlocks? ==> ops == old(ops) && forall c: nat | c < sb.size :: Used(sb, disk, c)
      ensures !w.OutOfBlocks? ==> && Valid(ip) && ops == old(ops) + [logged]
                                  && |logged| <= OpLimit(sb, NoHoles(old(disk), old(ip.v)))
      ensures w.WriteError? ==> disk == old(disk) && owner == old(owner) && ip.v == old(ip.v) && logged == {}
      ensures w.Wrote? ==> && Type(ip.v) == Type(old(ip.v)) && ip.v.size == Max(old(ip.v).size, off + |chunk|)
                           && Contents(disk, ip.v) == Splice(Contents(old(disk), old(ip.v)), off, chunk)
                           && WroteBytes(old(disk), old(Files(ip)), disk, Files(ip), ip.inum, off, chunk)
                           && SameButOne(sb, old(disk), disk, ip.inum)
                           && Foreign(owner, ip.inum) == Foreign(old(owner), ip.inum)
                           && SameBlocks(old(disk), old(Files(ip)), disk, Files(ip), ip.inum)
                           && (NoHoles(old(disk), old(ip.v)) ==> NoHoles(disk, ip.v))
      ensures old(Ready(ip)) && !w.OutOfBlocks? ==> Ready(ip)
      ensures old(Ready(ip)) && !w.OutOfBlocks? ==>
                forall o: InodeCopy | old(allocated(o)) && o.inum != ip.inum && old(Ready(o)) :: Ready(o)
      ensures old(Ready(ip)) && old(Whole()) && Type(old(ip.v)) != 0 && !w.OutOfBlocks? ==> Whole()
      ensures w.Wrote? ==> logged <= Touched(sb, old(disk), disk, ip.inum, ip.v, off, |chunk|)
      ensures w.Wrote? ==> Supplied(sb, old(disk), old(ip.v), disk, ip.v, off, |chunk|)
    {
      hide Used, WordAt, Owns, Slot, FileByte, WroteBytes, Contents, Touched, Splice, Supplied, Through, Free,
           NoHoles, History, Foreign, SameBlocks, Consistent, Lacks, TooFew, DinodeAt;
      HistoryNone(disk);
      start, writes, logged := disk, [], {};
      w := Writei(ip, chunk, off);
      if w.Wrote? {
        ChunkFitsReservation(sb, old(disk), old(ip.v), disk, ip.v, ip.inum, off, |chunk|);
        SubsetCount(logged, Touched(sb, old(disk), disk, ip.inum, ip.v, off, |chunk|));
        OneInode(sb, old(disk), disk, ip.inum, ip.v);
      }
      if !w.OutOfBlocks? {
        ops := ops + [logged];
      }
    }

    /** An inode as every system call finds it: no holes, and the same on disk as in memory. */
    ghost predicate Ready(ip: InodeCopy)
      reads this, ip
      ensures Ready(ip) ==> ip.v.size <= MAXBYTES
    {
      Valid(ip) && NoHoles(disk, ip.v) && DinodeAt(sb, disk, ip.inum) == ip.v
    }

    /** All inodes are in order, on disk. */
    ghost predicate Whole()
      reads this
    {
      Shape() && Consistent(sb, disk, owner)
    }

    /** The other inodes that were ready are ready, once this one is the same on disk as in memory. */
    twostate lemma OthersReady(ip: InodeCopy)
      requires old(Shape()) && Valid(ip) && DinodeAt(sb, disk, ip.inum) == ip.v
      requires SameButOne(sb, old(disk), disk, ip.inum)
      requires SameBlocks(old(disk), old(Files(ip)), disk, Files(ip), ip.inum)
      requires forall o: InodeCopy | old(allocated(o)) && o.inum != ip.inum :: o.v == old(o.v)
      ensures forall o: InodeCopy | old(allocated(o)) && o.inum != ip.inum && old(Ready(o)) :: Ready(o)
    {
      hide Owns, DinodeAt, History, Slot;
      assert Files(ip) == Dinodes(sb, disk);
      forall o: InodeCopy | old(allocated(o)) && o.inum != ip.inum && old(Ready(o)) ensures Ready(o) {
        assert Files(o) == Dinodes(sb, disk);
        assert old(Files(ip))[o.inum] == o.v == Files(ip)[o.inum];
      }
    }

    /** And all inodes are in order, if they were. */
    twostate lemma OthersWhole(ip: InodeCopy)
      requires old(Whole()) && Valid(ip) && DinodeAt(sb, disk, ip.inum) == ip.v
      requires SameButOne(sb, old(disk), disk, ip.inum)
      requires SameBlocks(old(disk), old(Files(ip)), disk, Files(ip), ip.inum) && NoHoles(disk, ip.v)
      requires Type(ip.v) == 0 ==> forall k: nat | k <= NDIRECT :: ip.v.addrs[k] == 0
      ensures Whole()
    {
      hide Owns, DinodeAt, History, Slot, NoHoles, Consistent;
      assert Files(ip) == Dinodes(sb, disk);
      SameBlocksBut(old(disk), old(Files(ip)), disk, Files(ip), Dinodes(sb, old(disk)), ip.inum);
      StaysConsistent(sb, old(disk), old(owner), disk, owner, ip.inum);
    }

    /** An inode that is the same on disk as in memory is then ready. */
    lemma WholeReady(ip: InodeCopy)
      requires Whole() && ip.inum < sb.ninodes && DinodeAt(sb, disk, ip.inum) == ip.v
      ensures Ready(ip)
    {
      hide Owns, NoHoles, DinodeAt, History;
      assert Files(ip) == Dinodes(sb, disk);
    }

    /** ialloc: the first free inode, given a type and no contents. None is the panic for want of a
        free inode. */
    method Ialloc(kind: nat) returns (r: Option<nat>)
      requires Shape() && Owns(sb, disk, Dinodes(sb, disk), owner) && FreeAreEmpty(Dinodes(sb, disk))
      requires 0 < kind < 0x8000
      modifies this`disk, this`logged, this`writes
      ensures Shape() && Owns(sb, disk, Dinodes(sb, disk), owner) && FreeAreEmpty(Dinodes(sb, disk))
      ensures r.None? <==> forall i: nat | 1 <= i < sb.ninodes :: Type(DinodeAt(sb, old(disk), i)) != 0
      ensures r.None? ==> disk == old(disk)
      ensures r.Some? ==> && 1 <= r.value < sb.ninodes && Type(DinodeAt(sb, old(disk), r.value)) == 0
                          && (forall i: nat | 1 <= i < r.value :: Type(DinodeAt(sb, old(disk), i)) != 0)
                          && Dinodes(sb, disk) == Dinodes(sb, old(disk))[r.value := Blank(kind)]
                          && NoHoles(disk, Blank(kind))
                          && SameBytes(old(disk), Dinodes(sb, old(disk)), disk, Dinodes(sb, disk))
                          && SameBlocks(old(disk), Dinodes(sb, old(disk)), disk, Dinodes(sb, disk), r.value)
      ensures old(Whole()) ==> Whole()
    {
      hide Used, WordAt, Owns, SameBytes, Encode, Decode, Slot, History, Consistent, SameBlocks, NoHoles;
      var inum := 1;
      while inum < sb.ninodes
        invariant disk == old(disk)
        invariant forall i: nat | 1 <= i < inum && i < sb.ninodes :: Type(DinodeAt(sb, disk, i)) != 0
      {
        if Type(DinodeAt(sb, disk, inum)) == 0 {
          ghost var f := Dinodes(sb, disk);
          BlankOwns(sb, disk, f, owner, inum, kind);
          WriteInode(sb, disk, f[inum := Blank(kind)], owner, inum, Blank(kind));
          LogBlock(Iblock(sb, inum), Encode(disk[Iblock(sb, inum)], inum % IPB, Blank(kind)));
          SameBytesTrans(old(disk), f, old(disk), f[inum := Blank(kind)], disk, f[inum := Blank(kind)]);
          BlankMapped(disk, kind);
          OthersKept(sb, old(disk), f, owner, disk, Dinodes(sb, disk), owner, inum);
          if old(Whole()) {
            StaysConsistent(sb, old(disk), owner, disk, owner, inum);
          }
          return Some(inum);
        }
        inum := inum + 1;
      }
      return None;
    }

    /** The end of iput for an inode without links and without other users: truncate it and mark
        it free. */
    method FreeInode(ip: InodeCopy) returns (ok: bool)
      requires Valid(ip) && FreeAreEmpty(Dinodes(sb, disk))
      modifies this`disk, this`logged, this`writes, this`owner, ip
      ensures ok && Valid(ip) && FreeAreEmpty(Dinodes(sb, disk)) && Type(ip.v) == 0
      ensures owner == old(owner) - OwnedBy(old(owner), ip.inum)
      ensures Dinodes(sb, disk) == Dinodes(sb, old(disk))[ip.inum := ip.v]
      ensures forall b: nat | b < sb.size ::
                Used(sb, disk, b) == (Used(sb, old(disk), b) && b !in OwnedBy(old(owner), ip.inum))
      ensures forall j: nat, p: nat | j < sb.ninodes && j != ip.inum && p < MAXBYTES ::
                FileByte(disk, DinodeAt(sb, disk, j), p) == FileByte(old(disk), DinodeAt(sb, old(disk), j), p)
      ensures SameBlocks(old(disk), old(Files(ip)), disk, Files(ip), ip.inum)
      ensures Ready(ip)
      ensures forall o: InodeCopy | old(allocated(o)) && o.inum != ip.inum && old(Ready(o)) :: Ready(o)
      ensures old(Whole()) ==> Whole()
    {
      hide Used, WordAt, Owns, Slot, OwnedBy, DinodeAt, History, FileByte, Consistent, SameBlocks, NoHoles;
      ok := Itrunc(ip);
      ghost var f, d1 := Files(ip), disk;
      var v := ip.v.(typeMajor := ip.v.typeMajor / 0x1_0000 * 0x1_0000);
      SameSlotsOwn(sb, disk, f, owner, ip.inum, v);
      ip.v := v;
      ghost var f1 := Files(ip);
      assert f1 == f[ip.inum := v];
      Iupdate(ip);
      SameBitmap(sb, d1, disk);
      assert forall j: nat | j < sb.ninodes && j != ip.inum ::
          f1[j] == DinodeAt(sb, d1, j) == DinodeAt(sb, disk, j) == Files(ip)[j];
      OtherInodes(ip);
    }
  }

  const CHUNK := 1536          // ((MAXOPBLOCKS - 4) / 2) * 512, filewrite's largest chunk

  /** How much of n bytes filewrite writes at off: all of them, or the whole chunks that still fit the
      largest file. */
  function ChunkBytes(off: nat, n: nat): nat {
    if off + n <= MAXBYTES then n
    else if off <= MAXBYTES then (MAXBYTES - off) / CHUNK * CHUNK
    else 0
  }

  lemma ChunkCount(off: nat, n: nat, i: nat)
    requires i <= n && (i == n || i % CHUNK == 0) && off + i <= MAXBYTES
    requires i == n || off + i + Min(n - i, CHUNK) > MAXBYTES
    ensures i == ChunkBytes(off, n)
  {
  }

  /** Every operation since then logged at most so many blocks. */
  ghost predicate SmallOps(ops: seq<set<nat>>, ops': seq<set<nat>>, limit: nat) {
    ops <= ops' && forall k: nat | |ops| <= k < |ops'| :: |ops'[k]| <= limit
  }

  /** A block that none of the operations since then logged is as it was. */
  ghost predicate Covered(disk: Image, disk': Image, ops: seq<set<nat>>, ops': seq<set<nat>>) {
    && |disk'| == |disk|
    && forall b: nat | b < |disk| && (forall k: nat | |ops| <= k < |ops'| :: b !in ops'[k]) :: disk'[b] == disk[b]
  }

  lemma OneMoreOp(d0: Image, d1: Image, d2: Image, ops: seq<set<nat>>, ops1: seq<set<nat>>, logged: set<nat>,
                  limit: nat)
    requires SmallOps(ops, ops1, limit) && Covered(d0, d1, ops, ops1) && OnlyLogged(d1, d2, logged) && |logged| <= limit
    ensures SmallOps(ops, ops1 + [logged], limit) && Covered(d0, d2, ops, ops1 + [logged])
  {
    var ops2 := ops1 + [logged];
    forall b: nat | b < |d0| && (forall k: nat | |ops| <= k < |ops2| :: b !in ops2[k]) ensures d2[b] == d0[b] {
      assert ops2[|ops1|] == logged;
      forall k: nat | |ops| <= k < |ops1| ensures b !in ops1[k] {
        assert ops2[k] == ops1[k];
      }
    }
  }

  /** The inode blocks are the same, but for one inode. */
  ghost predicate SameButOne(sb: Superblock, d0: Image, d1: Image, i: nat)
    requires SbOk(sb) && |d0| == |d1| == sb.size
  {
    forall j: nat | j < sb.ninodes && j != i :: DinodeAt(sb, d1, j) == DinodeAt(sb, d0, j)
  }

  lemma OneInode(sb: Superblock, d0: Image, d1: Image, i: nat, d: Inode)
    requires SbOk(sb) && |d0| == |d1| == sb.size && i < sb.ninodes
    requires Dinodes(sb, d1) == Dinodes(sb, d0) || Dinodes(sb, d1) == Dinodes(sb, d0)[i := d]
    ensures SameButOne(sb, d0, d1, i)
  {
    hide DinodeAt;
    forall j: nat | j < sb.ninodes && j != i ensures DinodeAt(sb, d1, j) == DinodeAt(sb, d0, j) {
      assert Dinodes(sb, d1)[j] == Dinodes(sb, d0)[j];
    }
  }

  // ----- filewrite's progress -----

  datatype View = View(disk: Image, f: seq<Inode>, owner: map<nat, (nat, nat)>, ops: seq<set<nat>>)

  /** From a to b the first i bytes of src have been written at off of the file, in whole chunks or
      entirely, and nothing else: no byte of another file, no other inode and nobody else's block, nor
      a block that no operation logged. */
  ghost predicate Progress(sb: Superblock, a: View, b: View, inum: nat, off: nat, src: seq<Byte>, i: nat) {
    && SbOk(sb) && |a.disk| == |b.disk| == sb.size && |a.f| == |b.f| == sb.ninodes && inum < |a.f| && i <= |src|
    && a.f[inum].size <= MAXBYTES && b.f[inum].size <= MAXBYTES
    && (i == 0 ==> b.disk == a.disk && b.f == a.f)
    && (i > 0 ==> && off <= a.f[inum].size && off + i <= b.f[inum].size
                  && Contents(b.disk, b.f[inum]) == Splice(Contents(a.disk, a.f[inum]), off, src[..i]))
    && WroteBytes(a.disk, a.f, b.disk, b.f, inum, Min(off, MAXBYTES), src[..i])
    && Foreign(b.owner, inum) == Foreign(a.owner, inum) && SameButOne(sb, a.disk, b.disk, inum)
    && (NoHoles(a.disk, a.f[inum]) ==> NoHoles(b.disk, b.f[inum]))
    && Supplied(sb, a.disk, a.f[inum], b.disk, b.f[inum], off, i)
    && SmallOps(a.ops, b.ops, OpLimit(sb, NoHoles(a.disk, a.f[inum]))) && Covered(a.disk, b.disk, a.ops, b.ops)
  }

  lemma ProgressStart(sb: Superblock, a: View, inum: nat, off: nat, src: seq<Byte>)
    requires SbOk(sb) && |a.disk| == sb.size && |a.f| == sb.ninodes && inum < |a.f| && a.f[inum].size <= MAXBYTES
    ensures Progress(sb, a, a, inum, off, src, 0)
  {
    hide Used, Slot, FileByte, Foreign, NoHoles, Contents, Supplied, Through;
    assert src[..0] == [];
    WroteNothing(a.disk, a.f, inum, Min(off, MAXBYTES));
    SuppliedNone(sb, a.disk, a.f[inum], off);
  }

  /** Another chunk written. */
  lemma ProgressMore(sb: Superblock, a: View, b: View, c: View, inum: nat, off: nat, src: seq<Byte>, i: nat, n: nat,
                     logged: set<nat>)
    requires Progress(sb, a, b, inum, off, src, i) && |c.disk| == sb.size && |c.f| == sb.ninodes && 0 < n
    requires i + n <= |src|
    requires off + i <= b.f[inum].size && c.f[inum].size == Max(b.f[inum].size, off + i + n) <= MAXBYTES
    requires Contents(c.disk, c.f[inum]) == Splice(Contents(b.disk, b.f[inum]), off + i, src[i..i + n])
    requires WroteBytes(b.disk, b.f, c.disk, c.f, inum, off + i, src[i..i + n]) && SameButOne(sb, b.disk, c.disk, inum)
    requires Foreign(c.owner, inum) == Foreign(b.owner, inum)
    requires NoHoles(b.disk, b.f[inum]) ==> NoHoles(c.disk, c.f[inum])
    requires Supplied(sb, b.disk, b.f[inum], c.disk, c.f[inum], off + i, n)
    requires c.ops == b.ops + [logged] && |logged| <= OpLimit(sb, NoHoles(b.disk, b.f[inum]))
    requires OnlyLogged(b.disk, c.disk, logged)
    ensures Progress(sb, a, c, inum, off, src, i + n)
  {
    hide Foreign, NoHoles, Contents, Splice, Supplied, Through, WroteBytes, DinodeAt, SmallOps, Covered, OnlyLogged;
    SpliceMore(Contents(a.disk, a.f[inum]), off, src, i, n);
    SliceMore(src, 0, i, i + n);
    WroteMore(a.disk, a.f, b.disk, b.f, c.disk, c.f, inum, off, src[..i], src[i..i + n]);
    ChunksGrew(sb, a.disk, a.f[inum], b.disk, b.f[inum], c.disk, c.f[inum], off, i, n);
    OneMoreOp(a.disk, b.disk, c.disk, a.ops, b.ops, logged, OpLimit(sb, NoHoles(a.disk, a.f[inum])));
  }

  /** An operation that writes nothing. */
  lemma ProgressIdle(sb: Superblock, a: View, b: View, c: View, inum: nat, off: nat, src: seq<Byte>, i: nat)
    requires Progress(sb, a, b, inum, off, src, i) && c == b.(ops := b.ops + [{}])
    ensures Progress(sb, a, c, inum, off, src, i)
  {
    hide Foreign, NoHoles, Contents, Splice, Supplied, Through, WroteBytes, DinodeAt, SmallOps, Covered;
    OneMoreOp(a.disk, b.disk, b.disk, a.ops, b.ops, {}, OpLimit(sb, NoHoles(a.disk, a.f[inum])));
  }

  /** Too few blocks for a chunk are too few for the whole. */
  lemma ProgressTooFew(sb: Superblock, a: View, b: View, inum: nat, off: nat, src: seq<Byte>, i: nat, n: nat)
    requires Progress(sb, a, b, inum, off, src, i) && TooFew(sb, b.disk, b.f[inum], off + i, n)
    requires n == Min(|src| - i, CHUNK) && 0 < n && off + i + n <= MAXBYTES && i % CHUNK == 0
    ensures TooFew(sb, a.disk, a.f[inum], off, ChunkBytes(off, |src|))
    ensures SmallOps(a.ops, b.ops, OpLimit(sb, NoHoles(a.disk, a.f[inum])))
  {
    hide Foreign, NoHoles, Contents, Splice, Supplied, Through, WroteBytes, DinodeAt, SmallOps, Covered, TooFew,
         ChunkBytes;
    ChunksTooFew(sb, a.disk, a.f[inum], b.disk, b.f[inum], off, i, n, |src|);
  }

  lemma ProgressEnough(sb: Superblock, a: View, b: View, inum: nat, off: nat, src: seq<Byte>, i: nat)
    requires Progress(sb, a, b, inum, off, src, i)
    ensures !TooFew(sb, a.disk, a.f[inum], off, i) && Foreign(b.owner, inum) == Foreign(a.owner, inum)
  {
    hide Foreign, NoHoles, Contents, Splice, Supplied, Through, WroteBytes, DinodeAt, SmallOps, Covered, Free;
    EnoughBlocks(sb, a.disk, a.f[inum], b.disk, b.f[inum], off, i);
  }

  lemma ThroughChunk(off: nat, i: nat, n: nat)
    requires n > 0
    ensures off / BSIZE <= (off + i) / BSIZE <= Through(off, i) <= Through(off, i + n) == Through(off + i, n)
  {
  }

  lemma ThroughMonotone(off: nat, i: nat, j: nat)
    requires i <= j
    ensures Through(off, i) <= Through(off, j)
  {
  }

  lemma ChunksGrew(sb: Superblock, d0: Image, v0: Inode, d1: Image, v1: Inode, d2: Image, v2: Inode, off: nat, i: nat,
                   n: nat)
    requires n > 0 && Supplied(sb, d0, v0, d1, v1, off, i)
    requires Supplied(sb, d1, v1, d2, v2, off + i, n)
    ensures Supplied(sb, d0, v0, d2, v2, off, i + n)
  {
    hide Grew, Empty;
    ThroughChunk(off, i, n);
    GrewTrans(sb, d0, v0, d1, v1, d2, v2, off / BSIZE, Through(off, i), (off + i) / BSIZE, Through(off + i, n),
              off / BSIZE, Through(off, i + n));
    EmptyJoin(sb, d1, v1, d2, v2, off / BSIZE, Through(off, i), (off + i) / BSIZE, Through(off + i, n));
  }

  lemma ChunkWithin(off: nat, n: nat, i: nat, n1: nat)
    requires n1 == Min(n - i, CHUNK) && 0 < n1 && off + i + n1 <= MAXBYTES && i % CHUNK == 0
    ensures i + n1 <= ChunkBytes(off, n)
  {
  }

  lemma ChunksTooFew(sb: Superblock, d0: Image, v0: Inode, d1: Image, v1: Inode, off: nat, i: nat, n1: nat, n: nat)
    requires Supplied(sb, d0, v0, d1, v1, off, i) && TooFew(sb, d1, v1, off + i, n1)
    requires n1 == Min(n - i, CHUNK) && 0 < n1 && off + i + n1 <= MAXBYTES && i % CHUNK == 0
    ensures TooFew(sb, d0, v0, off, ChunkBytes(off, n))
  {
    hide Grew, Empty, Free, Through, ChunkBytes;
    var hi := Through(off, ChunkBytes(off, n));
    ThroughChunk(off, i, n1);
    ChunkWithin(off, n, i, n1);
    ThroughMonotone(off, i + n1, ChunkBytes(off, n));
    GrewWider(sb, d0, v0, d1, v1, off / BSIZE, Through(off, i), hi);
    TooFewFree(sb, d0, v0, d1, v1, off / BSIZE, hi, (off + i) / BSIZE, Through(off + i, n1));
  }

  lemma SliceMore<T>(s: seq<T>, a: nat, b: nat, c: nat)
    requires a <= b <= c <= |s|
    ensures s[a..b] + s[b..c] == s[a..c]
  {
  }

  /** The write reaches beyond the end of the file. */
  predicate Grows(d: Inode, off: nat, n: nat) {
    n > 0 && off + n > d.size
  }

  /** A block number in the inode itself is missing for blocks lo to hi. */
  predicate Lacks(d: Inode, lo: nat, hi: nat) {
    exists k: nat :: k <= NDIRECT && Wanted(k, lo, hi) && d.addrs[k] == 0
  }

  /** The block numbers in the inode change exactly if one of them was missing. */
  lemma AddrsKept(sb: Superblock, d0: Image, v0: Inode, d1: Image, v1: Inode, off: nat, n: nat)
    requires Supplied(sb, d0, v0, d1, v1, off, n)
    ensures v1.addrs == v0.addrs <==> !Lacks(v0, off / BSIZE, Through(off, n))
  {
    hide Free, Wanted, Through;
    var lo, hi := off / BSIZE, Through(off, n);
    assert forall k: nat | k <= NDIRECT :: Slot(d0, v0, k) == v0.addrs[k] && Slot(d1, v1, k) == v1.addrs[k];
    hide Slot;
    if Lacks(v0, lo, hi) {
      var k: nat :| k <= NDIRECT && Wanted(k, lo, hi) && v0.addrs[k] == 0;
      assert k !in Empty(d1, v1, lo, hi);
    } else {
      forall k: nat | k <= NDIRECT ensures v1.addrs[k] == v0.addrs[k] {
        assert v0.addrs[k] == 0 != v1.addrs[k] ==> k in Filled(d1, v1) && k !in Filled(d0, v0);
      }
    }
  }

  /** In a file without holes only a write beyond its end lacks a block number. */
  lemma NothingLacks(disk: Image, d: Inode, off: nat, n: nat)
    requires NoHoles(disk, d) && off <= d.size && !Grows(d, off, n)
    ensures !Lacks(d, off / BSIZE, Through(off, n))
  {
    var lo, hi := off / BSIZE, Through(off, n);
    forall k: nat | k <= NDIRECT && Wanted(k, lo, hi) ensures d.addrs[k] != 0 {
      var bn := if k < NDIRECT then k else hi - 1;
      assert bn * BSIZE < d.size;
      assert Slot(disk, d, SlotOf(bn)) != 0;
    }
  }

  /** What a write leaves without holes. */
  lemma StillNoHoles(sb: Superblock, d0: Image, v0: Inode, d1: Image, v1: Inode, off: nat, n: nat)
    requires NoHoles(d0, v0) && off <= v0.size && off + n <= MAXBYTES && v1.size == Max(v0.size, off + n)
    requires Supplied(sb, d0, v0, d1, v1, off, n)
    ensures NoHoles(d1, v1)
  {
    hide Slot, Free, Filled;
    forall bn: nat | bn < MAXFILE && bn * BSIZE < v1.size ensures Slot(d1, v1, SlotOf(bn)) != 0 {
      if bn * BSIZE < v0.size {
        assert Slot(d0, v0, SlotOf(bn)) != 0;
      } else {
        assert Wanted(SlotOf(bn), off / BSIZE, Through(off, n));
        assert SlotOf(bn) !in Empty(d1, v1, off / BSIZE, Through(off, n));
      }
    }
  }

  /** What a finished write means for the file written and for the others. */
  lemma AfterWrite(sb: Superblock, d0: Image, f0: seq<Inode>, own0: map<nat, (nat, nat)>, d1: Image, f1: seq<Inode>,
                   own1: map<nat, (nat, nat)>, i: nat, off: nat, src: seq<Byte>)
    requires SbOk(sb) && |d0| == |d1| == sb.size && |f0| == |f1| == sb.ninodes && i < |f0|
    requires Owns(sb, d0, f0, own0) && Owns(sb, d1, f1, own1) && Foreign(own0, i) == Foreign(own1, i)
    requires f0[i].size <= MAXBYTES && f1[i].size == Max(f0[i].size, off + |src|) <= MAXBYTES && off <= f0[i].size
    requires WroteBytes(d0, f0, d1, f1, i, off, src)
    requires Supplied(sb, d0, f0[i], d1, f1[i], off, |src|)
    ensures SameBlocks(d0, f0, d1, f1, i)
    ensures Contents(d1, f1[i]) == Splice(Contents(d0, f0[i]), off, src)
    ensures NoHoles(d0, f0[i]) ==>
              NoHoles(d1, f1[i]) && (!Grows(f0[i], off, |src|) ==> !Lacks(f0[i], off / BSIZE, Through(off, |src|)))
  {
    hide Used, Slot, FileByte, Owns, Foreign, SameBlocks, NoHoles, Contents, WroteBytes, Supplied, Through,
         Consistent, DinodeAt, Lacks, Dinodes;
    OthersKept(sb, d0, f0, own0, d1, f1, own1, i);
    WroteIsSplice(d0, f0, d1, f1, i, off, src);
    if NoHoles(d0, f0[i]) {
      StillNoHoles(sb, d0, f0[i], d1, f1[i], off, |src|);
      if !Grows(f0[i], off, |src|) {
        NothingLacks(d0, f0[i], off, |src|);
      }
    }
  }

  // ----- every file at once -----

  /** Every inode is without holes, free inodes refer to no block, and no block is referred to twice. */
  ghost predicate Consistent(sb: Superblock, disk: Image, owner: map<nat, (nat, nat)>)
    requires SbOk(sb) && |disk| == sb.size
  {
    && Owns(sb, disk, Dinodes(sb, disk), owner) && FreeAreEmpty(Dinodes(sb, disk))
    && forall i: nat | i < sb.ninodes :: NoHoles(disk, Dinodes(sb, disk)[i])
  }

  lemma SameBlocksBut(d0: Image, f0: seq<Inode>, d1: Image, f1: seq<Inode>, f: seq<Inode>, i: nat)
    requires SameBlocks(d0, f0, d1, f1, i) && |f| == |f0| && forall j: nat | j < |f| && j != i :: f[j] == f0[j]
    ensures SameBlocks(d0, f, d1, f1, i)
  {
    hide Slot;
  }

  /** An operation on inode i that leaves that inode in order and the blocks of the others alone. */
  lemma StaysConsistent(sb: Superblock, d0: Image, own0: map<nat, (nat, nat)>, d1: Image, own1: map<nat, (nat, nat)>,
                        i: nat)
    requires SbOk(sb) && |d0| == |d1| == sb.size && Consistent(sb, d0, own0) && i < sb.ninodes
    requires var f0, f1 := Dinodes(sb, d0), Dinodes(sb, d1);
             && Owns(sb, d1, f1, own1) && SameBlocks(d0, f0, d1, f1, i) && NoHoles(d1, f1[i])
             && (forall j: nat | j < |f0| && j != i :: f1[j] == f0[j])
             && (Type(f1[i]) == 0 ==> forall k: nat | k <= NDIRECT :: f1[i].addrs[k] == 0)
    ensures Consistent(sb, d1, own1)
  {
    hide Used, Slot, Owns, DinodeAt;
    var f0, f1 := Dinodes(sb, d0), Dinodes(sb, d1);
    forall j: nat | j < sb.ninodes ensures NoHoles(d1, f1[j]) {
      assert NoHoles(d0, f0[j]);
    }
  }

  /** writei's test of its arguments: no hole before the bytes, and no file too long, in 32 bits. */
  predicate Fits(d: Inode, off: nat, n: nat) {
    off <= d.size && off + n < 0x1_0000_0000 && off + n <= MAXBYTES
  }

  /** The blocks that n bytes from off on still need are more than there are. */
  ghost predicate TooFew(sb: Superblock, disk: Image, d: Inode, off: nat, n: nat)
    requires SbOk(sb) && |disk| == sb.size
  {
    |Empty(disk, d, off / BSIZE, Through(off, n))| > |Free(sb, disk)|
  }

  lemma EnoughBlocks(sb: Superblock, d0: Image, v0: Inode, d1: Image, v1: Inode, off: nat, n: nat)
    requires Supplied(sb, d0, v0, d1, v1, off, n)
    ensures SbOk(sb) && |d0| == sb.size && !TooFew(sb, d0, v0, off, n)
  {
    hide Empty, Free, Filled, Kept, Through;
    EnoughFree(sb, d0, v0, d1, v1, off / BSIZE, Through(off, n));
  }

  lemma OutOfSpace(sb: Superblock, d0: Image, v0: Inode, d1: Image, v1: Inode, d2: Image, v2: Inode,
                   off: nat, tot: nat, m: nat, n: nat)
    requires Supplied(sb, d0, v0, d1, v1, off, tot) && off + n <= MAXBYTES
    requires Grew(sb, d1, v1, d2, v2, (off + tot) / BSIZE, (off + tot) / BSIZE + 1)
    requires 0 < m && tot + m <= n && (off + tot) % BSIZE + m <= BSIZE && Slot(d2, v2, SlotOf((off + tot) / BSIZE)) == 0
    requires forall c: nat | c < sb.size :: Used(sb, d2, c)
    ensures TooFew(sb, d0, v0, off, n)
  {
    hide Slot, Used, Empty, Free, Filled;
    var bn, lo, hi := (off + tot) / BSIZE, off / BSIZE, Through(off, n);
    ThroughMore(off, tot, m);
    assert Through(off, tot + m) <= hi;
    GrewTrans(sb, d0, v0, d1, v1, d2, v2, lo, Through(off, tot), bn, bn + 1, lo, hi);
    NothingFree(sb, d2);
    SomeEmpty(d2, v2, SlotOf(bn), bn, bn + 1);
    TooFewFree(sb, d0, v0, d2, v2, lo, hi, bn, bn + 1);
  }

  lemma OneBlockMore(sb: Superblock, d0: Image, v0: Inode, d1: Image, v1: Inode, d2: Image, v2: Inode, off: nat,
                     tot: nat, m: nat)
    requires Supplied(sb, d0, v0, d1, v1, off, tot)
    requires Grew(sb, d1, v1, d2, v2, (off + tot) / BSIZE, (off + tot) / BSIZE + 1) && off + tot + m <= MAXBYTES
    requires 0 < m && (off + tot) % BSIZE + m <= BSIZE && Slot(d2, v2, SlotOf((off + tot) / BSIZE)) != 0
    ensures Supplied(sb, d0, v0, d2, v2, off, tot + m)
  {
    hide Grew, Slot, Empty;
    var bn, lo := (off + tot) / BSIZE, off / BSIZE;
    ThroughMore(off, tot, m);
    GrewTrans(sb, d0, v0, d1, v1, d2, v2, lo, Through(off, tot), bn, bn + 1, lo, bn + 1);
    FilledMore(sb, d1, v1, d2, v2, lo, Through(off, tot), bn);
  }

  /** Writing the inode takes no block. */
  lemma SizeSpace(sb: Superblock, d0: Image, v0: Inode, d1: Image, v1: Inode, d2: Image, v2: Inode, off: nat, n: nat)
    requires Supplied(sb, d0, v0, d1, v1, off, n) && |d2| == sb.size
    requires forall k: nat | k < NSLOTS :: Slot(d2, v2, k) == Slot(d1, v1, k)
    requires forall c: nat | c < sb.size :: Used(sb, d2, c) == Used(sb, d1, c)
    ensures Supplied(sb, d0, v0, d2, v2, off, n)
  {
    hide Slot, Used, Free, Filled, Kept, Through;
    var lo, hi := off / BSIZE, Through(off, n);
    GrewNone(sb, d1, v1, d2, v2, lo, hi);
    GrewTrans(sb, d0, v0, d1, v1, d2, v2, lo, hi, lo, hi, lo, hi);
    assert Empty(d2, v2, lo, hi) == Empty(d1, v1, lo, hi);
  }

  lemma SameContents(d0: Image, v0: Inode, f0: seq<Inode>, d1: Image, v1: Inode, f1: seq<Inode>, i: nat)
    requires SameBytes(d0, f0, d1, f1) && i < |f0| && f0[i] == v0 && f1[i] == v1 && v1.size == v0.size <= MAXBYTES
    ensures Contents(d1, v1) == Contents(d0, v0)
  {
    hide FileByte;
  }

  ghost predicate OnlyLogged(start: Image, disk: Image, logged: set<nat>) {
    |start| == |disk| && forall b: nat | b < |disk| && b !in logged :: disk[b] == start[b]
  }

  /** The writes, and nothing else, made of start the disk, and logged is where they went. */
  ghost predicate History(start: Image, disk: Image, writes: seq<Wal.Update>, logged: set<nat>) {
    && (forall k: nat | k < |writes| :: writes[k].blockno < |start|)
    && disk == Wal.Apply(start, writes) && logged == Blocknos(writes)
  }

  ghost function Blocknos(writes: seq<Wal.Update>): set<nat> {
    set k: nat | k < |writes| :: writes[k].blockno
  }

  lemma HistoryNone(disk: Image)
    ensures History(disk, disk, [], {})
  {
  }

  lemma HistoryMore(start: Image, disk: Image, writes: seq<Wal.Update>, logged: set<nat>, b: Word, data: Block)
    requires History(start, disk, writes, logged) && b < |disk|
    ensures History(start, disk[b := data], writes + [Wal.Update(b, data)], logged + {b})
  {
    var w := writes + [Wal.Update(b, data)];
    assert w[..|w| - 1] == writes;
    assert w[|writes|].blockno == b;
    assert forall k: nat | k < |writes| :: w[k] == writes[k];
    assert Blocknos(w) == logged + {b};
  }

  /** A block that was not written is as it was. */
  lemma {:induction false} HistoryKeeps(start: Image, disk: Image, writes: seq<Wal.Update>, logged: set<nat>)
    requires History(start, disk, writes, logged)
    ensures OnlyLogged(start, disk, logged)
    decreases |writes|
  {
    if writes != [] {
      var rest := writes[..|writes| - 1];
      HistoryKeeps(start, Wal.Apply(start, rest), rest, Blocknos(rest));
      assert writes[|writes| - 1].blockno in logged;
      forall b | b in Blocknos(rest) ensures b in logged {
        var k: nat :| k < |rest| && rest[k].blockno == b;
        assert writes[k].blockno == b;
      }
    }
  }

  /** A free inode refers to no block. */
  ghost predicate FreeAreEmpty(f: seq<Inode>) {
    forall i: nat, k: nat | i < |f| && k <= NDIRECT && Type(f[i]) == 0 :: f[i].addrs[k] == 0
  }

  /** The inode ialloc writes. */
  function Blank(kind: nat): (d: Inode)
    requires kind < 0x8000
  {
    var none: seq<Word> := seq(NDIRECT + 1, k => 0);
    RawInode(kind, 0, 0, none)
  }

  lemma BlankMapped(disk: Image, kind: nat)
    requires kind < 0x8000
    ensures NoHoles(disk, Blank(kind))
  {
  }

  /** Changing fields other than the block numbers is no concern of the blocks. */
  lemma SameSlotsOwn(sb: Superblock, disk: Image, f: seq<Inode>, owner: map<nat, (nat, nat)>, i: nat, d: Inode)
    requires SbOk(sb) && |disk| == sb.size && Owns(sb, disk, f, owner) && i < |f| && d.addrs == f[i].addrs
    ensures Owns(sb, disk, f[i := d], owner) && SameBytes(disk, f, disk, f[i := d])
  {
    hide WordAt, Used;
    var f' := f[i := d];
    assert forall j: nat, k: nat | j < |f| && k < NSLOTS :: Slot(disk, f'[j], k) == Slot(disk, f[j], k);
  }

  lemma BlankOwns(sb: Superblock, disk: Image, f: seq<Inode>, owner: map<nat, (nat, nat)>, i: nat, kind: nat)
    requires SbOk(sb) && |disk| == sb.size && Owns(sb, disk, f, owner) && i < |f| && kind < 0x8000
    requires FreeAreEmpty(f) && Type(f[i]) == 0
    ensures Owns(sb, disk, f[i := Blank(kind)], owner) && SameBytes(disk, f, disk, f[i := Blank(kind)])
  {
    assert Blank(kind).addrs == f[i].addrs;
    SameSlotsOwn(sb, disk, f, owner, i, Blank(kind));
  }

  /** src laid over c from off on. */
  function Splice(c: seq<Byte>, off: nat, src: seq<Byte>): (r: seq<Byte>)
    requires off <= |c|
    ensures |r| == Max(|c|, off + |src|)
  {
    c[..off] + src + (if off + |src| < |c| then c[off + |src|..] else [])
  }

  lemma SpliceMore(c: seq<Byte>, off: nat, src: seq<Byte>, i: nat, n: nat)
    requires off <= |c| && i + n <= |src|
    ensures Splice(Splice(c, off, src[..i]), off + i, src[i..i + n]) == Splice(c, off, src[..i + n])
    ensures i == 0 ==> Splice(c, off, src[..i]) == c
  {
    assert src[..i] + src[i..i + n] == src[..i + n];
  }

  /** Bytes written in place are a splice of the contents. */
  lemma WroteIsSplice(disk: Image, f: seq<Inode>, disk': Image, f': seq<Inode>, i: nat, off: nat, src: seq<Byte>)
    requires WroteBytes(disk, f, disk', f', i, off, src) && off <= f[i].size <= MAXBYTES
    requires f'[i].size == Max(f[i].size, off + |src|)
    ensures Contents(disk', f'[i]) == Splice(Contents(disk, f[i]), off, src)
  {
    hide FileByte;
  }

  lemma OwnerOf(sb: Superblock, disk: Image, f: seq<Inode>, owner: map<nat, (nat, nat)>, i: nat, k: nat)
    requires SbOk(sb) && |disk| == sb.size && Owns(sb, disk, f, owner) && i < |f| && k < NSLOTS
    ensures var b := Slot(disk, f[i], k);
            b != 0 ==> DataStart(sb) <= b < sb.size && b in owner && owner[b] == (i, k)
  {
  }

  lemma AllFreed(sb: Superblock, d0: Image, f: seq<Inode>, owner: map<nat, (nat, nat)>, i: nat, disk: Image,
                 freed: set<nat>)
    requires Truncating(sb, d0, f, owner, i, disk, freed)
    requires forall k: nat | k < NSLOTS && Slot(d0, f[i], k) != 0 :: Slot(d0, f[i], k) as nat in freed
    ensures freed == OwnedBy(owner, i)
  {
    hide Used, WordAt;
    forall b | b in OwnedBy(owner, i) ensures b in freed {
      assert Slot(d0, f[i], owner[b].1) == b;
    }
  }

  /** What the other files see once the truncated inode has been written. */
  lemma AfterTruncate(sb: Superblock, d0: Image, f: seq<Inode>, owner: map<nat, (nat, nat)>, i: nat, d1: Image,
                      d2: Image)
    requires Truncating(sb, d0, f, owner, i, d1, OwnedBy(owner, i)) && |d2| == sb.size
    requires f == Dinodes(sb, d0)[i := f[i]]
    requires SameBytes(d1, Others(f, i), d2, Others(f, i)) && Dinodes(sb, d2) == Dinodes(sb, d1)[i := Cleared(f[i])]
    ensures forall j: nat, p: nat | j < sb.ninodes && j != i && p < MAXBYTES ::
              FileByte(d2, DinodeAt(sb, d2, j), p) == FileByte(d0, DinodeAt(sb, d0, j), p)
  {
    hide FileByte, Owns, Used, DinodeAt;
    forall j: nat, p: nat | j < sb.ninodes && j != i && p < MAXBYTES
      ensures FileByte(d2, DinodeAt(sb, d2, j), p) == FileByte(d0, DinodeAt(sb, d0, j), p)
    {
      assert Others(f, i)[j] == Dinodes(sb, d0)[j] == Dinodes(sb, d2)[j];
      assert FileByte(d1, Others(f, i)[j], p) == FileByte(d0, Others(f, i)[j], p);
      assert FileByte(d2, Others(f, i)[j], p) == FileByte(d1, Others(f, i)[j], p);
    }
  }

  // ----- how many blocks a write logs -----

  /** The data blocks that hold blocks lo to hi of a file. */
  ghost function DataBlocks(disk: Image, d: Inode, lo: nat, hi: nat): set<nat>
    requires hi <= MAXFILE
  {
    set bn: nat | lo <= bn < hi :: Slot(disk, d, SlotOf(bn)) as nat
  }

  /** What the loop of a write of n bytes at off may log: its data blocks, the indirect block, and the
      bitmap blocks of what it allocates. */
  ghost function WriteLog(sb: Superblock, d0: Image, d1: Image, v1: Inode, off: nat, n: nat): set<nat>
    requires SbOk(sb) && |d0| == |d1| == sb.size && off + n <= MAXBYTES
  {
    DataBlocks(d1, v1, off / BSIZE, Through(off, n)) + Indirect(v1) + Marks(sb, d0, d1)
  }

  /** The whole write besides logs the block of the inode. */
  ghost function Touched(sb: Superblock, d0: Image, d1: Image, i: nat, v1: Inode, off: nat, n: nat): set<nat>
    requires SbOk(sb) && |d0| == |d1| == sb.size && off + n <= MAXBYTES
  {
    WriteLog(sb, d0, d1, v1, off, n) + {Iblock(sb, i)}
  }

  lemma WriteLogSame(sb: Superblock, d0: Image, d1: Image, v1: Inode, d2: Image, v2: Inode, off: nat, n: nat)
    requires SbOk(sb) && |d0| == |d1| == |d2| == sb.size && off + n <= MAXBYTES && v2.addrs == v1.addrs
    requires forall k: nat | k < NSLOTS :: Slot(d2, v2, k) == Slot(d1, v1, k)
    requires forall c: nat | c < sb.size :: Used(sb, d2, c) == Used(sb, d1, c)
    ensures WriteLog(sb, d0, d2, v2, off, n) == WriteLog(sb, d0, d1, v1, off, n)
  {
    hide Slot, Used;
    assert Free(sb, d2) == Free(sb, d1);
  }

  /** One more block written. */
  lemma LoggedMore(sb: Superblock, d0: Image, v0: Inode, d1: Image, v1: Inode, d2: Image, v2: Inode,
                   off: nat, tot: nat, m: nat, l0: set<nat>, l1: set<nat>, l2: set<nat>)
    requires 0 < m && (off + tot) % BSIZE + m <= BSIZE && off + tot + m <= MAXBYTES
    requires Supplied(sb, d0, v0, d1, v1, off, tot)
    requires Grew(sb, d1, v1, d2, v2, (off + tot) / BSIZE, (off + tot) / BSIZE + 1)
    requires l1 <= l0 + WriteLog(sb, d0, d1, v1, off, tot)
    requires l2 <= l1 + {Slot(d2, v2, SlotOf((off + tot) / BSIZE))} + Indirect(v2) + Marks(sb, d1, d2)
    ensures l2 <= l0 + WriteLog(sb, d0, d2, v2, off, tot + m)
  {
    hide Slot, Marks, Empty, DataBlocks, Free, Filled;
    var lo, bn := off / BSIZE, (off + tot) / BSIZE;
    ThroughMore(off, tot, m);
    DataBlocksMore(d1, v1, d2, v2, lo, Through(off, tot), bn);
    MarksMore(sb, d0, v0, d1, v1, d2, v2, lo, Through(off, tot), bn, bn + 1);
    IndirectKept(d1, v1, d2, v2);
  }

  lemma IndirectKept(d1: Image, v1: Inode, d2: Image, v2: Inode)
    requires Kept(d1, v1, d2, v2)
    ensures Indirect(v1) <= Indirect(v2)
  {
    assert Slot(d1, v1, NDIRECT) == v1.addrs[NDIRECT] && Slot(d2, v2, NDIRECT) == v2.addrs[NDIRECT];
  }

  lemma DataBlocksMore(d1: Image, v1: Inode, d2: Image, v2: Inode, lo: nat, hi: nat, bn: nat)
    requires lo <= bn <= hi <= bn + 1 <= MAXFILE && Kept(d1, v1, d2, v2) && Empty(d1, v1, lo, hi) == {}
    ensures DataBlocks(d1, v1, lo, hi) + {Slot(d2, v2, SlotOf(bn))} <= DataBlocks(d2, v2, lo, bn + 1)
  {
    hide Slot;
    forall k: nat | lo <= k < hi ensures Slot(d1, v1, SlotOf(k)) in DataBlocks(d2, v2, lo, bn + 1) {
      assert Wanted(SlotOf(k), lo, hi);
      assert SlotOf(k) !in Empty(d1, v1, lo, hi);
    }
  }

  lemma {:induction false} DataBlocksCount(disk: Image, d: Inode, lo: nat, hi: nat)
    requires lo <= hi <= MAXFILE
    ensures |DataBlocks(disk, d, lo, hi)| <= hi - lo
  {
    hide Slot;
    if lo == hi {
      assert DataBlocks(disk, d, lo, hi) == {};
    } else {
      DataBlocksCount(disk, d, lo, hi - 1);
      assert DataBlocks(disk, d, lo, hi) == DataBlocks(disk, d, lo, hi - 1) + {Slot(disk, d, SlotOf(hi - 1))};
    }
  }

  /** How many blocks an operation of filewrite logs at most. */
  function OpLimit(sb: Superblock, whole: bool): nat {
    if sb.size <= BPB then 7 else if whole then 10 else 11
  }

  /** filewrite's largest chunk, ((MAXOPBLOCKS - 4) / 2) * 512 bytes, lies in at most four data blocks at
      any offset. In a file without holes at least one of four is there already, so that no more than
      four blocks are allocated: with the indirect block, the block of the inode and the bitmap
      blocks that is at most MAXOPBLOCKS, however large the bitmap, and seven with a bitmap of one block. */
  lemma ChunkFitsReservation(sb: Superblock, d0: Image, v0: Inode, d1: Image, v1: Inode, i: nat, off: nat, n: nat)
    requires SbOk(sb) && |d0| == |d1| == sb.size && 0 < n <= CHUNK && off <= v0.size && off + n <= MAXBYTES
    requires Supplied(sb, d0, v0, d1, v1, off, n)
    ensures |Touched(sb, d0, d1, i, v1, off, n)| <= OpLimit(sb, NoHoles(d0, v0)) && OpLimit(sb, true) <= Wal.MAXOPBLOCKS
  {
    hide Slot, Grew, Empty, Marks, NoHoles;
    var lo, hi := off / BSIZE, Through(off, n);
    DataBlocksCount(d1, v1, lo, hi);
    MarksCount(sb, d0, v0, d1, v1, lo, hi);
    EmptyCount(d0, v0, lo, lo, hi);
    assert hi - lo <= 4 && (off % BSIZE == 0 ==> hi - lo <= 3);
    if NoHoles(d0, v0) && off % BSIZE != 0 {
      FirstThere(d0, v0, off);
      EmptyCount(d0, v0, lo, lo + 1, hi);
    }
    TouchedCount(sb, d0, d1, i, v1, off, n);
  }

  lemma FirstThere(disk: Image, d: Inode, off: nat)
    requires NoHoles(disk, d) && off <= d.size && off % BSIZE != 0
    ensures off / BSIZE < MAXFILE && Slot(disk, d, SlotOf(off / BSIZE)) != 0
  {
    assert off / BSIZE * BSIZE < d.size;
  }

  lemma TouchedCount(sb: Superblock, d0: Image, d1: Image, i: nat, v1: Inode, off: nat, n: nat)
    requires SbOk(sb) && |d0| == |d1| == sb.size && off + n <= MAXBYTES
    ensures |Touched(sb, d0, d1, i, v1, off, n)| <=
            |DataBlocks(d1, v1, off / BSIZE, Through(off, n))| + |Marks(sb, d0, d1)| + 2
  {
    hide DataBlocks, Marks;
  }

  datatype WriteResult = WriteError | WriteDevice | OutOfBlocks | Wrote(n: nat)

  function Max(a: int, b: int): int {
    if a < b then b else a
  }

  /** data laid over block b from position o. */
  function Overlay(b: Block, o: nat, data: seq<Byte>): (r: Block)
    requires o + |data| <= BSIZE
    ensures forall t: nat | t < BSIZE :: r[t] == if o <= t < o + |data| then data[t - o] else b[t]
  {
    b[..o] + data + b[o + |data|..]
  }

  /** The only bytes of any file that changed are the ones of file i from o on, now data. */
  ghost predicate WroteBytes(disk: Image, f: seq<Inode>, disk': Image, f': seq<Inode>, i: nat, o: nat,
                             data: seq<Byte>) {
    && |f| == |f'| && i < |f| && o + |data| <= MAXBYTES
    && (forall p: nat | o <= p < o + |data| :: FileByte(disk', f'[i], p) == data[p - o])
    && (forall p: nat | p < MAXBYTES && !(o <= p < o + |data|) :: FileByte(disk', f'[i], p) == FileByte(disk, f[i], p))
    && (forall j: nat, p: nat | j < |f| && j != i && p < MAXBYTES ::
         FileByte(disk', f'[j], p) == FileByte(disk, f[j], p))
  }

  lemma ChunkWritten(sb: Superblock, disk: Image, f: seq<Inode>, owner: map<nat, (nat, nat)>, i: nat, o: nat,
                     data: seq<Byte>, disk': Image)
    requires SbOk(sb) && |disk| == sb.size && Owns(sb, disk, f, owner) && i < |f|
    requires o < MAXBYTES && o % BSIZE + |data| <= BSIZE && 0 != Slot(disk, f[i], SlotOf(o / BSIZE)) < |disk|
    requires var b := Slot(disk, f[i], SlotOf(o / BSIZE)); disk' == disk[b := Overlay(disk[b], o % BSIZE, data)]
    ensures Owns(sb, disk', f, owner) && Dinodes(sb, disk') == Dinodes(sb, disk)
    ensures forall j: nat, k: nat | j < |f| && k < NSLOTS :: Slot(disk', f[j], k) == Slot(disk, f[j], k)
    ensures WroteBytes(disk, f, disk', f, i, o, data)
  {
    hide Used, WordAt, Owns, Slot;
    var b, bn := Slot(disk, f[i], SlotOf(o / BSIZE)), o / BSIZE;
    WriteData(sb, disk, f, owner, i, bn, Overlay(disk[b], o % BSIZE, data), disk');
    forall p: nat | o <= p < o + |data| ensures FileByte(disk', f[i], p) == data[p - o] {
      assert p / BSIZE == bn && p % BSIZE == o % BSIZE + (p - o);
    }
    forall p: nat | p < MAXBYTES && !(o <= p < o + |data|)
      ensures FileByte(disk', f[i], p) == FileByte(disk, f[i], p)
    {
      if p / BSIZE == bn {
        assert p - o == p % BSIZE - o % BSIZE;
      }
    }
  }

  lemma SameThenWrote(d0: Image, f0: seq<Inode>, d1: Image, f1: seq<Inode>, d2: Image, i: nat, o: nat, data: seq<Byte>)
    requires SameBytes(d0, f0, d1, f1) && WroteBytes(d1, f1, d2, f1, i, o, data)
    ensures WroteBytes(d0, f0, d2, f1, i, o, data)
  {
    hide FileByte;
  }

  /** Two adjacent writes are one. */
  lemma WroteMore(d0: Image, f0: seq<Inode>, d1: Image, f1: seq<Inode>, d2: Image, f2: seq<Inode>, i: nat,
                  o: nat, data: seq<Byte>, more: seq<Byte>)
    requires WroteBytes(d0, f0, d1, f1, i, o, data) && WroteBytes(d1, f1, d2, f2, i, o + |data|, more)
    ensures WroteBytes(d0, f0, d2, f2, i, o, data + more)
  {
    hide FileByte;
  }

  datatype ReadResult = ReadError | ReadDevice | NoBlock | Bytes(data: seq<Byte>)

  function Min(a: int, b: int): int {
    if a < b then a else b
  }

  /** The file has a block for every byte below its size, which is within the largest file. */
  ghost predicate NoHoles(disk: Image, d: Inode) {
    d.size <= MAXBYTES && Mapped(disk, d, d.size)
  }

  ghost predicate Mapped(disk: Image, d: Inode, size: nat) {
    forall bn: nat | bn < MAXFILE && bn * BSIZE < size :: Slot(disk, d, SlotOf(bn)) != 0
  }

  lemma WroteNothing(disk: Image, f: seq<Inode>, i: nat, o: nat)
    requires i < |f| && o <= MAXBYTES
    ensures WroteBytes(disk, f, disk, f, i, o, [])
  {
    hide FileByte;
  }

  lemma WroteThenSame(d0: Image, f0: seq<Inode>, d1: Image, f1: seq<Inode>, d2: Image, f2: seq<Inode>, i: nat, o: nat,
                      data: seq<Byte>)
    requires WroteBytes(d0, f0, d1, f1, i, o, data) && SameBytes(d1, f1, d2, f2)
    ensures WroteBytes(d0, f0, d2, f2, i, o, data)
  {
    hide FileByte;
  }

  /** What a file contains. */
  ghost function Contents(disk: Image, d: Inode): (c: seq<Byte>)
    requires d.size <= MAXBYTES
    ensures |c| == d.size && forall p: nat | p < |c| :: c[p] == FileByte(disk, d, p)
  {
    seq(d.size, p requires 0 <= p < d.size => FileByte(disk, d, p))
  }

  lemma ContentsInBlock(disk: Image, d: Inode, o: nat, m: nat)
    requires d.size <= MAXBYTES && o + m <= d.size && o % BSIZE + m <= BSIZE
    requires o < MAXBYTES && 0 != Slot(disk, d, SlotOf(o / BSIZE)) < |disk|
    ensures Contents(disk, d)[o..o + m] == disk[Slot(disk, d, SlotOf(o / BSIZE))][o % BSIZE..o % BSIZE + m]
  {
    hide Slot;
    var b := Slot(disk, d, SlotOf(o / BSIZE));
    var lhs, rhs := Contents(disk, d)[o..o + m], disk[b][o % BSIZE..o % BSIZE + m];
    forall t: nat | t < m ensures lhs[t] == rhs[t] {
      assert (o + t) / BSIZE == o / BSIZE && (o + t) % BSIZE == o % BSIZE + t;
    }
  }

  /** A block an inode refers to is a data block on the disk. */
  lemma DataBlock(sb: Superblock, disk: Image, f: seq<Inode>, owner: map<nat, (nat, nat)>, i: nat, k: nat)
    requires SbOk(sb) && |disk| == sb.size && Owns(sb, disk, f, owner) && i < |f| && k < NSLOTS
    ensures Slot(disk, f[i], k) != 0 ==> DataStart(sb) <= Slot(disk, f[i], k) < sb.size
  {
  }

  ghost function Indirect(d: Inode): set<nat> {
    if d.addrs[NDIRECT] == 0 then {} else {d.addrs[NDIRECT]}
  }

  lemma ForeignAdd(owner: map<nat, (nat, nat)>, i: nat, k: nat, b: nat)
    requires b !in owner
    ensures Foreign(owner[b := (i, k)], i) == Foreign(owner, i)
  {
  }

  lemma ForeignTwice(owner: map<nat, (nat, nat)>, i: nat)
    ensures Foreign(Foreign(owner, i), i) == Foreign(owner, i)
  {
  }

  lemma SameBytesTrans(d0: Image, f0: seq<Inode>, d1: Image, f1: seq<Inode>, d2: Image, f2: seq<Inode>)
    requires SameBytes(d0, f0, d1, f1) && SameBytes(d1, f1, d2, f2)
    ensures SameBytes(d0, f0, d2, f2)
  {
    hide FileByte;
  }

  lemma SameBytesRefl(disk: Image, f: seq<Inode>)
    ensures SameBytes(disk, f, disk, f)
  {
  }

  // ----- where every run starts -----

  lemma {:induction false} ZeroBit(k: nat)
    ensures !BitOf(0, k)
  {
    if k > 0 {
      ZeroBit(k - 1);
    }
  }

  lemma ZeroBits(i: nat)
    requires i < BPB
    ensures !BitAt(ZERO, i)
  {
    ZeroBit(i % 8);
  }

  lemma ZeroInode(slot: nat)
    requires slot < IPB
    ensures Decode(ZERO, slot) == Blank(0)
  {
    hide WordAt;
    forall w: nat | w < WORDS ensures WordAt(ZERO, w) == 0 {
      ZeroWord(w);
    }
    assert Decode(ZERO, slot).addrs == Blank(0).addrs;
  }

  /** The disk that mkfs makes before it puts a file on it: all blocks zero but the bitmap, in which the
      blocks before the data blocks are in use. False is its assertion that one bitmap block will do. */
  method Format(sb: Superblock) returns (ok: bool, disk: Image)
    requires SbOk(sb)
    ensures ok <==> DataStart(sb) < BPB
    ensures ok ==> |disk| == sb.size && Consistent(sb, disk, map[])
    ensures ok ==> forall i: nat | i < sb.ninodes :: DinodeAt(sb, disk, i) == Blank(0)
    ensures ok ==> forall b: nat | b < sb.size :: Used(sb, disk, b) <==> b < DataStart(sb)
  {
    hide BitAt, Decode;
    disk := seq(sb.size, i => ZERO);
    if DataStart(sb) >= BPB {
      return false, disk;
    }
    var buf := ZERO;
    forall j: nat | j < BPB ensures !BitAt(ZERO, j) {
      ZeroBits(j);
    }
    for i := 0 to DataStart(sb)
      invariant forall j: nat | j < BPB :: BitAt(buf, j) == (j < i)
    {
      buf := WithBit(buf, i);
    }
    disk := disk[sb.bmapstart := buf];
    FormattedBits(sb, disk, buf);
    Formatted(sb, disk);
    ok := true;
  }

  lemma FormattedBits(sb: Superblock, disk: Image, buf: Block)
    requires SbOk(sb) && |disk| == sb.size && DataStart(sb) < BPB && disk[sb.bmapstart] == buf
    requires forall b: nat | b < sb.size && b != sb.bmapstart :: disk[b] == ZERO
    requires forall j: nat | j < BPB :: BitAt(buf, j) == (j < DataStart(sb))
    ensures forall b: nat | b < sb.size :: Used(sb, disk, b) <==> b < DataStart(sb)
  {
    hide BitAt;
    forall b: nat | b < sb.size ensures Used(sb, disk, b) <==> b < DataStart(sb) {
      if b >= BPB {
        assert Bblock(sb, b) != sb.bmapstart;
        ZeroBits(b % BPB);
      }
    }
  }

  /** On a formatted disk every inode is free and all of them are in order. */
  lemma Formatted(sb: Superblock, disk: Image)
    requires SbOk(sb) && |disk| == sb.size
    requires forall b: nat | sb.inodestart <= b < sb.bmapstart :: disk[b] == ZERO
    requires forall b: nat | b < sb.size :: Used(sb, disk, b) <==> b < DataStart(sb)
    ensures Consistent(sb, disk, map[]) && forall i: nat | i < sb.ninodes :: DinodeAt(sb, disk, i) == Blank(0)
  {
    hide Used, WordAt, Decode;
    forall i: nat | i < sb.ninodes ensures DinodeAt(sb, disk, i) == Blank(0) {
      ZeroInode(i % IPB);
    }
    BlankMapped(disk, 0);
    forall k: nat | k < NSLOTS ensures Slot(disk, Blank(0), k) == 0 {}
  }

  /** A file of one byte without a block, written in place: the inode on disk does not learn of the block
      that writei allocates, so that whoever reads the inode from there finds the byte zero. */
  method HoleLost(sb: Superblock) returns (fs: FileSystem, ip: InodeCopy)
    requires SbOk(sb) && DataStart(sb) < BPB && DataStart(sb) < sb.size && 1 < sb.ninodes
    ensures fs.Valid(ip) && fs.sb == sb && ip.inum == 1 && ip.v.size == DinodeAt(sb, fs.disk, 1).size == 1
    ensures Contents(fs.disk, ip.v) == [7] && Contents(fs.disk, DinodeAt(sb, fs.disk, 1)) == [0]
  {
    hide Used, Owns, WordAt, History, Contents, WroteBytes, SameBytes, Foreign, SameBlocks, Marks, WriteLog, Grew,
         Decode;
    var ok, disk := Format(sb);
    fs := new FileSystem(sb, disk, map[]);
    ip := new InodeCopy(1, Blank(0));
    assert fs.Files(ip) == Dinodes(sb, disk);
    fs.SetSize(ip, 1);
    ghost var d0, v0 := fs.disk, ip.v;
    OneByteFits(sb, d0, v0);
    assert Dinodes(sb, d0)[1] == DinodeAt(sb, d0, 1) == v0;
    var w := fs.Writei(ip, [7], 0);
    assert Dinodes(sb, fs.disk)[1] == DinodeAt(sb, fs.disk, 1) == v0;
    NoBlockZero(d0, v0);
    NoBlockZero(fs.disk, v0);
  }

  lemma OneByteFits(sb: Superblock, disk: Image, d: Inode)
    requires SbOk(sb) && |disk| == sb.size && DataStart(sb) < sb.size && !Used(sb, disk, DataStart(sb))
    requires d.addrs == Blank(0).addrs
    ensures !TooFew(sb, disk, d, 0, 1) && Lacks(d, 0, Through(0, 1))
  {
    hide Used, WordAt;
    assert DataStart(sb) in Free(sb, disk);
    assert Empty(disk, d, 0, 1) <= {0};
    SubsetCount(Empty(disk, d, 0, 1), {0});
    SubsetCount({DataStart(sb)}, Free(sb, disk));
    assert Wanted(0, 0, 1) && d.addrs[0] == 0;
  }

  lemma NoBlockZero(disk: Image, d: Inode)
    requires d.addrs == Blank(0).addrs && d.size == 1
    ensures Contents(disk, d) == [0]
  {
    assert FileByte(disk, d, 0) == 0;
  }
}
