/** ssufs, the small file system of ssufs-disk.c and ssufs-ops.c: eight inodes of at most four direct
    blocks, a superblock with the two free lists, and a table of open files. */
module Ssufs {
  import opened Counting

  const BLOCKSIZE := 64
  const NBLOCKS := 30            // NUM_DATA_BLOCKS
  const NINODES := 8             // NUM_INODES
  const NDIRECT := 4             // MAX_FILE_SIZE, in blocks
  const NHANDLES := 20           // MAX_OPEN_FILES
  const NAMELEN := 8             // MAX_NAME_STRLEN
  const FILEBYTES := 256         // BLOCKSIZE * MAX_FILE_SIZE

  type Byte = bv8
  type Block = s: seq<Byte> | |s| == BLOCKSIZE witness seq(BLOCKSIZE, i => 0)

  datatype Super = Super(inodes: seq<bool>, blocks: seq<bool>)     // true is in use
  datatype Inode = Inode(used: bool, name: string, size: nat, direct: seq<int>)
  datatype Handle = Handle(inode: int, offset: nat)

  const NOINODE := Inode(false, "", 0, [-1, -1, -1, -1])

  function Zeros(n: nat): (z: seq<Byte>)
    ensures |z| == n && forall k: nat | k < n :: z[k] == 0
  {
    seq(n, i => 0)
  }

  /** Byte k of a file; a file has zeros where it has no block. */
  function ByteAt(data: seq<Block>, direct: seq<int>, k: nat): Byte {
    var i := k / BLOCKSIZE;
    if i < |direct| && 0 <= direct[i] < |data| then data[direct[i]][k % BLOCKSIZE] else 0
  }

  /** Everything a file's blocks hold. */
  function Image(data: seq<Block>, direct: seq<int>): (m: seq<Byte>)
    ensures |m| == FILEBYTES && forall k: nat | k < FILEBYTES :: m[k] == ByteAt(data, direct, k)
  {
    seq(FILEBYTES, k requires 0 <= k => ByteAt(data, direct, k))
  }

  function Contents(data: seq<Block>, node: Inode): seq<Byte> {
    if node.size <= FILEBYTES then Image(data, node.direct)[..node.size] else []
  }

  function Spliced(m: seq<Byte>, off: nat, bytes: seq<Byte>): (r: seq<Byte>)
    requires off + |bytes| <= |m|
    ensures |r| == |m|
  {
    m[..off] + bytes + m[off + |bytes|..]
  }

  /** The block pointers of an inode: blocks first, then -1. */
  ghost predicate GoodDirect(direct: seq<int>) {
    && |direct| == NDIRECT
    && (forall k: nat | k < NDIRECT :: -1 <= direct[k] < NBLOCKS)
    && (forall k: nat, l: nat | k < l < NDIRECT && direct[k] < 0 :: direct[l] < 0)
  }

  /** Pointer k of inode i; -1 where there is none. */
  function Ptr(nodes: seq<Inode>, i: nat, k: nat): int {
    if i < |nodes| && k < |nodes[i].direct| then nodes[i].direct[k] else -1
  }

  /** Every block an inode points at is in use, and no other pointer points at it. */
  ghost predicate Owned(sb: Super, nodes: seq<Inode>) {
    && |sb.inodes| == NINODES && |sb.blocks| == NBLOCKS && |nodes| == NINODES
    && (forall i: nat | i < NINODES :: GoodDirect(nodes[i].direct))
    && (forall i: nat, k: nat | Ptr(nodes, i, k) >= 0 :: Ptr(nodes, i, k) < NBLOCKS && sb.blocks[Ptr(nodes, i, k)])
    && (forall i: nat, k: nat, j: nat, l: nat | Ptr(nodes, i, k) >= 0 && Ptr(nodes, i, k) == Ptr(nodes, j, l) ::
         i == j && k == l)
  }

  /** Past its end a file has only zeros. */
  ghost predicate ZeroTails(data: seq<Block>, nodes: seq<Inode>) {
    && |data| == NBLOCKS
    && (forall i: nat | i < |nodes| :: nodes[i].size <= FILEBYTES)
    && (forall i: nat, k: nat | i < |nodes| && nodes[i].size <= k < FILEBYTES :: ByteAt(data, nodes[i].direct, k) == 0)
  }

  /** What open_namei finds under a name: strcmp on a name of eight characters, which has no NUL of its
      own, reads on into the low byte of the file size. */
  predicate Named(node: Inode, filename: string) {
    node.name == filename && (|node.name| < NAMELEN || node.size % 256 == 0)
  }

  /** What the eight bytes of an inode keep of a name. */
  function KeptName(filename: string): string {
    if |filename| <= NAMELEN then filename else filename[..NAMELEN]
  }

  /** No two files in use have the same name of less than eight characters. */
  ghost predicate UniqueNames(sb: Super, nodes: seq<Inode>) {
    && |sb.inodes| == |nodes|
    && forall i: nat, j: nat | i < j < |nodes| && sb.inodes[i] && sb.inodes[j] && |nodes[i].name| < NAMELEN ::
         nodes[i].name != nodes[j].name
  }

  /** Handle h is the first one on the inode. */
  ghost predicate FirstOn(handles: seq<Handle>, inum: int, h: nat) {
    h < |handles| && handles[h].inode == inum && forall g: nat | g < h :: handles[g].inode != inum
  }

  /** Every block in use belongs to a file. */
  ghost predicate NoLeaks(sb: Super, nodes: seq<Inode>) {
    forall b: nat | b < |sb.blocks| && sb.blocks[b] :: exists i: nat, k: nat :: Ptr(nodes, i, k) == b
  }

  /** How many blocks a write that ends there has to take. */
  ghost function Lacking(node: Inode, end: nat): nat
    requires |node.direct| == NDIRECT
  {
    Missing(node.direct, NumBlocks(end), NDIRECT)
  }

  ghost predicate GoodHandles(handles: seq<Handle>) {
    |handles| == NHANDLES && forall h: nat | h < NHANDLES :: -1 <= handles[h].inode < NINODES
  }

  /** Closed handles stand at zero, so that the next to open one starts at the beginning of the file. */
  ghost predicate AtStart(handles: seq<Handle>) {
    forall h: nat | h < |handles| && handles[h].inode < 0 :: handles[h].offset == 0
  }

  /** What stands where the size of inode -1 would be: the last two marks of the superblock's list of data
      blocks, and the two bytes behind it, which hold anything. */
  function Stray(sb: Super, pad: int): int
    requires |sb.blocks| == NBLOCKS
  {
    Mark(sb.blocks[28]) + 0x100 * Mark(sb.blocks[29]) + 0x1_0000 * pad
  }

  function Mark(used: bool): int {
    if used then 0x31 else 0x78
  }

  /** (offset + nbytes - 1) / BLOCKSIZE + 1, with C's division. */
  function NumBlocks(end: nat): nat {
    if end == 0 then 1 else (end - 1) / BLOCKSIZE + 1
  }

  /** How many of the first i pointers a write of n blocks has to fill in. */
  function Missing(direct: seq<int>, n: nat, i: nat): nat
    requires i <= |direct|
  {
    if i == 0 then 0 else Missing(direct, n, i - 1) + if direct[i - 1] < 0 && i - 1 < n then 1 else 0
  }

  ghost function FreeBlocks(sb: Super): set<nat> {
    set b: nat | b < |sb.blocks| && !sb.blocks[b]
  }

  /** The block marks once the first n pointers of a file are freed. */
  ghost function Cleared(blocks: seq<bool>, direct: seq<int>, n: nat): (r: seq<bool>)
    requires n <= |direct|
    ensures |r| == |blocks|
  {
    seq(|blocks|, b requires 0 <= b < |blocks| => blocks[b] && b !in direct[..n])
  }

  /** No pointer is the same as another. */
  ghost predicate Apart(direct: seq<int>) {
    forall k: nat, l: nat | k < l < |direct| && direct[k] >= 0 :: direct[k] != direct[l]
  }

  /** Every file holds the same as before, but perhaps file inum. */
  ghost predicate SameFiles(data: seq<Block>, data': seq<Block>, nodes: seq<Inode>, nodes': seq<Inode>, inum: int) {
    && |nodes'| == |nodes|
    && forall i: nat | i < |nodes| && i != inum ::
         nodes'[i] == nodes[i] && Image(data', nodes[i].direct) == Image(data, nodes[i].direct)
  }

  class Disk {
    var super: Super
    var inodes: seq<Inode>
    var data: seq<Block>
    var handles: seq<Handle>

    ghost predicate Valid()
      reads this
    {
      Owned(super, inodes) && ZeroTails(data, inodes) && UniqueNames(super, inodes) && GoodHandles(handles)
    }

    /** ssufs_formatDisk */
    constructor (data: seq<Block>)
      requires |data| == NBLOCKS
      ensures Valid()
      ensures forall i: nat | i < NINODES ::
                !super.inodes[i] && inodes[i] == NOINODE && Contents(this.data, inodes[i]) == []
      ensures forall b: nat | b < NBLOCKS :: !super.blocks[b]
      ensures forall h: nat | h < NHANDLES :: handles[h] == Handle(-1, 0)
    {
      super := Super(seq(NINODES, i => false), seq(NBLOCKS, i => false));
      inodes := seq(NINODES, i => NOINODE);
      this.data := data;
      handles := seq(NHANDLES, i => Handle(-1, 0));
      new;
      hide Owned, ZeroTails, UniqueNames;
      Formatted(super, inodes, data);
    }

    lemma Sizes()
      requires Valid()
      ensures |super.inodes| == |inodes| == NINODES && |super.blocks| == |data| == NBLOCKS && |handles| == NHANDLES
    {
    }

    /** ssufs_allocDataBlock: the first free block. */
    method AllocDataBlock() returns (r: int)
      modifies `super
      ensures r < 0 ==> r == -1 && super == old(super) && forall b: nat | b < |super.blocks| :: super.blocks[b]
      ensures r >= 0 ==> && r < |old(super).blocks| && !old(super).blocks[r]
                         && (forall b: nat | b < r :: old(super).blocks[b])
                         && super == old(super).(blocks := old(super).blocks[r := true])
    {
      var sb := super;
      for i := 0 to |sb.blocks|
        invariant super == old(super) == sb && forall b: nat | b < i :: sb.blocks[b]
      {
        if !sb.blocks[i] {
          super := sb.(blocks := sb.blocks[i := true]);
          return i;
        }
      }
      return -1;
    }

    /** ssufs_freeDataBlock; false is the failed assertion. */
    method FreeDataBlock(b: nat) returns (ok: bool)
      requires b < |super.blocks|
      modifies `super
      ensures ok <==> old(super).blocks[b]
      ensures super == if ok then old(super).(blocks := old(super).blocks[b := false]) else old(super)
    {
      var sb := super;
      if !sb.blocks[b] {
        return false;
      }
      super := sb.(blocks := sb.blocks[b := false]);
      return true;
    }

    /** ssufs_freeInode: false is a failed assertion. The superblock is written, changed by the call
        that frees the block, and read again, and no mark is lost over that. */
    method FreeInode(inum: nat) returns (ok: bool)
      requires Valid() && inum < NINODES
      modifies `super, `inodes
      ensures ok <==> old(super).inodes[inum]
      ensures !ok ==> super == old(super) && inodes == old(inodes)
      ensures ok ==>
                && super == Super(old(super).inodes[inum := false],
                                  Cleared(old(super).blocks, old(inodes)[inum].direct, NDIRECT))
                && inodes == old(inodes)[inum := NOINODE.(name := old(inodes)[inum].name)]
      ensures Valid()
    {
      hide Owned, ZeroTails, UniqueNames, GoodHandles, Cleared;
      OwnedFacts(super, inodes, inum);
      var sb, node := super, inodes[inum];
      ghost var direct := node.direct;
      if !sb.inodes[inum] {
        return false;
      }
      sb := sb.(inodes := sb.inodes[inum := false]);
      node := node.(used := false, size := 0);
      ClearedNone(sb.blocks, direct);
      for i := 0 to NDIRECT
        invariant inodes == old(inodes)
        invariant sb == Super(old(super).inodes[inum := false], Cleared(old(super).blocks, direct, i))
        invariant node == Inode(false, old(inodes)[inum].name, 0, node.direct) && |node.direct| == NDIRECT
        invariant forall k: nat | k < NDIRECT :: node.direct[k] == if k < i then -1 else direct[k]
      {
        ClearedNext(old(super).blocks, direct, i);
        if node.direct[i] != -1 {
          super := sb;
          var freed := FreeDataBlock(node.direct[i]);
          sb := super;
        }
        node := node.(direct := node.direct[i := -1]);
      }
      FreedInode(old(super), old(inodes), data, inum);
      super := sb;
      assert node.direct == NOINODE.direct;
      inodes := inodes[inum := node];
      return true;
    }

    /** ssufs_write's first loop: find or make the first n blocks, and read all the file's blocks into
        a buffer. On disk the inode still has its old pointers. */
    method Gather(inum: nat, n: nat) returns (ok: bool, direct: seq<int>, tmp: seq<Byte>)
      requires Valid() && inum < NINODES && n <= NDIRECT
      modifies `super, `data
      ensures Owned(super, inodes) && ZeroTails(data, inodes) && SameFiles(old(data), data, inodes, inodes, -1)
      ensures super.inodes == old(super).inodes
      ensures ok <==> Missing(inodes[inum].direct, n, NDIRECT) <= |FreeBlocks(old(super))|
      ensures !ok ==> FreeBlocks(super) == {}
      ensures ok ==> |FreeBlocks(super)| == |FreeBlocks(old(super))| - Missing(inodes[inum].direct, n, NDIRECT)
      ensures ok ==> Owned(super, inodes[inum := inodes[inum].(direct := direct)]) && Image(data, direct) == tmp
      ensures ok ==> tmp == Image(old(data), inodes[inum].direct)
      ensures ok ==> |direct| == NDIRECT && forall k: nat | k < n :: direct[k] >= 0
      ensures ok && NoLeaks(old(super), inodes) ==> NoLeaks(super, inodes[inum := inodes[inum].(direct := direct)])
      ensures !ok ==> super == old(super) || !NoLeaks(super, inodes)
      ensures FreeBlocks(old(super)) == {} ==> super == old(super)
    {
      hide Owned, ZeroTails, UniqueNames, GoodHandles, FreeBlocks, Missing, Image, ByteAt, SameFiles, NoLeaks;
      OwnedFacts(super, inodes, inum);
      ghost var before := inodes[inum].direct;
      tmp := Zeros(FILEBYTES);
      direct := inodes[inum].direct;
      assert inodes[inum := inodes[inum].(direct := direct)] == inodes;
      SameFilesNone(data, inodes, -1);
      MissingNone(before, n);
      TmpNone(data, direct);
      var i := 0;
      while i < NDIRECT
        invariant i <= NDIRECT && Owned(super, inodes) && ZeroTails(data, inodes) && super.inodes == old(super).inodes
        invariant SameFiles(old(data), data, inodes, inodes, -1)
        invariant Owned(super, inodes[inum := inodes[inum].(direct := direct)])
        invariant Image(data, direct) == Image(old(data), before)
        invariant |direct| == NDIRECT && (forall k: nat | k < i :: direct[k] >= 0)
        invariant forall k: nat | i <= k < NDIRECT :: direct[k] == before[k]
        invariant |FreeBlocks(super)| == |FreeBlocks(old(super))| - Missing(before, n, i)
        invariant TmpUpTo(data, direct, tmp, i)
        invariant NoLeaks(old(super), inodes) ==> NoLeaks(super, inodes[inum := inodes[inum].(direct := direct)])
        invariant super == old(super) || (!NoLeaks(super, inodes) && FreeBlocks(old(super)) != {})
      {
        DataCount(data, inodes);
        OwnedFacts(super, inodes, inum);
        MissingNext(before, n, i);
        var idx := direct[i];
        if idx < 0 {
          if i >= n {
            break;
          }
          ghost var sb, dt := super, data;
          idx := AllocDataBlock();
          if idx < 0 {
            NoneFree(super);
            MissingMore(before, n, i + 1);
            return false, direct, tmp;
          }
          OneTaken(sb, idx);
          OneLeaked(old(super), sb, inodes, inum, direct, i, idx);
          AllocOwned(sb, inodes, inum, direct, i, idx);
          TmpZero(data, direct, tmp, i);
          var zero: Block := tmp[i * BLOCKSIZE..(i + 1) * BLOCKSIZE];
          FreshData(sb, inodes, data, idx, zero);
          FreshImage(sb, inodes, inum, data, direct, i, idx, zero);
          TmpSame(data, direct, data[idx := zero], direct[i := idx], tmp, i);
          data := data[idx := zero];
          SameFilesTrans(old(data), dt, data, inodes);
          direct := direct[i := idx];
        }
        TmpNext(data, direct, tmp, i);
        tmp := tmp[..i * BLOCKSIZE] + data[idx] + tmp[(i + 1) * BLOCKSIZE..];
        i := i + 1;
      }
      OwnedFacts(super, inodes[inum := inodes[inum].(direct := direct)], inum);
      TmpAll(data, direct, tmp, i);
      MissingRest(before, n, i);
      return true, direct, tmp;
    }

    /** ssufs_write's second loop: the buffer goes to the file's blocks. */
    method Scatter(direct: seq<int>, tmp: seq<Byte>)
      requires GoodDirect(direct) && Apart(direct) && |data| == NBLOCKS && |tmp| == FILEBYTES
      modifies `data
      ensures |data| == NBLOCKS && forall b: nat | b < NBLOCKS && b !in direct :: data[b] == old(data)[b]
      ensures forall k: nat | k < FILEBYTES && direct[k / BLOCKSIZE] >= 0 :: ByteAt(data, direct, k) == tmp[k]
    {
      for i := 0 to NDIRECT
        invariant |data| == NBLOCKS && forall b: nat | b < NBLOCKS && b !in direct :: data[b] == old(data)[b]
        invariant forall k: nat | k < i * BLOCKSIZE && direct[k / BLOCKSIZE] >= 0 :: ByteAt(data, direct, k) == tmp[k]
      {
        if direct[i] < 0 {
          break;
        }
        data := data[direct[i] := tmp[i * BLOCKSIZE..(i + 1) * BLOCKSIZE]];
      }
    }

    /** ssufs_write: the bytes go in at the handle's offset, over what was there and past the end of the
        file if need be, and the handle moves past them; no other file changes. It fails exactly when
        the handle is closed, the file would be too long, or there are too few free blocks, and then
        every file holds what it held; but after a failure for want of blocks none is left free, and
        those it took belong to no file: blocks leak exactly when some were free, but too few. */
    method Write(fh: nat, buf: seq<Byte>) returns (ok: bool)
      requires Valid() && fh < NHANDLES
      modifies this
      ensures Valid()
      ensures var h := old(handles)[fh];
              ok <==> h.inode >= 0 && h.offset + |buf| <= FILEBYTES &&
                      Lacking(old(inodes)[h.inode], h.offset + |buf|) <= |FreeBlocks(old(super))|
      ensures super.inodes == old(super).inodes
      ensures ok ==> Stored(old(data), old(inodes), data, inodes, old(handles)[fh].inode, old(handles)[fh].offset, buf)
      ensures ok ==> handles == old(handles)[fh := old(handles)[fh].(offset := old(handles)[fh].offset + |buf|)]
      ensures ok ==> |FreeBlocks(super)| ==
                       |FreeBlocks(old(super))| -
                       Lacking(old(inodes)[old(handles)[fh].inode], handles[fh].offset)
      ensures !ok ==> handles == old(handles) && inodes == old(inodes) && SameFiles(old(data), data, inodes, inodes, -1)
      ensures !ok ==> super == old(super) || FreeBlocks(super) == {}
      ensures var h := old(handles)[fh];
              NoLeaks(old(super), old(inodes)) ==>
                (NoLeaks(super, inodes) <==>
                   || h.inode < 0 || h.offset + |buf| > FILEBYTES || FreeBlocks(old(super)) == {}
                   || Lacking(old(inodes)[h.inode], h.offset + |buf|) <= |FreeBlocks(old(super))|)
      ensures var h := old(handles)[fh];
              FreeBlocks(old(super)) == {} || h.inode < 0 || h.offset + |buf| > FILEBYTES ==> super == old(super)
    {
      hide Owned, ZeroTails, UniqueNames, FreeBlocks, Missing, Image, ByteAt, SameFiles, Stored, NoLeaks, GoodHandles,
           NumBlocks, Contents, Stray;
      HandleAt(handles, fh, 0);
      var h := handles[fh];
      SameFilesNone(data, inodes, -1);
      if h.inode < 0 || h.offset + |buf| > FILEBYTES {
        return false;
      }
      OwnedFacts(super, inodes, h.inode);
      var node := inodes[h.inode];
      var n := NumBlocks(h.offset + |buf|);
      BlocksEnough(h.offset + |buf|);
      var direct, tmp;
      ok, direct, tmp := Gather(h.inode, n);
      if !ok {
        SameNames(old(super), super, inodes, h.inode, node);
        assert inodes[h.inode := node] == inodes;
        return false;
      }
      node := node.(direct := direct);
      ghost var dt := data;
      tmp := tmp[..h.offset] + buf + tmp[h.offset + |buf|..];
      OwnedFacts(super, inodes[h.inode := node], h.inode);
      DataCount(data, inodes);
      Scatter(node.direct, tmp);
      if node.size < h.offset + |buf| {
        node := node.(size := h.offset + |buf|);
      }
      SizeOwned(super, inodes, h.inode, direct, node);
      SizeLeaks(super, inodes, h.inode, direct, node);
      WriteStores(super, inodes, old(data), dt, data, h.inode, node, h.offset, buf, n, tmp);
      SameNames(old(super), super, inodes, h.inode, node);
      inodes := inodes[h.inode := node];
      OwnedFacts(super, inodes, h.inode);
      HandleAt(handles, fh, h.offset + |buf|);
      var moved := Lseek(fh, |buf|, 0);
      return true;
    }

    /** ssufs_lseek. On a closed handle it takes for the size of the file what lies where inode -1 would
        be; the handle's next user then starts at the offset left behind. */
    method Lseek(fh: nat, nseek: int, pad: int) returns (ok: bool)
      requires fh < |handles| && -1 <= handles[fh].inode < |inodes| && |super.blocks| == NBLOCKS
      modifies `handles
      ensures var h := old(handles)[fh];
              var fsize := if h.inode < 0 then Stray(super, pad) else inodes[h.inode].size;
              ok <==> fsize != -1 && 0 <= h.offset + nseek <= fsize
      ensures !ok ==> handles == old(handles)
      ensures ok ==> && old(handles)[fh].offset + nseek >= 0
                     && handles == old(handles)[fh := old(handles)[fh].(offset := old(handles)[fh].offset + nseek)]
      ensures old(AtStart(handles)) ==>
                (AtStart(handles) <==> old(handles)[fh].inode >= 0 || !ok || handles[fh].offset == 0)
    {
      var offset := handles[fh].offset;
      var fsize := if handles[fh].inode < 0 then Stray(super, pad) else inodes[handles[fh].inode].size;
      offset := offset + nseek;
      if fsize == -1 || offset < 0 || offset > fsize {
        return false;
      }
      handles := handles[fh := handles[fh].(offset := offset)];
      return true;
    }

    /** ssufs_read: the bytes of the file from the handle's offset on, if the file has that many. */
    method Read(fh: nat, nbytes: nat) returns (ok: bool, buf: seq<Byte>)
      requires Valid() && fh < NHANDLES
      modifies `handles
      ensures Valid()
      ensures var h := old(handles)[fh]; ok <==> h.inode >= 0 && h.offset + nbytes <= inodes[h.inode].size
      ensures ok ==> var h := old(handles)[fh]; buf == Contents(data, inodes[h.inode])[h.offset..h.offset + nbytes]
      ensures ok ==> handles == old(handles)[fh := old(handles)[fh].(offset := old(handles)[fh].offset + nbytes)]
      ensures !ok ==> handles == old(handles)
    {
      hide Owned, ZeroTails, UniqueNames, Image, ByteAt;
      var h := handles[fh];
      if h.inode < 0 {
        return false, [];
      }
      OwnedFacts(super, inodes, h.inode);
      DataCount(data, inodes);
      var node := inodes[h.inode];
      if node.size < nbytes + h.offset {
        return false, [];
      }
      var tmp := Zeros(FILEBYTES);
      TmpNone(data, node.direct);
      var i := 0;
      while i < NDIRECT && node.direct[i] >= 0
        invariant i <= NDIRECT && TmpUpTo(data, node.direct, tmp, i) && handles == old(handles)
      {
        TmpNext(data, node.direct, tmp, i);
        tmp := tmp[..i * BLOCKSIZE] + data[node.direct[i]] + tmp[(i + 1) * BLOCKSIZE..];
        i := i + 1;
      }
      TmpAll(data, node.direct, tmp, i);
      buf := tmp[h.offset..h.offset + nbytes];
      ok := Lseek(fh, nbytes, 0);
    }

    /** open_namei: the first inode in use that is found under that name. */
    method OpenNamei(filename: string) returns (r: int)
      requires |super.inodes| == |inodes|
      ensures -1 <= r < |inodes|
      ensures r >= 0 ==> |filename| <= NAMELEN && super.inodes[r] && Named(inodes[r], filename)
      ensures |filename| <= NAMELEN ==>
                forall i: nat | i < (if r < 0 then |inodes| else r) && super.inodes[i] :: !Named(inodes[i], filename)
    {
      if |filename| > NAMELEN {
        return -1;
      }
      for i := 0 to |inodes|
        invariant forall j: nat | j < i && super.inodes[j] :: !Named(inodes[j], filename)
      {
        if super.inodes[i] && Named(inodes[i], filename) {
          return i;
        }
      }
      return -1;
    }

    /** ssufs_allocInode: the first free inode. */
    method AllocInode() returns (r: int)
      modifies `super
      ensures -1 <= r < |old(super).inodes|
      ensures r < 0 ==> super == old(super) && forall i: nat | i < |super.inodes| :: super.inodes[i]
      ensures r >= 0 ==> && !old(super).inodes[r] && (forall i: nat | i < r :: old(super).inodes[i])
                         && super == old(super).(inodes := old(super).inodes[r := true])
    {
      var sb := super;
      for i := 0 to |sb.inodes|
        invariant super == old(super) == sb && forall j: nat | j < i :: sb.inodes[j]
      {
        if !sb.inodes[i] {
          super := sb.(inodes := sb.inodes[i := true]);
          return i;
        }
      }
      return -1;
    }

    /** ssufs_create: a new empty file, unless the name is found already or there is no inode left. Of a
        name only eight characters are kept, and a longer one is never found. */
    method Create(filename: string) returns (r: int)
      requires Valid()
      modifies `super, `inodes
      ensures Valid() && -1 <= r < NINODES
      ensures r < 0 <==>
                || (&& |filename| <= NAMELEN
                    && exists i: nat :: i < NINODES && old(super).inodes[i] && Named(old(inodes)[i], filename))
                         || (forall i: nat | i < NINODES :: old(super).inodes[i])
      ensures r < 0 ==> super == old(super) && inodes == old(inodes)
      ensures r >= 0 ==> && !old(super).inodes[r] && (forall i: nat | i < r :: old(super).inodes[i])
                         && super == old(super).(inodes := old(super).inodes[r := true])
                         && inodes == old(inodes)[r := Inode(true, KeptName(filename), 0, NOINODE.direct)]
                         && Contents(data, inodes[r]) == []
    {
      hide Owned, ZeroTails, Image, ByteAt;
      OwnedFacts(super, inodes, 0);
      var i := OpenNamei(filename);
      if i >= 0 {
        return -1;
      }
      r := AllocInode();
      if r < 0 {
        return -1;
      }
      Created(old(super), inodes, data, r, Inode(true, KeptName(filename), 0, NOINODE.direct));
      inodes := inodes[r := Inode(true, KeptName(filename), 0, [-1, -1, -1, -1])];
    }

    /** ssufs_allocFileHandle and ssufs_open: the first closed handle, at the offset it was left at. */
    method Open(filename: string) returns (r: int)
      requires Valid()
      modifies `handles
      ensures Valid() && -1 <= r < NHANDLES
      ensures r < 0 ==> handles == old(handles)
      ensures r >= 0 ==> && |filename| <= NAMELEN && old(handles)[r].inode < 0 && 0 <= handles[r].inode < NINODES
                         && (forall h: nat | h < r :: handles[h].inode >= 0)
                         && handles == old(handles)[r := old(handles)[r].(inode := handles[r].inode)]
                         && super.inodes[handles[r].inode] && Named(inodes[handles[r].inode], filename)
                         && (forall i: nat | i < handles[r].inode && super.inodes[i] :: !Named(inodes[i], filename))
      ensures r < 0 <==> || |filename| > NAMELEN
                         || (forall i: nat | i < NINODES && super.inodes[i] :: !Named(inodes[i], filename))
                         || (forall h: nat | h < NHANDLES :: old(handles)[h].inode >= 0)
      ensures old(AtStart(handles)) ==> AtStart(handles) && (r >= 0 ==> handles[r].offset == 0)
    {
      hide Owned, ZeroTails;
      OwnedFacts(super, inodes, 0);
      var inum := OpenNamei(filename);
      r := 0;
      while r < NHANDLES && handles[r].inode != -1
        invariant 0 <= r <= NHANDLES && forall h: nat | h < r :: handles[h].inode >= 0
      {
        r := r + 1;
      }
      if inum < 0 || r == NHANDLES {
        return -1;
      }
      handles := handles[r := handles[r].(inode := inum)];
    }

    /** ssufs_close */
    method Close(fh: nat)
      requires fh < |handles|
      modifies `handles
      ensures handles == old(handles)[fh := Handle(-1, 0)]
    {
      handles := handles[fh := handles[fh].(inode := -1)];
      handles := handles[fh := handles[fh].(offset := 0)];
    }

    /** ssufs_delete: false would be a failed assertion, and there is none. The file's blocks are free
        again and no other file changes. Only the first handle on the file is closed, so handles stay on
        the deleted inode exactly when there was more than one. */
    method Delete(filename: string) returns (ok: bool, ghost inum: int)
      requires Valid()
      modifies `super, `inodes, `handles
      ensures ok && Valid() && -1 <= inum < NINODES
      ensures inum < 0 ==> super == old(super) && inodes == old(inodes) && handles == old(handles)
      ensures inum < 0 <==> || |filename| > NAMELEN
                            || (forall i: nat | i < NINODES && old(super).inodes[i] :: !Named(old(inodes)[i], filename))
      ensures inum >= 0 ==> && old(super).inodes[inum] && Named(old(inodes)[inum], filename)
                            && (forall i: nat | i < inum && old(super).inodes[i] :: !Named(old(inodes)[i], filename))
                            && |old(inodes)[inum].direct| == NDIRECT
                            && super == Super(old(super).inodes[inum := false],
                                              Cleared(old(super).blocks, old(inodes)[inum].direct, NDIRECT))
                            && inodes == old(inodes)[inum := NOINODE.(name := filename)]
      ensures inum >= 0 ==> forall h: nat | h < NHANDLES ::
                handles[h] == if FirstOn(old(handles), inum, h) then Handle(-1, 0) else old(handles)[h]
      ensures inum >= 0 ==> ((forall h: nat | h < NHANDLES :: handles[h].inode != inum) <==>
                (forall g: nat, h: nat | g < h < NHANDLES ::
                  old(handles)[g].inode != inum || old(handles)[h].inode != inum))
    {
      hide Owned, ZeroTails, UniqueNames, Cleared;
      OwnedFacts(super, inodes, 0);
      var k := OpenNamei(filename);
      inum := k;
      if k < 0 {
        return true, k;
      }
      OwnedFacts(super, inodes, k);
      var h := 0;
      while h < NHANDLES && handles[h].inode != k
        invariant h <= NHANDLES && handles == old(handles) && forall g: nat | g < h :: handles[g].inode != k
      {
        h := h + 1;
      }
      if h < NHANDLES {
        Close(h);
        assert FirstOn(old(handles), k, h);
      }
      assert forall g: nat | g < NHANDLES && g != h :: handles[g] == old(handles)[g];
      ok := FreeInode(k);
    }
  }

  lemma BlocksEnough(end: nat)
    requires end <= FILEBYTES
    ensures NumBlocks(end) <= NDIRECT && end <= NumBlocks(end) * BLOCKSIZE
  {
  }

  lemma HandleAt(handles: seq<Handle>, fh: nat, off: nat)
    requires GoodHandles(handles) && fh < NHANDLES
    ensures |handles| == NHANDLES && -1 <= handles[fh].inode < NINODES
    ensures GoodHandles(handles[fh := handles[fh].(offset := off)])
  {
  }

  lemma Formatted(sb: Super, nodes: seq<Inode>, data: seq<Block>)
    requires |sb.inodes| == NINODES && |sb.blocks| == NBLOCKS && |nodes| == NINODES && |data| == NBLOCKS
    requires (forall i: nat | i < NINODES :: !sb.inodes[i]) && forall i: nat | i < NINODES :: nodes[i] == NOINODE
    ensures Owned(sb, nodes) && ZeroTails(data, nodes) && UniqueNames(sb, nodes)
  {
    assert GoodDirect(NOINODE.direct);
    forall i: nat, k: nat ensures Ptr(nodes, i, k) == -1 {}
    forall k: nat | k < FILEBYTES ensures ByteAt(data, NOINODE.direct, k) == 0 {}
  }

  lemma OwnedFacts(sb: Super, nodes: seq<Inode>, i: nat)
    requires Owned(sb, nodes) && i < NINODES
    ensures |sb.inodes| == NINODES && |sb.blocks| == NBLOCKS && |nodes| == NINODES
    ensures GoodDirect(nodes[i].direct) && Apart(nodes[i].direct)
    ensures forall k: nat | k < NDIRECT && nodes[i].direct[k] >= 0 :: sb.blocks[nodes[i].direct[k]]
  {
    forall k: nat | k < NDIRECT ensures nodes[i].direct[k] == Ptr(nodes, i, k) {}
  }

  lemma ClearedNone(blocks: seq<bool>, direct: seq<int>)
    ensures Cleared(blocks, direct, 0) == blocks
  {
  }

  /** The blocks still to be freed are still marked. */
  lemma ClearedNext(blocks: seq<bool>, direct: seq<int>, i: nat)
    requires i < |direct| && -1 <= direct[i] < |blocks| && Apart(direct)
    ensures direct[i] < 0 ==> Cleared(blocks, direct, i + 1) == Cleared(blocks, direct, i)
    ensures direct[i] >= 0 ==> && Cleared(blocks, direct, i)[direct[i]] == blocks[direct[i]]
                               && Cleared(blocks, direct, i + 1) == Cleared(blocks, direct, i)[direct[i] := false]
  {
    assert direct[..i + 1] == direct[..i] + [direct[i]];
  }

  lemma FreedInode(sb: Super, nodes: seq<Inode>, data: seq<Block>, inum: nat)
    requires Owned(sb, nodes) && ZeroTails(data, nodes) && UniqueNames(sb, nodes) && inum < NINODES
    ensures |nodes[inum].direct| == NDIRECT
    ensures var sb' := Super(sb.inodes[inum := false], Cleared(sb.blocks, nodes[inum].direct, NDIRECT));
            var nodes' := nodes[inum := NOINODE.(name := nodes[inum].name)];
            Owned(sb', nodes') && ZeroTails(data, nodes') && UniqueNames(sb', nodes')
  {
    FreedOwned(sb, nodes, inum, NOINODE.(name := nodes[inum].name));
    hide Owned;
    forall k: nat | k < FILEBYTES ensures ByteAt(data, NOINODE.direct, k) == 0 {}
  }

  lemma FreedOwned(sb: Super, nodes: seq<Inode>, inum: nat, node: Inode)
    requires Owned(sb, nodes) && inum < NINODES && node.direct == NOINODE.direct
    ensures Owned(Super(sb.inodes[inum := false], Cleared(sb.blocks, nodes[inum].direct, NDIRECT)), nodes[inum := node])
  {
    var nodes' := nodes[inum := node];
    assert GoodDirect(node.direct);
    forall i: nat, k: nat ensures Ptr(nodes', i, k) == if i == inum then -1 else Ptr(nodes, i, k) {}
    forall i: nat, k: nat | Ptr(nodes', i, k) >= 0 ensures Ptr(nodes', i, k) !in nodes[inum].direct[..NDIRECT] {
      forall l: nat | l < NDIRECT ensures nodes[inum].direct[l] == Ptr(nodes, inum, l) != Ptr(nodes, i, k) {}
    }
  }

  /** The buffer holds the file's first i blocks, and zeros after. */
  ghost predicate TmpUpTo(data: seq<Block>, direct: seq<int>, tmp: seq<Byte>, i: nat) {
    |tmp| == FILEBYTES && forall k: nat | k < FILEBYTES ::
      tmp[k] == if k < i * BLOCKSIZE then ByteAt(data, direct, k) else 0
  }

  lemma SameFilesNone(data: seq<Block>, nodes: seq<Inode>, inum: int)
    ensures SameFiles(data, data, nodes, nodes, inum)
  {
  }

  lemma SameFilesTrans(data: seq<Block>, data1: seq<Block>, data2: seq<Block>, nodes: seq<Inode>)
    requires SameFiles(data, data1, nodes, nodes, -1) && SameFiles(data1, data2, nodes, nodes, -1)
    ensures SameFiles(data, data2, nodes, nodes, -1)
  {
    hide Image;
  }

  lemma DataCount(data: seq<Block>, nodes: seq<Inode>)
    requires ZeroTails(data, nodes)
    ensures |data| == NBLOCKS && forall i: nat | i < |nodes| :: nodes[i].size <= FILEBYTES
  {
  }

  lemma MissingNone(direct: seq<int>, n: nat)
    ensures Missing(direct, n, 0) == 0
  {
  }

  lemma MissingNext(direct: seq<int>, n: nat, i: nat)
    requires i < |direct|
    ensures Missing(direct, n, i + 1) == Missing(direct, n, i) + if direct[i] < 0 && i < n then 1 else 0
  {
  }

  lemma {:induction false} MissingMore(direct: seq<int>, n: nat, i: nat)
    requires i <= |direct|
    ensures Missing(direct, n, i) <= Missing(direct, n, |direct|)
    decreases |direct| - i
  {
    if i < |direct| {
      MissingMore(direct, n, i + 1);
    }
  }

  lemma {:induction false} MissingRest(direct: seq<int>, n: nat, i: nat)
    requires i <= |direct| && (i == |direct| || n <= i)
    ensures Missing(direct, n, |direct|) == Missing(direct, n, i)
    decreases |direct| - i
  {
    if i < |direct| {
      MissingRest(direct, n, i + 1);
    }
  }

  lemma NoneFree(sb: Super)
    requires forall b: nat | b < |sb.blocks| :: sb.blocks[b]
    ensures FreeBlocks(sb) == {}
  {
  }

  lemma OneTaken(sb: Super, c: nat)
    requires c < |sb.blocks| && !sb.blocks[c]
    ensures |FreeBlocks(sb.(blocks := sb.blocks[c := true]))| == |FreeBlocks(sb)| - 1
  {
    assert FreeBlocks(sb.(blocks := sb.blocks[c := true])) == FreeBlocks(sb) - {c};
  }

  /** A free block becomes the file's next one. */
  lemma AllocOwned(sb: Super, nodes: seq<Inode>, inum: nat, direct: seq<int>, i: nat, c: nat)
    requires Owned(sb, nodes) && inum < NINODES && Owned(sb, nodes[inum := nodes[inum].(direct := direct)])
    requires i < |direct| == NDIRECT && direct[i] < 0 && (forall k: nat | k < i :: direct[k] >= 0) && c < NBLOCKS
    requires !sb.blocks[c]
    ensures var sb' := sb.(blocks := sb.blocks[c := true]);
            Owned(sb', nodes) && Owned(sb', nodes[inum := nodes[inum].(direct := direct[i := c])])
  {
    var nodes1 := nodes[inum := nodes[inum].(direct := direct)];
    var nodes2 := nodes[inum := nodes[inum].(direct := direct[i := c])];
    assert nodes1[inum].direct == direct;
    forall j: nat, k: nat ensures Ptr(nodes2, j, k) == if j == inum && k == i then c else Ptr(nodes1, j, k) {}
    assert GoodDirect(direct[i := c]);
  }

  lemma FreshData(sb: Super, nodes: seq<Inode>, data: seq<Block>, c: nat, z: Block)
    requires Owned(sb, nodes) && ZeroTails(data, nodes) && c < NBLOCKS && !sb.blocks[c]
    ensures SameFiles(data, data[c := z], nodes, nodes, -1) && ZeroTails(data[c := z], nodes)
  {
    forall i: nat, k: nat | i < NINODES && k < FILEBYTES
      ensures ByteAt(data[c := z], nodes[i].direct, k) == ByteAt(data, nodes[i].direct, k)
    {
      assert Ptr(nodes, i, k / BLOCKSIZE) != c;
    }
  }

  lemma FreshImage(sb: Super, nodes: seq<Inode>, inum: nat, data: seq<Block>, direct: seq<int>, i: nat, c: nat,
                   z: Block)
    requires inum < |nodes| && Owned(sb, nodes[inum := nodes[inum].(direct := direct)]) && |data| == NBLOCKS
    requires i < |direct| == NDIRECT && direct[i] < 0 && c < NBLOCKS && !sb.blocks[c] && z == Zeros(BLOCKSIZE)
    ensures Image(data[c := z], direct[i := c]) == Image(data, direct)
  {
    var nodes1 := nodes[inum := nodes[inum].(direct := direct)];
    forall k: nat | k < FILEBYTES ensures ByteAt(data[c := z], direct[i := c], k) == ByteAt(data, direct, k) {
      assert Ptr(nodes1, inum, k / BLOCKSIZE) == direct[k / BLOCKSIZE] != c;
    }
  }

  lemma TmpNone(data: seq<Block>, direct: seq<int>)
    ensures TmpUpTo(data, direct, Zeros(FILEBYTES), 0)
  {
  }

  lemma TmpZero(data: seq<Block>, direct: seq<int>, tmp: seq<Byte>, i: nat)
    requires TmpUpTo(data, direct, tmp, i) && i < NDIRECT
    ensures tmp[i * BLOCKSIZE..(i + 1) * BLOCKSIZE] == Zeros(BLOCKSIZE)
  {
  }

  lemma TmpSame(data: seq<Block>, direct: seq<int>, data': seq<Block>, direct': seq<int>, tmp: seq<Byte>, i: nat)
    requires TmpUpTo(data, direct, tmp, i) && Image(data', direct') == Image(data, direct)
    ensures TmpUpTo(data', direct', tmp, i)
  {
    forall k: nat | k < FILEBYTES ensures ByteAt(data', direct', k) == ByteAt(data, direct, k) {
      assert Image(data', direct')[k] == Image(data, direct)[k];
    }
  }

  lemma TmpNext(data: seq<Block>, direct: seq<int>, tmp: seq<Byte>, i: nat)
    requires TmpUpTo(data, direct, tmp, i) && i < |direct| == NDIRECT && 0 <= direct[i] < |data|
    ensures TmpUpTo(data, direct, tmp[..i * BLOCKSIZE] + data[direct[i]] + tmp[(i + 1) * BLOCKSIZE..], i + 1)
  {
    forall k: nat | i * BLOCKSIZE <= k < (i + 1) * BLOCKSIZE
      ensures ByteAt(data, direct, k) == data[direct[i]][k - i * BLOCKSIZE]
    {
      assert k / BLOCKSIZE == i && k % BLOCKSIZE == k - i * BLOCKSIZE;
    }
  }

  lemma TmpAll(data: seq<Block>, direct: seq<int>, tmp: seq<Byte>, i: nat)
    requires TmpUpTo(data, direct, tmp, i) && i <= |direct| == NDIRECT && GoodDirect(direct)
    requires i < NDIRECT ==> direct[i] < 0
    ensures Image(data, direct) == tmp
  {
    forall k: nat | k < FILEBYTES && i * BLOCKSIZE <= k ensures ByteAt(data, direct, k) == 0 {
      assert k / BLOCKSIZE >= i;
    }
  }

  /** Bytes written at an offset: the file is what it was with the bytes over it, no shorter and as long
      as the write reaches; the other files are as they were. */
  ghost predicate Stored(data: seq<Block>, nodes: seq<Inode>, data': seq<Block>, nodes': seq<Inode>,
                         inum: nat, off: nat, buf: seq<Byte>) {
    && off + |buf| <= FILEBYTES && inum < |nodes| == |nodes'| && SameFiles(data, data', nodes, nodes', inum)
    && Image(data', nodes'[inum].direct) == Spliced(Image(data, nodes[inum].direct), off, buf)
    && nodes'[inum] == nodes[inum].(size := nodes'[inum].size, direct := nodes'[inum].direct)
    && nodes'[inum].size == if nodes[inum].size < off + |buf| then off + |buf| else nodes[inum].size
  }

  lemma SizeOwned(sb: Super, nodes: seq<Inode>, inum: nat, direct: seq<int>, node: Inode)
    requires inum < |nodes| && Owned(sb, nodes[inum := nodes[inum].(direct := direct)]) && node.direct == direct
    ensures Owned(sb, nodes[inum := node])
  {
    var nodes1 := nodes[inum := nodes[inum].(direct := direct)];
    var nodes2 := nodes[inum := node];
    forall i: nat | i < |nodes| ensures nodes2[i].direct == nodes1[i].direct {}
    forall i: nat, k: nat ensures Ptr(nodes2, i, k) == Ptr(nodes1, i, k) {}
  }

  lemma SameNames(sb: Super, sb': Super, nodes: seq<Inode>, inum: nat, node: Inode)
    requires UniqueNames(sb, nodes) && inum < |nodes| && node.name == nodes[inum].name && sb'.inodes == sb.inodes
    ensures UniqueNames(sb', nodes[inum := node])
  {
  }

  /** Blocks of other files are not among those written. */
  lemma OthersKept(sb: Super, nodes: seq<Inode>, data: seq<Block>, data': seq<Block>, inum: nat, j: nat)
    requires Owned(sb, nodes) && inum < NINODES && j < NINODES && j != inum && |data| == |data'| == NBLOCKS
    requires forall b: nat | b < NBLOCKS && b !in nodes[inum].direct :: data'[b] == data[b]
    ensures Image(data', nodes[j].direct) == Image(data, nodes[j].direct)
  {
    forall k: nat | k < FILEBYTES ensures ByteAt(data', nodes[j].direct, k) == ByteAt(data, nodes[j].direct, k) {
      var b := Ptr(nodes, j, k / BLOCKSIZE);
      forall l: nat | l < NDIRECT && b >= 0 ensures nodes[inum].direct[l] == Ptr(nodes, inum, l) != b {}
    }
  }

  lemma BufferStored(data0: seq<Block>, direct0: seq<int>, data: seq<Block>, data': seq<Block>, direct: seq<int>,
                     off: nat, buf: seq<Byte>, n: nat)
    requires |direct| == NDIRECT && off + |buf| <= FILEBYTES && off + |buf| <= n * BLOCKSIZE
    requires Image(data, direct) == Image(data0, direct0)
    requires forall k: nat | k < n && k < NDIRECT :: direct[k] >= 0
    requires var tmp := Spliced(Image(data0, direct0), off, buf);
             forall k: nat | k < FILEBYTES && direct[k / BLOCKSIZE] >= 0 :: ByteAt(data', direct, k) == tmp[k]
    ensures Image(data', direct) == Spliced(Image(data0, direct0), off, buf)
  {
    var tmp := Spliced(Image(data0, direct0), off, buf);
    forall k: nat | k < FILEBYTES && direct[k / BLOCKSIZE] < 0 ensures ByteAt(data', direct, k) == tmp[k] {
      assert k / BLOCKSIZE >= n;
      assert k >= off + |buf|;
      assert Image(data, direct)[k] == ByteAt(data, direct, k) == 0;
    }
  }

  lemma TailStored(data0: seq<Block>, direct0: seq<int>, data': seq<Block>, direct: seq<int>, size: nat,
                   off: nat, buf: seq<Byte>)
    requires off + |buf| <= FILEBYTES && off + |buf| <= size <= FILEBYTES
    requires Image(data', direct) == Spliced(Image(data0, direct0), off, buf)
    requires forall k: nat | size <= k < FILEBYTES :: ByteAt(data0, direct0, k) == 0
    ensures forall k: nat | size <= k < FILEBYTES :: ByteAt(data', direct, k) == 0
  {
    forall k: nat | size <= k < FILEBYTES ensures ByteAt(data', direct, k) == 0 {
      assert Image(data', direct)[k] == Image(data0, direct0)[k];
    }
  }

  lemma WriteStores(sb: Super, nodes: seq<Inode>, data0: seq<Block>, data: seq<Block>, data': seq<Block>, inum: nat,
                    node: Inode, off: nat, buf: seq<Byte>, n: nat, tmp: seq<Byte>)
    requires inum < NINODES == |nodes| && Owned(sb, nodes[inum := node]) && ZeroTails(data, nodes) && |data'| == NBLOCKS
    requires SameFiles(data0, data, nodes, nodes, -1) && Image(data, node.direct) == Image(data0, nodes[inum].direct)
    requires off + |buf| <= FILEBYTES && off + |buf| <= n * BLOCKSIZE
    requires tmp == Spliced(Image(data0, nodes[inum].direct), off, buf)
    requires |node.direct| == NDIRECT && forall k: nat | k < n && k < NDIRECT :: node.direct[k] >= 0
    requires forall b: nat | b < NBLOCKS && b !in node.direct :: data'[b] == data[b]
    requires forall k: nat | k < FILEBYTES && node.direct[k / BLOCKSIZE] >= 0 :: ByteAt(data', node.direct, k) == tmp[k]
    requires node == nodes[inum].(direct := node.direct,
                                  size := if nodes[inum].size < off + |buf| then off + |buf| else nodes[inum].size)
    ensures Stored(data0, nodes, data', nodes[inum := node], inum, off, buf) && ZeroTails(data', nodes[inum := node])
  {
    hide Owned, Image, ByteAt;
    var nodes' := nodes[inum := node];
    forall j: nat | j < NINODES && j != inum
      ensures Image(data', nodes[j].direct) == Image(data0, nodes[j].direct) == Image(data, nodes[j].direct)
    {
      OthersKept(sb, nodes', data, data', inum, j);
    }
    BufferStored(data0, nodes[inum].direct, data, data', node.direct, off, buf, n);
    TailOld(data0, data, nodes, inum);
    TailStored(data0, nodes[inum].direct, data', node.direct, node.size, off, buf);
    forall j: nat, k: nat | j < NINODES && nodes'[j].size <= k < FILEBYTES
      ensures ByteAt(data', nodes'[j].direct, k) == 0
    {
      if j != inum {
        SameBytes(data', data, nodes[j].direct, k);
      }
    }
  }

  lemma SameBytes(data: seq<Block>, data': seq<Block>, direct: seq<int>, k: nat)
    requires Image(data, direct) == Image(data', direct) && k < FILEBYTES
    ensures ByteAt(data, direct, k) == ByteAt(data', direct, k)
  {
    assert Image(data, direct)[k] == Image(data', direct)[k];
  }

  lemma TailOld(data0: seq<Block>, data: seq<Block>, nodes: seq<Inode>, inum: nat)
    requires ZeroTails(data, nodes) && SameFiles(data0, data, nodes, nodes, -1) && inum < |nodes|
    ensures forall k: nat | nodes[inum].size <= k < FILEBYTES :: ByteAt(data0, nodes[inum].direct, k) == 0
  {
    forall k: nat | nodes[inum].size <= k < FILEBYTES ensures ByteAt(data0, nodes[inum].direct, k) == 0 {
      SameBytes(data0, data, nodes[inum].direct, k);
    }
  }

  lemma OneLeaked(sb0: Super, sb: Super, nodes: seq<Inode>, inum: nat, direct: seq<int>, i: nat, c: nat)
    requires inum < |nodes| && c < |sb.blocks| && !sb.blocks[c] && i < |direct| && direct[i] < 0 && Owned(sb, nodes)
    requires sb == sb0 || !NoLeaks(sb, nodes)
    ensures var sb' := sb.(blocks := sb.blocks[c := true]);
            && !NoLeaks(sb', nodes)
            && (NoLeaks(sb, nodes[inum := nodes[inum].(direct := direct)]) ==>
                  NoLeaks(sb', nodes[inum := nodes[inum].(direct := direct[i := c])]))
    ensures sb == sb0 ==> FreeBlocks(sb0) != {}
  {
    var sb' := sb.(blocks := sb.blocks[c := true]);
    var nodes1 := nodes[inum := nodes[inum].(direct := direct)];
    var nodes2 := nodes[inum := nodes[inum].(direct := direct[i := c])];
    assert c in FreeBlocks(sb);
    assert sb'.blocks[c] && forall j: nat, k: nat :: Ptr(nodes, j, k) != c;
    if NoLeaks(sb, nodes1) {
      forall b: nat | b < |sb'.blocks| && sb'.blocks[b] ensures exists j: nat, k: nat :: Ptr(nodes2, j, k) == b {
        if b == c {
          assert Ptr(nodes2, inum, i) == c;
        } else {
          var j: nat, k: nat :| Ptr(nodes1, j, k) == b;
          assert Ptr(nodes2, j, k) == b;
        }
      }
    }
  }

  lemma SizeLeaks(sb: Super, nodes: seq<Inode>, inum: nat, direct: seq<int>, node: Inode)
    requires inum < |nodes| && node.direct == direct
    ensures NoLeaks(sb, nodes[inum := nodes[inum].(direct := direct)]) ==> NoLeaks(sb, nodes[inum := node])
  {
    var nodes2 := nodes[inum := node];
    var nodes1 := nodes[inum := nodes[inum].(direct := direct)];
    forall i: nat, k: nat ensures Ptr(nodes2, i, k) == Ptr(nodes1, i, k) {}
    if NoLeaks(sb, nodes1) {
      forall b: nat | b < |sb.blocks| && sb.blocks[b] ensures exists i: nat, k: nat :: Ptr(nodes2, i, k) == b {
        var i: nat, k: nat :| Ptr(nodes1, i, k) == b;
        assert Ptr(nodes2, i, k) == b;
      }
    }
  }

  lemma Created(sb: Super, nodes: seq<Inode>, data: seq<Block>, r: nat, node: Inode)
    requires Owned(sb, nodes) && ZeroTails(data, nodes) && r < NINODES && node.direct == NOINODE.direct
    requires node.size == 0
    ensures |sb.inodes| == NINODES
    ensures Owned(sb.(inodes := sb.inodes[r := true]), nodes[r := node]) && ZeroTails(data, nodes[r := node])
  {
    assert GoodDirect(node.direct);
    var nodes' := nodes[r := node];
    forall i: nat, k: nat ensures Ptr(nodes', i, k) == if i == r then -1 else Ptr(nodes, i, k) {}
    forall k: nat | k < FILEBYTES ensures ByteAt(data, NOINODE.direct, k) == 0 {}
  }

  /** What was written at an offset can be read back from there, and only that changed. */
  lemma ReadBack(data: seq<Block>, nodes: seq<Inode>, data': seq<Block>, nodes': seq<Inode>,
                 inum: nat, off: nat, buf: seq<Byte>)
    requires Stored(data, nodes, data', nodes', inum, off, buf) && nodes[inum].size <= FILEBYTES
    requires forall k: nat | nodes[inum].size <= k < FILEBYTES :: ByteAt(data, nodes[inum].direct, k) == 0
    ensures var was, now := Contents(data, nodes[inum]), Contents(data', nodes'[inum]);
            && off + |buf| <= |now| && now[off..off + |buf|] == buf
            && (forall k: nat | k < |was| && !(off <= k < off + |buf|) :: now[k] == was[k])
            && (forall k: nat | |was| <= k < off :: now[k] == 0)
            && |now| == if off + |buf| < |was| then |was| else off + |buf|
  {
    var was, now := Contents(data, nodes[inum]), Contents(data', nodes'[inum]);
    var m := Spliced(Image(data, nodes[inum].direct), off, buf);
    assert now == m[..nodes'[inum].size];
    forall k: nat | k < |buf| ensures now[off..off + |buf|][k] == buf[k] {
      assert now[off + k] == m[off + k];
    }
  }

  /** Formatting the disk and writing eight files of four blocks each: the last write fails, and the two
      blocks it took belong to nobody. */
  method RunOutOfBlocks(data: seq<Block>) returns (d: Disk)
    requires |data| == NBLOCKS
    ensures fresh(d) && d.Valid() && !NoLeaks(d.super, d.inodes) && FreeBlocks(d.super) == {}
  {
    d := new Disk(data);
    d.Sizes();
    AllFree(d.super, d.inodes);
    for i := 0 to NINODES
      invariant fresh(d) && d.Valid() && |d.super.inodes| == |d.inodes| == NINODES && |d.handles| == NHANDLES
      invariant forall j: nat | j < NINODES :: d.super.inodes[j] <==> j < i
      invariant forall j: nat | j < i :: d.inodes[j].name == [NameOf(j)]
      invariant forall j: nat | i <= j < NINODES :: d.inodes[j].direct == NOINODE.direct
      invariant forall h: nat | h < NHANDLES :: d.handles[h].inode < 0 && d.handles[h].offset == 0
      invariant i < NINODES ==> NoLeaks(d.super, d.inodes) && |FreeBlocks(d.super)| == NBLOCKS - 4 * i
      invariant i == NINODES ==> !NoLeaks(d.super, d.inodes) && FreeBlocks(d.super) == {}
    {
      WriteOneFile(d, i);
    }
  }

  /** Create, open, fill and close the i-th file. */
  method WriteOneFile(d: Disk, i: nat)
    requires i < NINODES && d.Valid() && |d.super.inodes| == |d.inodes| == NINODES && |d.handles| == NHANDLES
    requires forall j: nat | j < NINODES :: d.super.inodes[j] <==> j < i
    requires forall j: nat | j < i :: d.inodes[j].name == [NameOf(j)]
    requires d.inodes[i].direct == NOINODE.direct
    requires forall h: nat | h < NHANDLES :: d.handles[h].inode < 0 && d.handles[h].offset == 0
    requires NoLeaks(d.super, d.inodes) && |FreeBlocks(d.super)| == NBLOCKS - 4 * i
    modifies d
    ensures d.Valid() && |d.super.inodes| == |d.inodes| == NINODES && d.handles == old(d.handles)
    ensures d.super.inodes == old(d.super.inodes)[i := true]
    ensures forall j: nat | j < NINODES && j != i :: d.inodes[j] == old(d.inodes)[j]
    ensures d.inodes[i].name == [NameOf(i)]
    ensures i + 1 < NINODES ==> NoLeaks(d.super, d.inodes) && |FreeBlocks(d.super)| == NBLOCKS - 4 * (i + 1)
    ensures i + 1 == NINODES ==> !NoLeaks(d.super, d.inodes) && FreeBlocks(d.super) == {}
  {
    hide NoLeaks, FreeBlocks, Missing, Owned, ZeroTails, UniqueNames, Image, ByteAt, Contents;
    var name := [NameOf(i)];
    ghost var sb, nodes := d.super, d.inodes;
    assert !d.super.inodes[i] && forall j: nat | j < i :: d.inodes[j].name[0] != name[0];
    var r := d.Create(name);
    d.Sizes();
    assert r == i;
    SameLeaks(sb, nodes, d.super, d.inodes, i, d.inodes[i]);
    assert Named(d.inodes[i], name) && d.handles[0].inode < 0;
    assert forall j: nat | j < i :: d.inodes[j].name[0] != name[0];
    var h := d.Open(name);
    assert h >= 0 && d.handles[h].inode == i;
    MissingFour(d.inodes[i].direct);
    var ok := d.Write(h, Zeros(FILEBYTES));
    d.Sizes();
    d.Close(h);
  }

  function NameOf(i: nat): char
    requires i < NINODES
  {
    ('0' as int + i) as char
  }

  lemma AllFree(sb: Super, nodes: seq<Inode>)
    requires |sb.blocks| == NBLOCKS && forall b: nat | b < NBLOCKS :: !sb.blocks[b]
    ensures NoLeaks(sb, nodes) && |FreeBlocks(sb)| == NBLOCKS
  {
    assert FreeBlocks(sb) == UpTo(NBLOCKS);
  }

  lemma MissingFour(direct: seq<int>)
    requires direct == NOINODE.direct
    ensures Missing(direct, NumBlocks(FILEBYTES), NDIRECT) == 4
  {
    assert Missing(direct, 4, 1) == 1;
    assert Missing(direct, 4, 2) == 2;
    assert Missing(direct, 4, 3) == 3;
  }

  lemma MissingOne(direct: seq<int>)
    requires |direct| == NDIRECT
    ensures Missing(direct, NumBlocks(1), NDIRECT) <= 1
  {
    assert Missing(direct, 1, 1) <= 1;
    assert Missing(direct, 1, 2) <= 1;
    assert Missing(direct, 1, 3) <= 1;
  }

  lemma SameLeaks(sb: Super, nodes: seq<Inode>, sb': Super, nodes': seq<Inode>, i: nat, node: Inode)
    requires NoLeaks(sb, nodes) && sb'.blocks == sb.blocks && i < |nodes| && nodes' == nodes[i := node]
    requires node.direct == nodes[i].direct
    ensures NoLeaks(sb', nodes') && FreeBlocks(sb') == FreeBlocks(sb)
  {
    forall b: nat | b < |sb'.blocks| && sb'.blocks[b] ensures exists j: nat, k: nat :: Ptr(nodes', j, k) == b {
      var j: nat, k: nat :| Ptr(nodes, j, k) == b;
      assert Ptr(nodes', j, k) == b;
    }
  }

  /** A file opened twice and deleted: the second handle is left on the free inode, and a file created
      next is what it reads and writes. */
  method StaleHandle(data: seq<Block>) returns (d: Disk, h: int, inum: int)
    requires |data| == NBLOCKS
    ensures fresh(d) && d.Valid() && 0 <= h < |d.handles| && 0 <= inum < |d.inodes| == |d.super.inodes|
    ensures d.handles[h].inode == inum && d.super.inodes[inum] && Named(d.inodes[inum], "b")
  {
    hide Owned, ZeroTails, UniqueNames, Image, ByteAt, Contents, Cleared;
    d := new Disk(data);
    d.Sizes();
    assert !d.super.inodes[0];
    inum := d.Create("a");
    d.Sizes();
    assert inum == 0;
    assert Named(d.inodes[0], "a") && d.handles[0].inode < 0 && d.handles[1].inode < 0;
    var h1 := d.Open("a");
    assert h1 >= 0 && d.handles[if h1 == 0 then 1 else 0].inode < 0;
    var h2 := d.Open("a");
    assert h2 >= 0 && h2 != h1;
    var ok, gone := d.Delete("a");
    d.Sizes();
    h := if d.handles[h1].inode < 0 then h2 else h1;
    assert !d.super.inodes[0];
    inum := d.Create("b");
    d.Sizes();
  }

  /** A file with a name of eight characters cannot be found once it has a byte in it. */
  method NameLost(data: seq<Block>) returns (d: Disk, h: int)
    requires |data| == NBLOCKS
    ensures fresh(d) && d.Valid() && |d.inodes| == |d.super.inodes| == NINODES && h < 0
    ensures d.super.inodes[0] && d.inodes[0].name == "12345678" && d.inodes[0].size == 1
  {
    hide Owned, ZeroTails, UniqueNames, Image, ByteAt, Contents, FreeBlocks, NoLeaks, SameFiles;
    d := new Disk(data);
    d.Sizes();
    AllFree(d.super, d.inodes);
    assert !d.super.inodes[0];
    ghost var sb, nodes := d.super, d.inodes;
    var r := d.Create("12345678");
    d.Sizes();
    SameLeaks(sb, nodes, d.super, d.inodes, 0, d.inodes[0]);
    assert r == 0 && Named(d.inodes[0], "12345678") && d.handles[0].inode < 0;
    h := d.Open("12345678");
    assert d.handles[h].inode == 0;
    MissingOne(d.inodes[0].direct);
    var ok := d.Write(h, [0]);
    d.Sizes();
    h := d.Open("12345678");
  }

  /** lseek on a closed handle of a formatted disk, with nothing negative in the bytes behind the
      superblock: the file opened next is open at offset 1. */
  method SeekClosed(data: seq<Block>, pad: nat) returns (d: Disk, ok: bool, h: int)
    requires |data| == NBLOCKS
    ensures fresh(d) && d.Valid() && ok && h == 0 && |d.handles| == NHANDLES && d.handles[0] == Handle(0, 1)
  {
    hide Owned, ZeroTails, UniqueNames, Image, ByteAt, Contents;
    d := new Disk(data);
    d.Sizes();
    assert !d.super.inodes[0];
    var r := d.Create("a");
    d.Sizes();
    assert Named(d.inodes[0], "a");
    ok := d.Lseek(0, 1, pad);
    assert d.handles[0].inode < 0;
    h := d.Open("a");
    var first := d.handles[0];
    assert h > 0 ==> first.inode < 0;
    assert Named(d.inodes[0], "a");
  }
}
