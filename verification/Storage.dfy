/** The layers together: one trip round filewrite's loop, through the log, the buffer cache and the
    disk. After a crash that follows any single block write, recovery finds the file as it was or
    with the whole chunk in it, and every other file as it was. */
module Storage {
  import opened Blocks
  import opened Common
  import opened Counting
  import opened Inodes
  import opened Space
  import opened Fs
  import Bio
  import Log
  import Wal

  /** The log is idle: nothing logged, no operation and no commit running, nobody using the cache. */
  ghost predicate Idle(log: Log.Log)
    reads log, log.cache
  {
    log.Valid() && Bio.Quiet(log.cache.bufs) && log.lh == [] && log.left == [] && !log.committing
  }

  /** Blocks as the file system sees them are blocks as the cache shows them. The log, which lies
      before the inodes, is the logging layer's own; it has room for one operation. */
  ghost predicate Mounted(fs: FileSystem, log: Log.Log)
    reads fs, log, log.cache
  {
    LogFirst(fs.sb, log.lay) && Wal.SameHome(log.lay, log.cache.flat, fs.disk)
  }

  predicate LogFirst(sb: Superblock, lay: Wal.Layout) {
    Wal.MAXOPBLOCKS + 2 <= lay.size && lay.start + lay.size <= sb.inodestart
  }

  /** The writes of an operation of the file system, each through bread, log_write and brelse. */
  method Replay(log: Log.Log, writes: seq<Wal.Update>, ghost disk: Image, ghost logged: set<nat>)
    requires log.Valid() && Bio.Quiet(log.cache.bufs) && log.lh == [] && log.left == [Wal.MAXOPBLOCKS]
    requires History(log.cache.flat, disk, writes, logged) && |logged| <= Wal.MAXOPBLOCKS && |logged| < log.lay.size - 1
    requires forall b | b in logged :: Wal.IsHome(log.lay, log.cache.memdisk, b)
    modifies log.cache, log`lh, log`left
    ensures log.Valid() && Bio.Quiet(log.cache.bufs) && |log.left| == 1
    ensures log.cache.memdisk == old(log.cache.memdisk) && log.cache.trace == old(log.cache.trace)
    ensures log.cache.flat == disk && Log.BlocksOf(log.lh) == logged && |log.lh| == |logged|
  {
    hide Bio.Linked, Bio.Sound, WordAt, Wal.HeadN, Wal.HeadBlock, Log.Sum, Wal.Apply;
    HistoryStart(old(log.cache.flat), writes);
    for i := 0 to |writes|
      invariant log.Valid() && Bio.Quiet(log.cache.bufs) && log.left == [Wal.MAXOPBLOCKS - |log.lh|]
      invariant log.cache.memdisk == old(log.cache.memdisk) && log.cache.trace == old(log.cache.trace)
      invariant History(old(log.cache.flat), log.cache.flat, writes[..i], Log.BlocksOf(log.lh))
    {
      HistoryStep(old(log.cache.flat), log.cache.flat, writes, i, log.lh, logged);
      var ok := Log.LogBlockAlone(log, writes[i].blockno, writes[i].data, 0);
    }
    assert writes[..|writes|] == writes;
    Log.BlocksOfCount(log.lh);
  }

  lemma HistoryStart(start: Image, writes: seq<Wal.Update>)
    ensures History(start, start, writes[..0], Log.BlocksOf([]))
  {
  }

  /** One more write, and how many blocks have been written. */
  lemma HistoryStep(start: Image, disk: Image, writes: seq<Wal.Update>, i: nat, lh: seq<Word>, logged: set<nat>)
    requires i < |writes| && History(start, disk, writes[..i], Log.BlocksOf(lh)) && NoRepeat(lh)
    requires logged == Blocknos(writes) && (forall k: nat | k < |writes| :: writes[k].blockno < |start|)
    ensures |disk| == |start| && writes[i].blockno in logged
    ensures |lh| <= |logged| && (writes[i].blockno !in lh ==> |lh| < |logged|)
    ensures var b := writes[i].blockno;
            History(start, disk[b := writes[i].data], writes[..i + 1], Log.BlocksOf(if b in lh then lh else lh + [b]))
  {
    hide Wal.Apply;
    var b := writes[i].blockno;
    HistoryMore(start, disk, writes[..i], Log.BlocksOf(lh), b, writes[i].data);
    assert writes[..i] + [Wal.Update(b, writes[i].data)] == writes[..i + 1];
    assert Log.BlocksOf(if b in lh then lh else lh + [b]) == Log.BlocksOf(lh) + {b};
    Log.BlocksOfCount(lh);
    forall x | x in Blocknos(writes[..i]) ensures x in logged {
      var k: nat :| k < i && writes[..i][k].blockno == x;
      assert writes[k].blockno == x;
    }
    SubsetCount(Log.BlocksOf(lh), logged);
    if b !in lh {
      SubsetCount(Log.BlocksOf(lh) + {b}, logged);
    }
  }

  /** The same writes on a disk with the same home blocks. */
  lemma HistoryHome(lay: Wal.Layout, start: Image, disk: Image, writes: seq<Wal.Update>, logged: set<nat>, flat: Image)
    requires History(start, disk, writes, logged) && Wal.SameHome(lay, flat, start)
    requires forall b | b in logged :: Wal.IsHome(lay, start, b)
    ensures forall k: nat | k < |writes| :: writes[k].blockno < |flat|
    ensures History(flat, Wal.Apply(flat, writes), writes, logged) && Wal.SameHome(lay, Wal.Apply(flat, writes), disk)
  {
    hide Wal.Apply;
    forall k: nat | k < |writes| ensures Wal.IsHome(lay, flat, writes[k].blockno) {
      assert writes[k].blockno in logged;
    }
    Wal.ApplyRespectsHome(lay, flat, start, writes);
  }

  /** All that a write may log lies behind the log. */
  lemma TouchedOnDisk(sb: Superblock, d0: Image, disk: Image, f: seq<Inode>, owner: map<nat, (nat, nat)>, i: nat,
                      off: nat, n: nat)
    requires SbOk(sb) && |d0| == |disk| == sb.size && Owns(sb, disk, f, owner) && i < |f| == sb.ninodes
    requires off + n <= MAXBYTES && Empty(disk, f[i], off / BSIZE, Through(off, n)) == {}
    ensures forall b | b in Touched(sb, d0, disk, i, f[i], off, n) :: sb.inodestart <= b < sb.size
  {
    hide Used, WordAt;
    var lo, hi := off / BSIZE, Through(off, n);
    forall b | b in Touched(sb, d0, disk, i, f[i], off, n) ensures sb.inodestart <= b < sb.size {
      if b in Indirect(f[i]) {
        assert Slot(disk, f[i], NDIRECT) == b;
      } else if b in DataBlocks(disk, f[i], lo, hi) {
        var bn: nat :| lo <= bn < hi && Slot(disk, f[i], SlotOf(bn)) == b;
        assert Wanted(SlotOf(bn), lo, hi);
        assert SlotOf(bn) !in Empty(disk, f[i], lo, hi);
      }
    }
  }

  /** Recovery makes of the image a disk with these home blocks. */
  ghost predicate Leaves(lay: Wal.Layout, img: Image, disk: Image) {
    Wal.HeadOk(lay, img) && Wal.SameHome(lay, Wal.Recovered(lay, img), disk)
  }

  /** Up to some write the images leave the one disk, from it on the other. */
  ghost predicate Switches(lay: Wal.Layout, images: seq<Image>, d0: Image, d1: Image) {
    exists m: nat :: m <= |images| && SwitchesAt(lay, images, d0, d1, m)
  }

  ghost predicate SwitchesAt(lay: Wal.Layout, images: seq<Image>, d0: Image, d1: Image, m: nat) {
    && (forall k: nat | k < m && k < |images| :: Leaves(lay, images[k], d0))
    && (forall k: nat | m <= k < |images| :: Leaves(lay, images[k], d1))
  }

  lemma CommitSwitches(lay: Wal.Layout, bufs: seq<Bio.Buf>, disk: Image, flat: Image, lh: seq<Word>, d0: Image,
                       d1: Image)
    requires Bio.Sound(bufs, disk, flat, Log.BlocksOf(lh)) && Bio.Synced(bufs, disk) && |flat| == |disk|
    requires Wal.HeadOk(lay, disk) && Wal.HeadN(lay, disk) == 0 && Wal.TxnOk(lay, disk, Log.Txn(lh, flat))
    requires Wal.SameHome(lay, disk, d0) && Wal.SameHome(lay, flat, d1)
    ensures Switches(lay, Log.CommitTrace(lay, disk, Log.Txn(lh, flat)), d0, d1)
  {
    hide Bio.Sound, Bio.Synced, WordAt, Wal.HeadN, Wal.HeadBlock, Wal.CommitImage, Wal.Recovered, Log.BlocksOf;
    var t := Log.CommitTrace(lay, disk, Log.Txn(lh, flat));
    var m := if |lh| <= |t| then |lh| else |t|;
    forall k: nat | k < |t| ensures Leaves(lay, t[k], if k < m then d0 else d1) {
      Log.CrashDuringCommit(lay, bufs, disk, flat, lh, k);
    }
    assert SwitchesAt(lay, t, d0, d1, m);
  }

  /** What the operation of the file system wrote goes through the log. */
  method LogThrough(fs: FileSystem, log: Log.Log)
    requires fs.Shape() && |fs.logged| <= Wal.MAXOPBLOCKS
    requires forall b | b in fs.logged :: fs.sb.inodestart <= b < fs.sb.size
    requires log.Valid() && Bio.Quiet(log.cache.bufs) && log.lh == [] && log.left == [Wal.MAXOPBLOCKS]
    requires LogFirst(fs.sb, log.lay) && Wal.SameHome(log.lay, log.cache.flat, fs.start)
    modifies log.cache, log`lh, log`left
    ensures log.Valid() && Bio.Quiet(log.cache.bufs) && |log.left| == 1 && |log.lh| <= Wal.MAXOPBLOCKS
    ensures log.cache.memdisk == old(log.cache.memdisk) && log.cache.trace == old(log.cache.trace)
    ensures Wal.SameHome(log.lay, log.cache.flat, fs.disk)
  {
    hide Bio.Linked, Bio.Sound, Bio.QuietBut, WordAt, Wal.HeadN, Wal.HeadBlock, Wal.HeadOk, Log.Sum, Wal.Apply,
         History;
    SameSizes(log, fs);
    HistoryHome(log.lay, fs.start, fs.disk, fs.writes, fs.logged, log.cache.flat);
    Replay(log, fs.writes, Wal.Apply(log.cache.flat, fs.writes), fs.logged);
  }

  lemma SameSizes(log: Log.Log, fs: FileSystem)
    requires fs.Shape() && log.Valid() && Wal.SameHome(log.lay, log.cache.flat, fs.start)
    ensures |fs.start| == |fs.disk| == |log.cache.flat| == |log.cache.memdisk|
  {
    hide Bio.Linked, WordAt, Wal.HeadN, Wal.HeadBlock, Wal.HeadOk, Log.Sum, Wal.Apply;
  }

  /** While the log is idle the disk has everything. */
  lemma IdleDisk(log: Log.Log)
    requires Idle(log)
    ensures log.cache.memdisk == log.cache.flat
    ensures Wal.HeadOk(log.lay, log.cache.memdisk) && Wal.HeadN(log.lay, log.cache.memdisk) == 0
  {
    hide Bio.Linked, Bio.Sound, Bio.QuietBut, WordAt, Wal.HeadN, Wal.HeadBlock, Wal.HeadOk, Log.Sum;
    Log.PinnedNone([]);
    Log.QuietAside(log.cache.bufs, log.cache.memdisk, log.cache.flat, log.cache.pinned, log.lay, log.lh);
    Log.FlatIsDisk(log.cache.bufs, log.cache.memdisk, log.cache.flat);
  }

  /** end_op of the only operation, with its commit. */
  method EndAndCommit(log: Log.Log, ghost d0: Image, ghost d1: Image)
    requires log.Valid() && Bio.Quiet(log.cache.bufs) && |log.left| == 1 && |log.lh| < Bio.NBUF
    requires Wal.SameHome(log.lay, log.cache.memdisk, d0) && Wal.SameHome(log.lay, log.cache.flat, d1)
    modifies log, log.cache
    ensures Idle(log) && Wal.SameHome(log.lay, log.cache.flat, d1) && old(log.cache.trace) <= log.cache.trace
    ensures Switches(log.lay, log.cache.trace[|old(log.cache.trace)|..], d0, d1)
  {
    hide Bio.Linked, Bio.Sound, Bio.QuietBut, WordAt, Wal.HeadN, Wal.HeadBlock, Log.Sum, Log.CommitTrace, Log.Txn,
         Switches;
    ghost var bufs, memdisk, flat, lh := log.cache.bufs, log.cache.memdisk, log.cache.flat, log.lh;
    var doCommit := log.EndOp(0);
    assert log.left == [];
    Log.QuietAside(bufs, memdisk, flat, log.cache.pinned, log.lay, lh);
    var ok := log.Commit({});
    log.EndCommit();
    CommitSwitches(log.lay, bufs, memdisk, flat, lh, d0, d1);
    assert log.cache.trace[|old(log.cache.trace)|..] == Log.CommitTrace(log.lay, memdisk, Log.Txn(lh, flat));
  }

  /** One trip round filewrite's loop: begin_op, writei through the log, end_op with its commit. */
  method WriteChunk(fs: FileSystem, log: Log.Log, ip: InodeCopy, chunk: seq<Byte>, off: Word) returns (w: WriteResult)
    requires fs.Ready(ip) && Type(ip.v) != T_DEV && 0 < |chunk| <= CHUNK && Idle(log) && Mounted(fs, log)
    modifies fs, ip, log, log.cache
    ensures fs.Shape() && !w.WriteDevice?
    ensures w.WriteError? <==> !Fits(old(ip.v), off, |chunk|)
    ensures w.OutOfBlocks? <==> Fits(old(ip.v), off, |chunk|) && TooFew(fs.sb, old(fs.disk), old(ip.v), off, |chunk|)
    ensures w.OutOfBlocks? ==> log.cache.memdisk == old(log.cache.memdisk) && log.cache.trace == old(log.cache.trace)
    ensures !w.OutOfBlocks? ==> fs.Ready(ip) && Idle(log) && Mounted(fs, log) && Type(ip.v) == Type(old(ip.v))
    ensures !w.OutOfBlocks? ==> && old(log.cache.trace) <= log.cache.trace
                                && Switches(log.lay, log.cache.trace[|old(log.cache.trace)|..], old(fs.disk), fs.disk)
    ensures !w.OutOfBlocks? ==>
              forall o: InodeCopy | old(allocated(o)) && o.inum != ip.inum && old(fs.Ready(o)) :: fs.Ready(o)
    ensures !w.OutOfBlocks? && old(fs.Whole()) && Type(old(ip.v)) != 0 ==> fs.Whole()
    ensures w.WriteError? ==> fs.disk == old(fs.disk) && ip.v == old(ip.v)
    ensures w.Wrote? ==> && Contents(fs.disk, ip.v) == Splice(Contents(old(fs.disk), old(ip.v)), off, chunk)
                         && Others(fs.sb, old(fs.disk), fs.disk, ip.inum)
                         && ip.v.size == Max(old(ip.v).size, off + |chunk|)
                         && Supplied(fs.sb, old(fs.disk), old(ip.v), fs.disk, ip.v, off, |chunk|)
  {
    hide Bio.Linked, Bio.Sound, Bio.QuietBut, WordAt, Wal.HeadN, Wal.HeadBlock, Wal.HeadOk, Log.Sum, Wal.Apply, Owns,
         Used, History, Contents, NoHoles, Splice, WroteBytes, TooFew, Touched, Grew, Dinodes, DinodeAt,
         Log.CommitTrace, Log.Txn, Switches, Wal.SameHome, Foreign, SameBlocks, SameButOne, Consistent, Empty,
         Through;
    ghost var d0 := fs.disk;
    IdleDisk(log);
    var admitted := log.BeginOp();
    w := fs.WriteOperation(ip, chunk, off);
    if w.OutOfBlocks? {
      return;
    }
    if w.Wrote? {
      WroteOthers(fs.sb, d0, old(fs.Files(ip)), fs.disk, fs.Files(ip), ip.inum, off, chunk);
      TouchedOnDisk(fs.sb, d0, fs.disk, fs.Files(ip), fs.owner, ip.inum, off, |chunk|);
    }
    LogThrough(fs, log);
    EndAndCommit(log, d0, fs.disk);
  }

  // ----- what a crash leaves of the files -----

  /** Every file but the i-th is the same, and in the same blocks. */
  ghost predicate Others(sb: Superblock, d0: Image, d1: Image, i: nat)
    requires SbOk(sb) && |d0| == |d1| == sb.size
  {
    forall j: nat | j < sb.ninodes && j != i :: SameFile(sb, d0, d1, j)
  }

  ghost predicate SameFile(sb: Superblock, d0: Image, d1: Image, j: nat)
    requires SbOk(sb) && |d0| == |d1| == sb.size && j < sb.ninodes
  {
    var d := DinodeAt(sb, d0, j);
    && DinodeAt(sb, d1, j) == d
    && (forall k: nat | k < NSLOTS :: Slot(d1, d, k) == Slot(d0, d, k))
    && (forall p: nat | p < MAXBYTES :: FileByte(d1, d, p) == FileByte(d0, d, p))
  }

  lemma WroteOthers(sb: Superblock, d0: Image, f0: seq<Inode>, d1: Image, f1: seq<Inode>, i: nat, off: nat,
                    chunk: seq<Byte>)
    requires SbOk(sb) && |d0| == |d1| == sb.size && i < sb.ninodes == |f0| == |f1|
    requires f0 == Dinodes(sb, d0)[i := f0[i]] && f1 == Dinodes(sb, d1)[i := f1[i]]
    requires WroteBytes(d0, f0, d1, f1, i, off, chunk) && SameBlocks(d0, f0, d1, f1, i) && SameButOne(sb, d0, d1, i)
    ensures Others(sb, d0, d1, i)
  {
    hide FileByte, DinodeAt, Slot;
    forall j: nat | j < sb.ninodes && j != i ensures SameFile(sb, d0, d1, j) {
      assert f0[j] == DinodeAt(sb, d0, j) && f1[j] == DinodeAt(sb, d1, j);
    }
  }

  /** Disks with the same home blocks have the same files. */
  lemma SameHomeSameFile(sb: Superblock, lay: Wal.Layout, disk: Image, r: Image, owner: map<nat, (nat, nat)>, j: nat)
    requires SbOk(sb) && |disk| == |r| == sb.size && LogFirst(sb, lay) && Wal.SameHome(lay, r, disk) && j < sb.ninodes
    requires Owns(sb, disk, Dinodes(sb, disk), owner)
    ensures SameFile(sb, disk, r, j)
  {
    hide WordAt, Used, Decode;
    var d := DinodeAt(sb, disk, j);
    assert Dinodes(sb, disk)[j] == d;
    assert DinodeAt(sb, r, j) == d;
    forall k: nat | k < NSLOTS ensures Slot(r, d, k) == Slot(disk, d, k) {
      assert Slot(disk, d, NDIRECT) == d.addrs[NDIRECT];
    }
    forall p: nat | p < MAXBYTES ensures FileByte(r, d, p) == FileByte(disk, d, p) {
      var b := Slot(disk, d, SlotOf(p / BSIZE));
      assert b != 0 ==> b in owner;
    }
  }

  /** And if all inodes are in order on the one, they are on the other. */
  lemma SameHomeConsistent(sb: Superblock, lay: Wal.Layout, disk: Image, r: Image, owner: map<nat, (nat, nat)>)
    requires SbOk(sb) && |disk| == |r| == sb.size && LogFirst(sb, lay) && Wal.SameHome(lay, r, disk)
    requires Consistent(sb, disk, owner)
    ensures Consistent(sb, r, owner)
  {
    hide WordAt, Decode, Slot, FileByte, BitAt, DinodeAt;
    var f, f' := Dinodes(sb, disk), Dinodes(sb, r);
    forall j: nat | j < sb.ninodes ensures f'[j] == f[j] && SameFile(sb, disk, r, j) {
      SameHomeSameFile(sb, lay, disk, r, owner, j);
    }
    assert f' == f;
    SameBitmap(sb, disk, r);
    hide Used, SameBytes;
    OwnsSame(sb, disk, r, f, owner);
    forall j: nat | j < sb.ninodes ensures NoHoles(r, f[j]) {
      assert NoHoles(disk, f[j]);
      assert SameFile(sb, disk, r, j);
    }
  }

  lemma OwnsSame(sb: Superblock, disk: Image, r: Image, f: seq<Inode>, owner: map<nat, (nat, nat)>)
    requires SbOk(sb) && |disk| == |r| == sb.size && Owns(sb, disk, f, owner)
    requires forall b: nat | b < sb.size :: Used(sb, r, b) == Used(sb, disk, b)
    requires forall j: nat, k: nat | j < |f| && k < NSLOTS :: Slot(r, f[j], k) == Slot(disk, f[j], k)
    ensures Owns(sb, r, f, owner)
  {
    hide Used, Slot;
  }

  /** A filewrite of src at off of the i-th file, which contained c, on disk d0; whole says that all inodes
      were in order. */
  datatype Task = Task(sb: Superblock, lay: Wal.Layout, i: nat, c: seq<Byte>, off: nat, src: seq<Byte>, d0: Image,
                       whole: bool)

  /** m bytes are a whole number of chunks of src, or all of it. */
  predicate InStep(t: Task, m: nat) {
    m <= |t.src| && (m > 0 ==> t.off <= |t.c|) && (m % CHUNK == 0 || m == |t.src|)
  }

  /** What the file contains once m bytes have been written. */
  ghost function After(t: Task, m: nat): seq<Byte>
    requires InStep(t, m)
  {
    if m == 0 then t.c else Splice(t.c, t.off, t.src[..m])
  }

  /** The disk holds the file with m bytes of src written, and the other files as they were. */
  ghost predicate Reached(t: Task, disk: Image, owner: map<nat, (nat, nat)>, m: nat) {
    && SbOk(t.sb) && |disk| == |t.d0| == t.sb.size && t.i < t.sb.ninodes && InStep(t, m)
    && Owns(t.sb, disk, Dinodes(t.sb, disk), owner) && Others(t.sb, t.d0, disk, t.i)
    && var d := DinodeAt(t.sb, disk, t.i);
       && NoHoles(disk, d) && Contents(disk, d) == After(t, m) && (t.whole ==> Consistent(t.sb, disk, owner))
  }

  /** After recovery from the image the file holds m bytes of src, every other file is as it was, and all
      inodes are in order if they were. */
  ghost predicate Survives(t: Task, img: Image, m: nat) {
    && SbOk(t.sb) && Wal.HeadOk(t.lay, img) && |img| == |t.d0| == t.sb.size && t.i < t.sb.ninodes && InStep(t, m)
    && var r := Wal.Recovered(t.lay, img);
       var d := DinodeAt(t.sb, r, t.i);
       && NoHoles(r, d) && Contents(r, d) == After(t, m) && Others(t.sb, t.d0, r, t.i)
       && (t.whole ==> exists owner: map<nat, (nat, nat)> :: Consistent(t.sb, r, owner))
  }

  lemma ReachedSurvives(t: Task, img: Image, disk: Image, owner: map<nat, (nat, nat)>, m: nat)
    requires Reached(t, disk, owner, m) && LogFirst(t.sb, t.lay) && Leaves(t.lay, img, disk)
    ensures Survives(t, img, m)
  {
    hide WordAt, Used, Decode, Owns, Wal.HeadN, Wal.HeadBlock, Wal.Recovered, FileByte, DinodeAt, Consistent, Slot,
         After;
    var r := Wal.Recovered(t.lay, img);
    SameHomeSameFile(t.sb, t.lay, disk, r, owner, t.i);
    forall j: nat | j < t.sb.ninodes && j != t.i ensures SameFile(t.sb, t.d0, r, j) {
      SameHomeSameFile(t.sb, t.lay, disk, r, owner, j);
      assert SameFile(t.sb, t.d0, disk, j);
    }
    if t.whole {
      SameHomeConsistent(t.sb, t.lay, disk, r, owner);
    }
  }

  /** Of src, the file holds some number of whole chunks, or everything. */
  ghost predicate WholeChunks(t: Task, img: Image) {
    exists m: nat :: Survives(t, img, m)
  }

  /** Every image in the trace from n on recovers to whole chunks. */
  ghost predicate AllWhole(t: Task, trace: seq<Image>, n: nat) {
    forall k: nat | n <= k < |trace| :: WholeChunks(t, trace[k])
  }

  lemma TraceMore(t: Task, trace: seq<Image>, trace': seq<Image>, n: nat, d: Image, own: map<nat, (nat, nat)>, m: nat,
                  d': Image, own': map<nat, (nat, nat)>, m': nat)
    requires AllWhole(t, trace, n) && n <= |trace| && trace <= trace' && LogFirst(t.sb, t.lay)
    requires Reached(t, d, own, m) && Reached(t, d', own', m') && Switches(t.lay, trace'[|trace|..], d, d')
    ensures AllWhole(t, trace', n)
  {
    hide Reached, Leaves, Survives;
    var more := trace'[|trace|..];
    var s: nat :| s <= |more| && SwitchesAt(t.lay, more, d, d', s);
    forall k: nat | n <= k < |trace'| ensures WholeChunks(t, trace'[k]) {
      if k >= |trace| {
        assert trace'[k] == more[k - |trace|];
        if k - |trace| < s {
          ReachedSurvives(t, trace'[k], d, own, m);
        } else {
          ReachedSurvives(t, trace'[k], d', own', m');
        }
      } else {
        assert trace'[k] == trace[k];
      }
    }
  }

  lemma ReachedStart(t: Task, f: seq<Inode>, owner: map<nat, (nat, nat)>)
    requires SbOk(t.sb) && |t.d0| == t.sb.size && t.i < |f| == t.sb.ninodes && Owns(t.sb, t.d0, f, owner)
    requires f == Dinodes(t.sb, t.d0)[t.i := f[t.i]] && DinodeAt(t.sb, t.d0, t.i) == f[t.i]
    requires NoHoles(t.d0, f[t.i]) && t.c == Contents(t.d0, f[t.i]) && (t.whole ==> Consistent(t.sb, t.d0, owner))
    ensures Reached(t, t.d0, owner, 0)
  {
    hide Owns, DinodeAt, FileByte, Slot, NoHoles, Consistent, Contents;
    assert f == Dinodes(t.sb, t.d0);
  }

  lemma ReachedMore(t: Task, d: Image, own: map<nat, (nat, nat)>, d': Image, f': seq<Inode>, own': map<nat, (nat, nat)>,
                    m: nat, n: nat)
    requires Reached(t, d, own, m) && m + n <= |t.src| && 0 < n && (n == CHUNK || m + n == |t.src|) && m % CHUNK == 0
    requires |d'| == t.sb.size && |f'| == t.sb.ninodes && Owns(t.sb, d', f', own')
    requires f' == Dinodes(t.sb, d')[t.i := f'[t.i]] && DinodeAt(t.sb, d', t.i) == f'[t.i] && NoHoles(d', f'[t.i])
    requires Others(t.sb, d, d', t.i) && t.off + m <= DinodeAt(t.sb, d, t.i).size
    requires t.whole ==> Consistent(t.sb, d', own')
    requires Contents(d', f'[t.i]) == Splice(Contents(d, DinodeAt(t.sb, d, t.i)), t.off + m, t.src[m..m + n])
    ensures Reached(t, d', own', m + n)
  {
    hide Owns, DinodeAt, FileByte, Contents, NoHoles, Consistent, Splice, Slot;
    assert f' == Dinodes(t.sb, d');
    forall j: nat | j < t.sb.ninodes && j != t.i ensures SameFile(t.sb, t.d0, d', j) {
      assert SameFile(t.sb, t.d0, d, j) && SameFile(t.sb, d, d', j);
    }
    SpliceMore(t.c, t.off, t.src, m, n);
  }

  lemma ReachedAgain(t: Task, d: Image, own: map<nat, (nat, nat)>, f: seq<Inode>, own': map<nat, (nat, nat)>, m: nat)
    requires Reached(t, d, own, m) && |f| == t.sb.ninodes && Owns(t.sb, d, f, own')
    requires f == Dinodes(t.sb, d)[t.i := f[t.i]] && DinodeAt(t.sb, d, t.i) == f[t.i]
    requires t.whole ==> Consistent(t.sb, d, own')
    ensures Reached(t, d, own', m)
  {
    hide Owns, DinodeAt, Contents, Others, After, NoHoles, Consistent;
    assert f == Dinodes(t.sb, d);
  }

  /** Where a filewrite stands: the disk holds m bytes, and every crash so far would have left whole chunks. */
  ghost predicate Underway(t: Task, fs: FileSystem, log: Log.Log, ip: InodeCopy, from: nat, m: nat)
    reads fs, ip, log, log.cache
  {
    && fs.Ready(ip) && Type(ip.v) != T_DEV && Idle(log) && Mounted(fs, log)
    && t.sb == fs.sb && t.lay == log.lay && t.i == ip.inum
    && Reached(t, fs.disk, fs.owner, m) && from <= |log.cache.trace| && AllWhole(t, log.cache.trace, from)
    && (t.whole ==> fs.Whole() && Type(ip.v) != 0)
  }

  /** The next n bytes of src, after the first m. */
  method NextChunk(fs: FileSystem, log: Log.Log, ip: InodeCopy, src: seq<Byte>, off: Word, m: nat, n: nat,
                   ghost t: Task, ghost from: nat) returns (w: WriteResult)
    requires Underway(t, fs, log, ip, from, m) && t.off == off && t.src == src
    requires m + n <= |src| && off + m < 0x1_0000_0000 && 0 < n <= CHUNK && (n == CHUNK || m + n == |src|)
    requires m % CHUNK == 0
    modifies fs, ip, log, log.cache
    ensures fs.Shape() && !w.WriteDevice? && old(log.cache.trace) <= log.cache.trace
    ensures w.WriteError? <==> !Fits(old(ip.v), off + m, n)
    ensures w.OutOfBlocks? <==> Fits(old(ip.v), off + m, n) && TooFew(fs.sb, old(fs.disk), old(ip.v), off + m, n)
    ensures w.OutOfBlocks? ==> log.cache.trace == old(log.cache.trace)
    ensures !w.OutOfBlocks? ==>
              forall o: InodeCopy | old(allocated(o)) && o.inum != ip.inum && old(fs.Ready(o)) :: fs.Ready(o)
    ensures w.WriteError? ==> fs.disk == old(fs.disk) && ip.v == old(ip.v) && Underway(t, fs, log, ip, from, m)
    ensures w.Wrote? ==> && off + m + n <= MAXBYTES && ip.v.size == Max(old(ip.v).size, off + m + n)
                         && Supplied(fs.sb, old(fs.disk), old(ip.v), fs.disk, ip.v, off + m, n)
                         && Underway(t, fs, log, ip, from, m + n)
  {
    hide Owns, Contents, NoHoles, Dinodes, DinodeAt, Splice, Used, History, TooFew, Others, AllWhole, Idle, Switches,
         After, Wal.SameHome, Supplied, Consistent;
    ghost var d, own, trace := fs.disk, fs.owner, log.cache.trace;
    w := WriteChunk(fs, log, ip, src[m..m + n], off + m);
    if w.Wrote? {
      ReachedMore(t, d, own, fs.disk, fs.Files(ip), fs.owner, m, n);
      TraceMore(t, trace, log.cache.trace, from, d, own, m, fs.disk, fs.owner, m + n);
    } else if w.WriteError? {
      ReachedAgain(t, d, own, fs.Files(ip), fs.owner, m);
      TraceMore(t, trace, log.cache.trace, from, d, own, m, fs.disk, fs.owner, m);
    }
  }

  /** filewrite, through the log: whatever block write a crash follows, recovery finds the file with
      a whole number of chunks written, or all of them, no other file changed, and all inodes in order
      if they were. */
  method WriteFile(fs: FileSystem, log: Log.Log, ip: InodeCopy, src: seq<Byte>, off: Word)
    returns (r: Option<int>, newOff: Word)
    requires fs.Ready(ip) && Type(ip.v) != T_DEV && |src| < 0x8000_0000 && Idle(log) && Mounted(fs, log)
    modifies fs, ip, log, log.cache
    ensures fs.Shape() && old(log.cache.trace) <= log.cache.trace
    ensures AllWhole(old(TaskOf(fs, log, ip, src, off)), log.cache.trace, |old(log.cache.trace)|)
    ensures r.None? <==> off <= old(ip.v).size && TooFew(fs.sb, old(fs.disk), old(ip.v), off, ChunkBytes(off, |src|))
    ensures r.Some? ==> && fs.Ready(ip) && Idle(log) && Mounted(fs, log)
                        && newOff == off + (if off <= old(ip.v).size then ChunkBytes(off, |src|) else 0)
                        && r.value == (if newOff == off + |src| then |src| else -1)
                        && Reached(old(TaskOf(fs, log, ip, src, off)), fs.disk, fs.owner, newOff - off)
    ensures r.Some? ==> forall o: InodeCopy | old(allocated(o)) && o.inum != ip.inum && old(fs.Ready(o)) :: fs.Ready(o)
    ensures r.Some? && old(fs.Whole()) && Type(old(ip.v)) != 0 ==> fs.Whole()
  {
    hide Owns, Contents, NoHoles, Dinodes, DinodeAt, Used, History, Reached, AllWhole, Idle, Mounted, Supplied,
         TooFew, Consistent, ChunkBytes;
    ghost var t, from, v0 := TaskOf(fs, log, ip, src, off), |log.cache.trace|, ip.v;
    ReachedStart(t, fs.Files(ip), fs.owner);
    NothingYet(t, log.cache.trace);
    SuppliedNone(fs.sb, fs.disk, ip.v, off);
    newOff := off;
    var i := 0;
    while i < |src|
      invariant 0 <= i <= |src| && newOff == off + i && (i == |src| || i % CHUNK == 0)
      invariant Underway(t, fs, log, ip, from, i) && old(log.cache.trace) <= log.cache.trace
      invariant i == 0 ==> ip.v == v0
      invariant i > 0 ==> off <= v0.size && newOff <= ip.v.size
      invariant Supplied(fs.sb, t.d0, v0, fs.disk, ip.v, off, i)
      invariant forall o: InodeCopy | old(allocated(o)) && o.inum != ip.inum && old(fs.Ready(o)) :: fs.Ready(o)
    {
      ghost var d1, v1 := fs.disk, ip.v;
      var n1 := Min(|src| - i, CHUNK);
      var w := NextChunk(fs, log, ip, src, off, i, n1, t, from);
      if w.OutOfBlocks? {
        ChunksTooFew(fs.sb, t.d0, v0, d1, v1, off, i, n1, |src|);
        return None, newOff;
      }
      if w.WriteError? {
        break;
      }
      ChunksGrew(fs.sb, t.d0, v0, d1, v1, fs.disk, ip.v, off, i, n1);
      newOff, i := newOff + n1, i + n1;
    }
    EnoughBlocks(fs.sb, t.d0, v0, fs.disk, ip.v, off, i);
    if off <= v0.size {
      ChunkCount(off, |src|, i);
    }
    r := Some(if i == |src| then |src| else -1);
  }

  ghost function TaskOf(fs: FileSystem, log: Log.Log, ip: InodeCopy, src: seq<Byte>, off: nat): Task
    reads fs, log, ip
    requires fs.Ready(ip)
  {
    Task(fs.sb, log.lay, ip.inum, Contents(fs.disk, ip.v), off, src, fs.disk, fs.Whole() && Type(ip.v) != 0)
  }

  lemma NothingYet(t: Task, trace: seq<Image>)
    ensures AllWhole(t, trace, |trace|)
  {
  }

  /** Boot: with all inodes in order on the disk that recovery leaves, the system is ready for the next
      write. */
  method Boot(sb: Superblock, lay: Wal.Layout, img: Image, ghost owner: map<nat, (nat, nat)>)
    returns (fs: FileSystem, log: Log.Log)
    requires SbOk(sb) && LogFirst(sb, lay) && |img| == sb.size && Wal.HeadOk(lay, img)
    requires Consistent(sb, Wal.Recovered(lay, img), owner)
    ensures fs.sb == sb && log.lay == lay && fs.Whole() && Idle(log) && Mounted(fs, log)
    ensures fs.disk == log.cache.memdisk == Wal.Recovered(lay, img)
  {
    hide Bio.Linked, Bio.Sound, Bio.QuietBut, WordAt, Wal.HeadN, Wal.HeadBlock, Wal.Recovered, Consistent;
    var cache := new Bio.BufferCache(img);
    log := new Log.Log(cache, lay);
    fs := new FileSystem(sb, log.cache.memdisk, owner);
  }
}
