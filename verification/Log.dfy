/** The logging layer over the buffer cache: admission of operations, absorption of repeated
    writes, commit and recovery, each proved to make exactly the disk writes Wal describes. */
module Log {
  import opened Blocks
  import opened Common
  import opened Counting
  import opened Bio
  import opened Wal

  ghost function BlocksOf(lh: seq<Word>): set<nat> {
    set b: nat | b in lh
  }

  ghost function Sum(s: seq<nat>): nat {
    if s == [] then 0 else Sum(s[..|s| - 1]) + s[|s| - 1]
  }

  /** The transaction that commit makes permanent: the logged block numbers with their latest
      contents. */
  ghost function Txn(lh: seq<Word>, flat: Image): (t: seq<Update>)
    ensures |t| == |lh|
    ensures forall k: nat | k < |lh| && lh[k] < |flat| :: t[k] == Update(lh[k], flat[lh[k]])
    ensures forall k: nat | k < |lh| :: t[k].blockno == lh[k]
  {
    seq(|lh|, k requires 0 <= k < |lh| => Update(lh[k], if lh[k] < |flat| then flat[lh[k]] else ZERO))
  }

  /** The disks seen, one per block write, while the header's blocks are installed. */
  ghost function InstallTrace(lay: Layout, img: Image): (t: seq<Image>)
    requires HeadOk(lay, img)
    ensures |t| == HeadN(lay, img)
    ensures forall k: nat | k < |t| :: t[k] == Installed(lay, img, k + 1)
  {
    seq(HeadN(lay, img), k requires 0 <= k < HeadN(lay, img) => Installed(lay, img, k + 1))
  }

  ghost function LoggedTrace(lay: Layout, img: Image, txn: seq<Update>): (t: seq<Image>)
    requires Fits(lay, img) && |txn| < lay.size
    ensures |t| == |txn|
    ensures forall k: nat | k < |t| :: t[k] == Logged(lay, img, txn, k + 1)
  {
    seq(|txn|, k requires 0 <= k < |txn| => Logged(lay, img, txn, k + 1))
  }

  /** The disks seen, one per block write, during a commit. */
  ghost function CommitTrace(lay: Layout, img: Image, txn: seq<Update>): (t: seq<Image>)
    requires Fits(lay, img) && TxnOk(lay, img, txn)
  {
    seq(CommitWrites(txn), k requires 0 <= k < CommitWrites(txn) => CommitImage(lay, img, txn, k + 1))
  }

  /** The disks seen, one per block write, during a recovery. */
  ghost function RecoverTrace(lay: Layout, img: Image): (t: seq<Image>)
    requires HeadOk(lay, img)
    ensures |t| == HeadN(lay, img) + 1
    ensures forall k: nat | k < |t| :: t[k] == RecoverImage(lay, img, k + 1)
  {
    hide WordAt, PutHead, HeadBlock, Installed;
    seq(HeadN(lay, img) + 1, k requires 0 <= k <= HeadN(lay, img) => RecoverImage(lay, img, k + 1))
  }

  lemma CommitTraceParts(lay: Layout, img: Image, txn: seq<Update>)
    requires Fits(lay, img) && TxnOk(lay, img, txn) && txn != []
    ensures CommitTrace(lay, img, txn) ==
            LoggedTrace(lay, img, txn) + [AtCommit(lay, img, txn)] + RecoverTrace(lay, AtCommit(lay, img, txn))
    ensures CommitImage(lay, img, txn, CommitWrites(txn)) == Recovered(lay, AtCommit(lay, img, txn))
  {
    hide WordAt, PutHead, HeadN, HeadBlock, Logged, AtCommit, WithHead, Installed, HeadOk, Fits;
    var n, c := |txn|, AtCommit(lay, img, txn);
    InstallNone(lay, c);
    var whole := LoggedTrace(lay, img, txn) + [c] + RecoverTrace(lay, c);
    forall k: nat | k < |whole| ensures whole[k] == CommitTrace(lay, img, txn)[k] {
      if n < k {
        assert whole[k] == RecoverTrace(lay, c)[k - n - 1];
      }
    }
  }

  class Log {
    const cache: BufferCache
    const lay: Layout
    var outstanding: nat
    var committing: bool
    var lh: seq<Word>              // lh.block[0..lh.n)

    ghost var left: seq<nat>       // how many blocks each running operation may still append

    ghost predicate HeadIs(img: Image, bs: seq<Word>)
      reads this
    {
      && HeadOk(lay, img) && HeadN(lay, img) == |bs|
      && forall k: nat | k < |bs| :: HeadBlock(lay, img, k) == bs[k]
    }

    /** Between operations: the header on disk is empty, the pinned blocks are the logged ones,
        and the log has room for everything the running operations may still append. */
    ghost predicate Valid()
      reads this, cache
    {
      && cache.Valid() && HeadIs(cache.memdisk, [])
      && |lh| < lay.size && NoRepeat(lh) && cache.pinned == BlocksOf(lh)
      && (forall k: nat | k < |lh| :: IsHome(lay, cache.memdisk, lh[k]))
      && |left| == outstanding && (committing ==> outstanding == 0)
      && (forall k: nat | k < |left| :: left[k] <= MAXOPBLOCKS)
      && |lh| + Sum(left) <= LOGSIZE
    }

    /** Apart from the given buffers nobody uses the cache, and those are out of a commit's way. */
    ghost predicate CalmBut(users: set<nat>)
      reads this, cache
    {
      cache.Valid() && Aside(cache.bufs, cache.memdisk, lay, lh, users)
    }

    /** initlog at boot, on a cache in which nothing is dirty: recover, then start empty. */
    constructor (cache: BufferCache, lay: Layout)
      requires cache.Valid() && Quiet(cache.bufs) && cache.pinned == {}
      requires HeadOk(lay, cache.memdisk)
      modifies cache
      ensures this.cache == cache && this.lay == lay
      ensures Valid() && Quiet(cache.bufs) && lh == [] && left == [] && !committing
      ensures cache.memdisk == cache.flat == Recovered(lay, old(cache.memdisk))
      ensures cache.trace == old(cache.trace) + RecoverTrace(lay, old(cache.memdisk))
    {
      this.cache, this.lay := cache, lay;
      outstanding, committing, lh, left := 0, false, [], [];
      new;
      RecoverFromLog();
    }

    /** recover_from_log: install whatever the header names, then clear the header. */
    method RecoverFromLog()
      requires cache.Valid() && Quiet(cache.bufs) && cache.pinned == {} && HeadOk(lay, cache.memdisk)
      modifies cache, this`lh
      ensures cache.Valid() && Quiet(cache.bufs) && cache.pinned == {} && lh == []
      ensures HeadIs(cache.memdisk, [])
      ensures cache.memdisk == cache.flat == Recovered(lay, old(cache.memdisk))
      ensures cache.trace == old(cache.trace) + RecoverTrace(lay, old(cache.memdisk))
    {
      hide Linked, Sound, QuietBut, IndexOf, Remove, WordAt, PutHead, Aside, Synced;
      ReadHead();
      QuietAside(cache.bufs, cache.memdisk, cache.flat, cache.pinned, lay, lh);
      InstallAndClear({});
      AsideQuiet(cache.bufs, cache.memdisk, lay, lh);
      FlatIsDisk(cache.bufs, cache.memdisk, cache.flat);
    }

    /** The end of both recovery and commit: install the logged blocks, then clear the header. */
    method InstallAndClear(ghost users: set<nat>)
      requires CalmBut(users) && HeadIs(cache.memdisk, lh)
      requires |cache.pinned| + |users| < NBUF
      requires (cache.pinned == {} && users == {}) || (cache.pinned == BlocksOf(lh) && NoRepeat(lh))
      modifies cache, this`lh
      ensures CalmBut(users) && Kept(old(cache.bufs), cache.bufs, users)
      ensures cache.pinned == {} && lh == [] && HeadIs(cache.memdisk, [])
      ensures cache.memdisk == Recovered(lay, old(cache.memdisk))
      ensures cache.trace == old(cache.trace) + RecoverTrace(lay, old(cache.memdisk))
    {
      hide Linked, Sound, IndexOf, Remove, WordAt, PutHead, Aside, Kept;
      InstallTrans(users);
      AsideLess(cache.bufs, cache.memdisk, lay, lh, users);
      ghost var bufs := cache.bufs;
      lh := [];
      WriteHead(users);
      KeptTrans(old(cache.bufs), bufs, cache.bufs, users);
    }

    /** read_head: the in-memory header becomes the one on disk. */
    method ReadHead()
      requires cache.Valid() && Quiet(cache.bufs) && cache.pinned == {} && HeadOk(lay, cache.memdisk)
      modifies cache, this`lh
      ensures cache.Valid() && Quiet(cache.bufs) && cache.pinned == {}
      ensures cache.memdisk == old(cache.memdisk) && cache.trace == old(cache.trace) && cache.flat == old(cache.flat)
      ensures HeadIs(cache.memdisk, lh)
    {
      hide Aside, Synced, Sound;
      QuietAside(cache.bufs, cache.memdisk, cache.flat, cache.pinned, lay, []);
      var buf := ReadHeaderBlock([], {});
      var data := cache.bufs[buf].data;
      var blocks: seq<Word> := [];
      for i := 0 to WordAt(data, 0)
        invariant |blocks| == i && forall k: nat | k < i :: blocks[k] == WordAt(data, k + 1)
      {
        blocks := blocks + [WordAt(data, i + 1)];
      }
      lh := blocks;
      cache.Brelse(buf);
    }

    method ReadHeaderBlock(ghost bs: seq<Word>, ghost users: set<nat>) returns (buf: nat)
      requires cache.Valid() && Aside(cache.bufs, cache.memdisk, lay, bs, users) && Fits(lay, cache.memdisk)
      requires |cache.pinned| + |users| < NBUF && lay.start !in cache.pinned
      modifies cache
      ensures cache.Valid() && cache.pinned == old(cache.pinned)
      ensures cache.memdisk == old(cache.memdisk) && cache.trace == old(cache.trace) && cache.flat == old(cache.flat)
      ensures buf < NBUF && cache.bufs[buf].valid && cache.bufs[buf].locked && cache.bufs[buf].refcnt == 1
      ensures !cache.bufs[buf].dirty && cache.bufs[buf].blockno == lay.start
      ensures cache.bufs[buf].data == cache.memdisk[lay.start]
      ensures buf !in users && |old(cache.bufs)| == NBUF && cache.bufs == old(cache.bufs)[buf := cache.bufs[buf]]
    {
      hide Linked, Sound, IndexOf, Remove, Aside;
      RoomToRead(cache.bufs, cache.memdisk, cache.flat, cache.pinned, lay, bs, users, lay.start);
      var r := cache.Bread(DISKDEV, lay.start);
      buf := r.value;
    }

    /** write_head: the header on disk becomes the in-memory one, in one block write. */
    method WriteHead(ghost users: set<nat>)
      requires CalmBut(users) && Fits(lay, cache.memdisk)
      requires |lh| <= LOGSIZE && |cache.pinned| + |users| < NBUF && lay.start !in cache.pinned
      modifies cache
      ensures CalmBut(users) && Kept(old(cache.bufs), cache.bufs, users)
      ensures cache.pinned == old(cache.pinned) && cache.memdisk == WithHead(lay, old(cache.memdisk), lh)
      ensures cache.trace == old(cache.trace) + [cache.memdisk]
      ensures cache.flat == old(cache.flat)[lay.start := cache.memdisk[lay.start]]
    {
      hide Linked, Sound, PutHead, WordAt, IndexOf, Remove, Aside;
      var buf := ReadHeaderBlock(lh, users);
      var hb := FillHeader(cache.bufs[buf].data, lh);
      cache.StoreAndWrite(buf, hb);
      cache.Brelse(buf);
      AsideAfter(old(cache.bufs), old(cache.memdisk), cache.bufs, cache.memdisk, cache.flat, cache.pinned, lay, lh,
                 users, buf, buf);
    }

    /** The loop of write_head: n and block[0..n) go in, the rest of the block stays. */
    static method FillHeader(data: Block, bs: seq<Word>) returns (hb: Block)
      requires |bs| <= LOGSIZE
      ensures hb == PutHead(data, bs)
    {
      hb := WithWord(data, 0, |bs|);
      for i := 0 to |bs|
        invariant hb == PutNumbers(WithWord(data, 0, |bs|), bs[..i])
      {
        hb := WithWord(hb, i + 1, bs[i]);
        assert bs[..i + 1][..i] == bs[..i];
      }
      assert bs[..|bs|] == bs;
    }

    /** install_trans: copy every log block to the home location the header names for it. */
    method InstallTrans(ghost users: set<nat>)
      requires CalmBut(users) && HeadIs(cache.memdisk, lh)
      requires |cache.pinned| + |users| < NBUF
      requires (cache.pinned == {} && users == {}) || (cache.pinned == BlocksOf(lh) && NoRepeat(lh))
      modifies cache
      ensures CalmBut(users) && Kept(old(cache.bufs), cache.bufs, users) && cache.pinned == {}
      ensures cache.memdisk == Installed(lay, old(cache.memdisk), |lh|)
      ensures cache.trace == old(cache.trace) + InstallTrace(lay, old(cache.memdisk))
    {
      hide Linked, Sound, WordAt, BlocksOf, HeadN, HeadBlock, Installed, HeadOk, InLog, Aside, Touches, Kept, ToInstall;
      ghost var img, all := cache.memdisk, InstallTrace(lay, cache.memdisk);
      assert all[..0] == [];
      StartInstall(cache.pinned, users, lh);
      InstallNone(lay, img);
      KeptAll(cache.bufs, users);
      for tail := 0 to |lh|
        invariant CalmBut(users) && Kept(old(cache.bufs), cache.bufs, users)
        invariant cache.memdisk == Installed(lay, img, tail)
        invariant |cache.pinned| + |users| < NBUF
        invariant ToInstall(cache.pinned, users, lh, tail)
        invariant cache.trace == old(cache.trace) + all[..tail]
      {
        NextToInstall(lay, img, lh, tail, cache.pinned, users);
        InstallOne(lay, img, lh, tail);
        ghost var bufs := cache.bufs;
        InstallBlock(lay.start + tail + 1, lh[tail], users);
        KeptTrans(old(cache.bufs), bufs, cache.bufs, users);
        assert all[..tail + 1] == all[..tail] + [cache.memdisk];
      }
      AllInstalled(cache.pinned, users, lh);
      assert all[..|lh|] == all;
    }

    /** write_log: copy every logged block from the cache into the log. False is the panic for
        want of a buffer, on the very first read, when the logged blocks and the buffers in use are the
        whole cache. */
    method WriteLog(ghost users: set<nat>) returns (ok: bool)
      requires CalmBut(users) && Fits(lay, cache.memdisk)
      requires 0 < |lh| < lay.size && NoRepeat(lh) && cache.pinned == BlocksOf(lh)
      requires forall k: nat | k < |lh| :: IsHome(lay, cache.flat, lh[k])
      modifies cache
      ensures CalmBut(users) && Kept(old(cache.bufs), cache.bufs, users)
      ensures cache.pinned == old(cache.pinned) && |cache.pinned| == |lh| && (ok <==> |lh| + |users| < NBUF)
      ensures !ok ==>
                cache.memdisk == old(cache.memdisk) && cache.flat == old(cache.flat) && cache.trace == old(cache.trace)
      ensures ok ==> && cache.memdisk == Logged(lay, old(cache.memdisk), Txn(old(lh), old(cache.flat)), |lh|)
                     && cache.trace ==
                        old(cache.trace) + LoggedTrace(lay, old(cache.memdisk), Txn(old(lh), old(cache.flat)))
    {
      hide Linked, Sound, WordAt, BlocksOf, Logged, NoRepeat, Aside, Kept;
      BlocksOfCount(lh);
      KeptAll(cache.bufs, users);
      ghost var img, txn := cache.memdisk, Txn(lh, cache.flat);
      ghost var all := LoggedTrace(lay, img, txn);
      assert all[..0] == [];
      assert Logged(lay, img, txn, 0) == img;
      for tail := 0 to |lh|
        invariant CalmBut(users) && Kept(old(cache.bufs), cache.bufs, users)
        invariant cache.pinned == BlocksOf(lh)
        invariant cache.memdisk == Logged(lay, img, txn, tail) && |cache.flat| == |img|
        invariant tail == 0 ==> cache.flat == old(cache.flat)
        invariant tail > 0 ==> |lh| + |users| < NBUF
        invariant forall b: nat | b < |img| && !InLog(lay, b) :: cache.flat[b] == old(cache.flat)[b]
        invariant cache.trace == old(cache.trace) + all[..tail]
      {
        LogBlockFresh(lay, img, lh, tail);
        ghost var bufs := cache.bufs;
        ok := WriteLogBlock(lay.start + tail + 1, lh[tail], users);
        KeptTrans(old(cache.bufs), bufs, cache.bufs, users);
        if !ok {
          return;
        }
        LogOne(lay, img, txn, tail);
        assert all[..tail + 1] == all[..tail] + [cache.memdisk];
      }
      assert all[..|lh|] == all;
      return true;
    }

    /** commit, while other processes may be reading: users are the buffers they have. Exactly the block
        writes of Wal.CommitImage, in that order, for the transaction made of the logged blocks and their
        latest contents; afterwards the disk has the latest contents of every block, the log is empty and
        nothing is pinned. False is the panic for want of a buffer, which happens exactly when the logged
        blocks and the buffers in use are the whole cache, before any block is written. */
    method Commit(ghost users: set<nat>) returns (ok: bool)
      requires Valid() && CalmBut(users) && committing
      modifies cache, this`lh
      ensures CalmBut(users) && Kept(old(cache.bufs), cache.bufs, users)
      ensures ok <==> old(lh) == [] || |old(lh)| + |users| < NBUF
      ensures !ok ==>
                cache.memdisk == old(cache.memdisk) && cache.flat == old(cache.flat) && cache.trace == old(cache.trace)
      ensures !ok ==> lh == old(lh)
      ensures ok ==> Valid() && lh == [] && cache.pinned == {}
      ensures TxnOk(lay, old(cache.memdisk), Txn(old(lh), old(cache.flat)))
      ensures ok ==>
                cache.trace == old(cache.trace) + CommitTrace(lay, old(cache.memdisk), Txn(old(lh), old(cache.flat)))
      ensures ok ==> cache.memdisk == cache.flat && SameHome(lay, cache.flat, old(cache.flat))
    {
      hide Linked, Sound, WordAt, BlocksOf, PutHead, HeadN, HeadBlock, CommitImage, Apply, Aside, Synced, Kept;
      KeptAll(cache.bufs, users);
      ghost var img, flat, txn := cache.memdisk, cache.flat, Txn(lh, cache.flat);
      AsideSynced(cache.bufs, cache.memdisk, lay, lh, users);
      LatestContents(lay, cache.bufs, img, flat, lh);
      CommitCompletes(lay, img, txn);
      PinnedNone([]);
      ok := true;
      if |lh| > 0 {
        ok := CommitSome(users);
      }
      if ok {
        AsideSynced(cache.bufs, cache.memdisk, lay, lh, users);
        FlatIsDisk(cache.bufs, cache.memdisk, cache.flat);
      }
    }

    /** The body of commit for a transaction that is not empty. */
    method CommitSome(ghost users: set<nat>) returns (ok: bool)
      requires Valid() && CalmBut(users) && lh != []
      modifies cache, this`lh
      ensures CalmBut(users) && Kept(old(cache.bufs), cache.bufs, users)
      ensures ok <==> |old(lh)| + |users| < NBUF
      ensures !ok ==>
                cache.memdisk == old(cache.memdisk) && cache.flat == old(cache.flat) && cache.trace == old(cache.trace)
      ensures !ok ==> lh == old(lh)
      ensures ok ==> lh == [] && cache.pinned == {} && HeadIs(cache.memdisk, [])
      ensures var txn := Txn(old(lh), old(cache.flat));
              && TxnOk(lay, old(cache.memdisk), txn)
              && (ok ==> && cache.memdisk == CommitImage(lay, old(cache.memdisk), txn, CommitWrites(txn))
                         && cache.trace == old(cache.trace) + CommitTrace(lay, old(cache.memdisk), txn))
    {
      hide Linked, Sound, WordAt, BlocksOf, PutHead, HeadN, HeadBlock, CommitImage, Recovered, AtCommit,
           CommitTrace, LoggedTrace, RecoverTrace, Txn, Numbers, Sum, IndexOf, Remove, Aside, Kept;
      ghost var img, txn := cache.memdisk, Txn(lh, cache.flat);
      ok := LogAndCommit(users);
      if ok {
        ghost var bufs := cache.bufs;
        InstallAndClear(users);
        KeptTrans(old(cache.bufs), bufs, cache.bufs, users);
        CommitTraceParts(lay, img, txn);
      }
    }

    /** The first half of commit, up to the header write that makes the transaction permanent. */
    method LogAndCommit(ghost users: set<nat>) returns (ok: bool)
      requires Valid() && CalmBut(users) && lh != []
      modifies cache
      ensures CalmBut(users) && Kept(old(cache.bufs), cache.bufs, users)
      ensures cache.pinned == BlocksOf(lh) && |cache.pinned| == |lh| && (ok <==> |lh| + |users| < NBUF)
      ensures !ok ==>
                cache.memdisk == old(cache.memdisk) && cache.flat == old(cache.flat) && cache.trace == old(cache.trace)
      ensures var txn := Txn(old(lh), old(cache.flat));
              && TxnOk(lay, old(cache.memdisk), txn)
              && (ok ==> && cache.memdisk == AtCommit(lay, old(cache.memdisk), txn) && HeadIs(cache.memdisk, lh)
                         && cache.trace ==
                            old(cache.trace) + LoggedTrace(lay, old(cache.memdisk), txn) + [cache.memdisk])
    {
      hide Linked, Sound, WordAt, BlocksOf, PutHead, Aside, Kept;
      ghost var txn := Txn(lh, cache.flat);
      ok := WriteLog(users);
      if ok {
        HeaderNotPinned(lay, cache.memdisk, lh);
        assert Numbers(txn) == lh;
        ghost var bufs := cache.bufs;
        WriteHead(users);
        KeptTrans(old(cache.bufs), bufs, cache.bufs, users);
      }
    }

    /** One trip round begin_op's loop: false means the caller has to sleep. An operation is let
        in exactly when no commit is running and the log could still take MAXOPBLOCKS blocks from
        it and from every operation already running. */
    method BeginOp() returns (admitted: bool)
      requires Valid()
      modifies this`outstanding, this`left
      ensures Valid()
      ensures admitted <==> !committing && |lh| + (old(outstanding) + 1) * MAXOPBLOCKS <= LOGSIZE
      ensures left == if admitted then old(left) + [MAXOPBLOCKS] else old(left)
    {
      if committing {
        admitted := false;
      } else if |lh| + (outstanding + 1) * MAXOPBLOCKS > LOGSIZE {
        admitted := false;
      } else {
        SumBound(left, MAXOPBLOCKS);
        assert (left + [MAXOPBLOCKS])[..|left|] == left;
        outstanding, left := outstanding + 1, left + [MAXOPBLOCKS];
        admitted := true;
      }
    }

    /** log_write of a locked buffer by running operation op: the block is pinned and recorded, once
        however often it is written. False stands for the panics: log_write refuses exactly when
        no operation is running or the log already holds LOGSIZE or size - 1 blocks, even a block that
        is already recorded. */
    method LogWrite(i: nat, ghost op: nat) returns (ok: bool)
      requires Valid() && i < NBUF && cache.bufs[i].locked && cache.bufs[i].valid
      requires IsHome(lay, cache.memdisk, cache.bufs[i].blockno) && cache.bufs[i].blockno < 0x1_0000_0000
      requires left != [] ==> op < |left| && (cache.bufs[i].blockno !in lh ==> left[op] > 0)
      modifies cache, this`lh, this`left
      ensures Valid() && cache.memdisk == old(cache.memdisk) && cache.flat == old(cache.flat)
      ensures cache.trace == old(cache.trace)
      ensures ok <==> old(left) != [] && |old(lh)| < LOGSIZE && |old(lh)| < lay.size - 1
      ensures !ok ==> lh == old(lh) && left == old(left) && cache.bufs == old(cache.bufs)
      ensures ok ==> cache.bufs == old(cache.bufs)[i := old(cache.bufs)[i].(dirty := true)]
      ensures ok && old(cache.bufs)[i].blockno in old(lh) ==> lh == old(lh) && left == old(left)
      ensures ok && old(cache.bufs)[i].blockno !in old(lh) ==>
                && lh == old(lh) + [old(cache.bufs)[i].blockno]
                && op < |old(left)| && left == old(left)[op := old(left)[op] - 1]
    {
      hide Linked, Sound, WordAt;
      if |lh| >= LOGSIZE || |lh| >= lay.size - 1 || outstanding < 1 {
        return false;
      }
      var b := cache.bufs[i].blockno;
      var k := FindBlock(lh, b);
      if k == |lh| {
        OneMoreBlock(lh, b);
        SumUpdate(left, op, left[op] - 1);
        lh, left := lh + [b], left[op := left[op] - 1];
      } else {
        assert BlocksOf(lh) + {b} == BlocksOf(lh);
        lh := lh[k := b];
        assert lh == old(lh);
      }
      cache.Pin(i);
      return true;
    }

    /** How the file system changes a block: bread, a new contents for the buffer, log_write and
        brelse, once nobody else has the block's buffer locked. What the cache stands for changes in that
        block; the disk does not, nor any other buffer. It panics exactly when there is no buffer or the
        log is full. */
    method LogBlock(b: Word, data: Block, ghost op: nat) returns (ok: bool)
      requires Valid() && IsHome(lay, cache.memdisk, b)
      requires forall i: nat | i < NBUF && Holds(cache.bufs[i], DISKDEV, b) :: !cache.bufs[i].locked
      requires op < |left| && (b !in lh ==> left[op] > 0)
      modifies cache, this`lh, this`left
      ensures cache.memdisk == old(cache.memdisk) && cache.trace == old(cache.trace)
      ensures |old(cache.bufs)| == NBUF
      ensures ok <==>
                && |old(lh)| < LOGSIZE && |old(lh)| < lay.size - 1
                && exists i: nat :: i < NBUF && (!Busy(old(cache.bufs)[i]) || Holds(old(cache.bufs)[i], DISKDEV, b))
      ensures ok ==> && Valid() && b < |old(cache.flat)| && cache.flat == old(cache.flat)[b := data]
                     && lh == (if b in old(lh) then old(lh) else old(lh) + [b])
                     && |left| == |old(left)|
                     && left == if b in old(lh) then old(left) else old(left)[op := old(left)[op] - 1]
      ensures ok ==> exists i: nat :: i < NBUF && cache.bufs == old(cache.bufs)[i := cache.bufs[i]]
                                      && !cache.bufs[i].locked && Holds(cache.bufs[i], DISKDEV, b)
                                      && cache.bufs[i].refcnt == old(cache.bufs)[i].refcnt
    {
      hide Linked, Sound, WordAt, HeadN, HeadBlock, BlocksOf, IndexOf, Remove, Sum;
      var r := cache.Bread(DISKDEV, b);
      if r.None? {
        return false;
      }
      cache.Store(r.value, data);
      ok := LogWrite(r.value, op);
      if ok {
        cache.Brelse(r.value);
      }
    }

    /** The search of log_write: where block b is recorded, or the end of the list. */
    static method FindBlock(lh: seq<Word>, b: Word) returns (k: nat)
      ensures k <= |lh| && b !in lh[..k]
      ensures k < |lh| ==> lh[k] == b
    {
      k := 0;
      while k < |lh|
        invariant k <= |lh| && b !in lh[..k]
      {
        if lh[k] == b {
          return;
        }
        k := k + 1;
      }
    }

    /** The locked section at the start of end_op. The panic for a commit in progress cannot happen
        here: no operation runs while one does. The last operation out has to commit. */
    method EndOp(ghost op: nat) returns (doCommit: bool)
      requires Valid() && op < |left|
      modifies this`outstanding, this`left, this`committing
      ensures Valid() && !old(committing)
      ensures left == Remove(old(left), op)
      ensures doCommit <==> left == []
      ensures committing == doCommit
    {
      SumWithout(left, op);
      outstanding, left := outstanding - 1, Remove(left, op);
      doCommit := outstanding == 0;
      committing := doCommit;
    }

    /** The locked section at the end of end_op, after the commit. */
    method EndCommit()
      requires Valid() && committing
      modifies this`committing
      ensures Valid() && !committing
    {
      committing := false;
    }

    /** memmove from one held buffer to another, write the second out, release both. */
    method CopyOut(src: nat, dst: nat)
      requires cache.Valid() && src < NBUF && dst < NBUF && src != dst
      requires cache.bufs[src].locked && cache.bufs[src].valid && cache.bufs[src].refcnt == 1
      requires cache.bufs[dst].locked && cache.bufs[dst].valid && cache.bufs[dst].refcnt == 1
      requires cache.bufs[src].dirty || cache.bufs[src].data == cache.memdisk[cache.bufs[src].blockno]
      requires cache.bufs[src].blockno != cache.bufs[dst].blockno
      modifies cache
      ensures cache.Valid() && |old(cache.bufs)| == NBUF
      ensures forall i: nat | i < NBUF && i != src && i != dst :: cache.bufs[i] == old(cache.bufs)[i]
      ensures cache.bufs[src].refcnt == cache.bufs[dst].refcnt == 0
      ensures var b, data := old(cache.bufs)[dst].blockno, old(cache.bufs)[src].data;
              && b < |old(cache.memdisk)|
              && cache.memdisk == old(cache.memdisk)[b := data] && cache.flat == old(cache.flat)[b := data]
              && cache.pinned == old(cache.pinned) - {b} && cache.trace == old(cache.trace) + [cache.memdisk]
    {
      hide Linked, Sound, IndexOf, Remove;
      InRange(cache.bufs, cache.memdisk, cache.flat, cache.pinned, src);
      InRange(cache.bufs, cache.memdisk, cache.flat, cache.pinned, dst);
      cache.StoreAndWrite(dst, cache.bufs[src].data);
      cache.Brelse(src);
      cache.Brelse(dst);
    }

    /** Copy a log block to its home location and write that out. */
    method InstallBlock(lb: nat, hb: nat, ghost users: set<nat>)
      requires CalmBut(users) && |cache.pinned| + |users| < NBUF
      requires lb < |cache.memdisk| && lb !in cache.pinned && hb < |cache.memdisk| && lb != hb
      requires Touches(lay, lh, lb) && Touches(lay, lh, hb)
      requires hb in cache.pinned || (cache.pinned == {} && users == {})
      modifies cache
      ensures CalmBut(users) && Kept(old(cache.bufs), cache.bufs, users)
      ensures cache.pinned == old(cache.pinned) - {hb}
      ensures cache.memdisk == old(cache.memdisk)[hb := old(cache.memdisk)[lb]]
      ensures cache.trace == old(cache.trace) + [cache.memdisk]
    {
      hide Linked, Sound, IndexOf, Remove, Aside, Touches;
      RoomToRead(cache.bufs, cache.memdisk, cache.flat, cache.pinned, lay, lh, users, lb);
      var lbuf := cache.Bread(DISKDEV, lb);
      SecondRead(old(cache.bufs), cache.memdisk, cache.flat, cache.pinned, lay, lh, users, lbuf.value, cache.bufs, hb);
      var dbuf := cache.Bread(DISKDEV, hb);
      CopyOut(lbuf.value, dbuf.value);
      AsideAfter(old(cache.bufs), old(cache.memdisk), cache.bufs, cache.memdisk, cache.flat, cache.pinned, lay, lh,
                 users, lbuf.value, dbuf.value);
    }

    /** Copy a cached home block into a log block and write the log block out. */
    method WriteLogBlock(lb: nat, hb: nat, ghost users: set<nat>) returns (ok: bool)
      requires CalmBut(users)
      requires lb < |cache.memdisk| && lb !in cache.pinned && hb in cache.pinned
      requires Touches(lay, lh, lb) && Touches(lay, lh, hb)
      modifies cache
      ensures CalmBut(users) && Kept(old(cache.bufs), cache.bufs, users)
      ensures cache.pinned == old(cache.pinned) && hb < |old(cache.flat)|
      ensures ok <==> |cache.pinned| + |users| < NBUF
      ensures !ok ==>
                cache.memdisk == old(cache.memdisk) && cache.flat == old(cache.flat) && cache.trace == old(cache.trace)
      ensures ok ==> && cache.memdisk == old(cache.memdisk)[lb := old(cache.flat)[hb]]
                     && cache.flat == old(cache.flat)[lb := old(cache.flat)[hb]]
                     && cache.trace == old(cache.trace) + [cache.memdisk]
    {
      hide Linked, Sound, IndexOf, Remove, Aside, Touches;
      RoomForLogBlock(cache.bufs, cache.memdisk, cache.flat, cache.pinned, lay, lh, users, lb, hb);
      var to := cache.Bread(DISKDEV, lb);
      if to.None? {
        return false;
      }
      SecondRead(old(cache.bufs), cache.memdisk, cache.flat, cache.pinned, lay, lh, users, to.value, cache.bufs, hb);
      var from := cache.Bread(DISKDEV, hb);
      CopyOut(from.value, to.value);
      AsideAfter(old(cache.bufs), old(cache.memdisk), cache.bufs, cache.memdisk, cache.flat, cache.pinned, lay, lh,
                 users, from.value, to.value);
      return true;
    }
  }

  // ----- buffers that others use during a commit -----

  /** A block of the log, or one that is logged. */
  predicate Touches(lay: Layout, lh: seq<Word>, b: nat) {
    InLog(lay, b) || b in lh
  }

  /** The buffers in use are users. Their processes only read, and blocks that a commit leaves alone. */
  ghost predicate Aside(bufs: seq<Buf>, disk: Image, lay: Layout, lh: seq<Word>, users: set<nat>) {
    && QuietBut(bufs, users) && Synced(bufs, disk)
    && forall i | i in users :: && i < |bufs| && bufs[i].refcnt > 0 && !bufs[i].dirty
                                && !(bufs[i].dev == DISKDEV && Touches(lay, lh, bufs[i].blockno))
  }

  ghost predicate Kept(bufs: seq<Buf>, bufs': seq<Buf>, users: set<nat>) {
    |bufs'| == |bufs| && forall i | i in users && i < |bufs| :: bufs'[i] == bufs[i]
  }

  lemma KeptAll(bufs: seq<Buf>, users: set<nat>)
    ensures Kept(bufs, bufs, users)
  {
  }

  lemma KeptTrans(bufs: seq<Buf>, bufs1: seq<Buf>, bufs2: seq<Buf>, users: set<nat>)
    requires Kept(bufs, bufs1, users) && Kept(bufs1, bufs2, users)
    ensures Kept(bufs, bufs2, users)
  {
  }

  lemma QuietAside(bufs: seq<Buf>, disk: Image, flat: Image, pinned: set<nat>, lay: Layout, lh: seq<Word>)
    requires Sound(bufs, disk, flat, pinned) && Quiet(bufs)
    ensures Aside(bufs, disk, lay, lh, {})
  {
    QuietIsSynced(bufs, disk);
  }

  lemma AsideQuiet(bufs: seq<Buf>, disk: Image, lay: Layout, lh: seq<Word>)
    requires Aside(bufs, disk, lay, lh, {})
    ensures Quiet(bufs) && Synced(bufs, disk)
  {
  }

  lemma AsideSynced(bufs: seq<Buf>, disk: Image, lay: Layout, lh: seq<Word>, users: set<nat>)
    requires Aside(bufs, disk, lay, lh, users)
    ensures Synced(bufs, disk)
  {
  }

  lemma AsideLess(bufs: seq<Buf>, disk: Image, lay: Layout, lh: seq<Word>, users: set<nat>)
    requires Aside(bufs, disk, lay, lh, users)
    ensures Aside(bufs, disk, lay, [], users)
  {
    hide QuietBut, Synced;
  }

  /** After using two buffers that are nobody else's, for blocks that nobody else has. */
  lemma AsideAfter(bufs: seq<Buf>, disk: Image, bufs': seq<Buf>, disk': Image, flat': Image, pinned': set<nat>,
                   lay: Layout, lh: seq<Word>, users: set<nat>, a: nat, b: nat)
    requires Aside(bufs, disk, lay, lh, users) && Sound(bufs', disk', flat', pinned') && |bufs| == NBUF
    requires a < NBUF && b < NBUF && a !in users && b !in users && bufs'[a].refcnt == bufs'[b].refcnt == 0
    requires forall i: nat | i < NBUF && i != a && i != b :: bufs'[i] == bufs[i]
    requires |disk'| == |disk| && forall x: nat | x < |disk| && !Touches(lay, lh, x) :: disk'[x] == disk[x]
    ensures Aside(bufs', disk', lay, lh, users) && Kept(bufs, bufs', users)
  {
    hide Touches;
    forall i: nat | i < NBUF && bufs'[i].valid && bufs'[i].locked && !bufs'[i].dirty && bufs'[i].blockno < |disk'|
      ensures bufs'[i].data == disk'[bufs'[i].blockno]
    {
      assert bufs'[i].refcnt > 0 && bufs'[i].dev == DISKDEV;
      assert i in users;
    }
  }

  /** In a commit the blocks still to be installed are pinned; in a recovery nothing is, and nobody else is there. */
  ghost predicate ToInstall(pinned: set<nat>, users: set<nat>, lh: seq<Word>, tail: nat)
    requires tail <= |lh|
  {
    (pinned == {} && users == {}) || (pinned == BlocksOf(lh[tail..]) && NoRepeat(lh[tail..]))
  }

  lemma StartInstall(pinned: set<nat>, users: set<nat>, lh: seq<Word>)
    requires (pinned == {} && users == {}) || (pinned == BlocksOf(lh) && NoRepeat(lh))
    ensures ToInstall(pinned, users, lh, 0)
  {
    assert lh[0..] == lh;
  }

  lemma AllInstalled(pinned: set<nat>, users: set<nat>, lh: seq<Word>)
    requires ToInstall(pinned, users, lh, |lh|)
    ensures pinned == {}
  {
    PinnedNone(lh);
  }

  /** Where the next block to be installed lies, and what is left after it. */
  lemma NextToInstall(lay: Layout, img: Image, lh: seq<Word>, tail: nat, pinned: set<nat>, users: set<nat>)
    requires HeadOk(lay, img) && tail < |lh| == HeadN(lay, img) && ToInstall(pinned, users, lh, tail)
    requires forall k: nat | k < |lh| :: HeadBlock(lay, img, k) == lh[k]
    ensures Touches(lay, lh, lh[tail]) && Touches(lay, lh, lay.start + tail + 1)
    ensures lay.start + tail + 1 !in pinned && (lh[tail] in pinned || (pinned == {} && users == {}))
    ensures lay.start + tail + 1 < |img| && lh[tail] < |img| && lh[tail] != lay.start + tail + 1
    ensures ToInstall(pinned - {lh[tail]}, users, lh, tail + 1) && |pinned - {lh[tail]}| <= |pinned|
  {
    hide WordAt, HeadN, HeadBlock;
    LogBlockNotPinned(lay, img, lh, tail);
    SubsetCount(pinned - {lh[tail]}, pinned);
    assert {} - {lh[tail]} == {};
  }

  lemma LogBlockNotPinned(lay: Layout, img: Image, lh: seq<Word>, tail: nat)
    requires HeadOk(lay, img) && tail < |lh| == HeadN(lay, img)
    requires forall k: nat | k < |lh| :: HeadBlock(lay, img, k) == lh[k]
    ensures Touches(lay, lh, lh[tail]) && Touches(lay, lh, lay.start + tail + 1)
    ensures lh[tail] in BlocksOf(lh[tail..]) && lay.start + tail + 1 !in BlocksOf(lh[tail..])
    ensures lay.start + tail + 1 < |img| && lh[tail] < |img| && lh[tail] != lay.start + tail + 1
    ensures NoRepeat(lh[tail..]) ==>
              NoRepeat(lh[tail + 1..]) && BlocksOf(lh[tail..]) - {lh[tail]} == BlocksOf(lh[tail + 1..])
  {
    hide WordAt, HeadN, HeadBlock;
    var s, t := lh[tail..], lh[tail + 1..];
    assert s[0] == lh[tail];
    assert forall k: nat | k < |s| :: s[k] == lh[tail + k] && IsHome(lay, img, HeadBlock(lay, img, tail + k));
    assert forall k: nat | k < |t| :: t[k] == s[k + 1];
    assert forall k: nat | 0 < k < |s| :: s[k] == t[k - 1];
  }

  lemma InstallNone(lay: Layout, img: Image)
    requires HeadOk(lay, img)
    ensures Installed(lay, img, 0) == img
  {
  }

  lemma InstallOne(lay: Layout, img: Image, lh: seq<Word>, tail: nat)
    requires HeadOk(lay, img) && tail < |lh| == HeadN(lay, img) && HeadBlock(lay, img, tail) == lh[tail]
    requires lh[tail] < |img| && lay.start + tail + 1 < |img|
    ensures Installed(lay, img, tail + 1) ==
            Installed(lay, img, tail)[lh[tail] := Installed(lay, img, tail)[lay.start + tail + 1]]
  {
    hide WordAt;
    assert InLog(lay, lay.start + tail + 1);
  }

  lemma LogOne(lay: Layout, img: Image, txn: seq<Update>, tail: nat)
    requires Fits(lay, img) && tail < |txn| < lay.size
    ensures Logged(lay, img, txn, tail + 1) == Logged(lay, img, txn, tail)[lay.start + tail + 1 := txn[tail].data]
  {
  }

  lemma BlocksOfCount(lh: seq<Word>)
    requires NoRepeat(lh)
    ensures |BlocksOf(lh)| == |lh|
  {
    ElementsCount<nat>(lh);
  }

  lemma LogBlockFresh(lay: Layout, img: Image, lh: seq<Word>, tail: nat)
    requires Fits(lay, img) && tail < |lh| < lay.size
    requires forall k: nat | k < |lh| :: IsHome(lay, img, lh[k])
    ensures lay.start + tail + 1 < |img| && lay.start + tail + 1 !in BlocksOf(lh) && lh[tail] in BlocksOf(lh)
  {
  }

  lemma HeaderNotPinned(lay: Layout, img: Image, lh: seq<Word>)
    requires Fits(lay, img) && forall k: nat | k < |lh| :: IsHome(lay, img, lh[k])
    ensures lay.start !in BlocksOf(lh)
  {
  }

  lemma {:induction false} ApplyLatest(img: Image, flat: Image, lh: seq<Word>, n: nat, b: nat)
    requires |img| == |flat| && n <= |lh| && b < |img| && forall k: nat | k < |lh| :: lh[k] < |flat|
    ensures Apply(img, Txn(lh, flat)[..n])[b] == if exists k: nat :: k < n && lh[k] == b then flat[b] else img[b]
  {
    var txn := Txn(lh, flat);
    if n > 0 {
      ApplyLatest(img, flat, lh, n - 1, b);
      assert txn[..n][..n - 1] == txn[..n - 1];
      assert (exists k: nat :: k < n && lh[k] == b) <==> lh[n - 1] == b || exists k: nat :: k < n - 1 && lh[k] == b;
    }
  }

  /** Applying the transaction to the disk gives the latest contents of every home block. */
  lemma LatestContents(lay: Layout, bufs: seq<Buf>, disk: Image, flat: Image, lh: seq<Word>)
    requires Sound(bufs, disk, flat, BlocksOf(lh)) && Synced(bufs, disk) && |flat| == |disk|
    requires forall k: nat | k < |lh| :: lh[k] < |flat|
    ensures Apply(disk, Txn(lh, flat)) == flat
  {
    var txn := Txn(lh, flat);
    assert txn[..|lh|] == txn;
    forall b: nat | b < |flat| ensures Apply(disk, txn)[b] == flat[b] {
      ApplyLatest(disk, flat, lh, |lh|, b);
      if b !in BlocksOf(lh) {
        SyncedIsClean(bufs, disk, flat, BlocksOf(lh), b);
      } else {
        var k: nat :| k < |lh| && lh[k] == b;
      }
    }
  }

  lemma {:induction false} SumBound(s: seq<nat>, m: nat)
    requires forall k: nat | k < |s| :: s[k] <= m
    ensures Sum(s) <= |s| * m
  {
    if s != [] {
      SumBound(s[..|s| - 1], m);
    }
  }

  lemma {:induction false} SumUpdate(s: seq<nat>, i: nat, v: nat)
    requires i < |s|
    ensures Sum(s[i := v]) == Sum(s) - s[i] + v
  {
    var n := |s| - 1;
    if i == n {
      assert s[i := v][..n] == s[..n];
    } else {
      SumUpdate(s[..n], i, v);
      assert s[i := v][..n] == s[..n][i := v];
    }
  }

  lemma {:induction false} SumWithout(s: seq<nat>, i: nat)
    requires i < |s|
    ensures Sum(Remove(s, i)) == Sum(s) - s[i]
  {
    var n := |s| - 1;
    if i == n {
      assert Remove(s, i) == s[..n];
    } else {
      SumWithout(s[..n], i);
      assert Remove(s, i)[..n - 1] == Remove(s[..n], i);
    }
  }

  lemma OneMoreBlock(lh: seq<Word>, b: Word)
    requires NoRepeat(lh) && b !in lh
    ensures NoRepeat(lh + [b]) && BlocksOf(lh + [b]) == BlocksOf(lh) + {b}
  {
  }

  lemma PinnedNone(lh: seq<Word>)
    ensures BlocksOf(lh[|lh|..]) == {}
  {
  }

  lemma InRange(bufs: seq<Buf>, disk: Image, flat: Image, pinned: set<nat>, i: nat)
    requires Sound(bufs, disk, flat, pinned) && i < NBUF && bufs[i].valid
    ensures bufs[i].blockno < |disk|
  {
  }

  /** What the first read of a log copy relies on. */
  lemma RoomForLogBlock(bufs: seq<Buf>, disk: Image, flat: Image, pinned: set<nat>, lay: Layout, lh: seq<Word>,
                        users: set<nat>, lb: nat, hb: nat)
    requires Sound(bufs, disk, flat, pinned) && Aside(bufs, disk, lay, lh, users) && Touches(lay, lh, lb)
    requires lb !in pinned && hb in pinned
    ensures hb < |flat| == |disk|
    ensures forall i: nat | i < NBUF && Holds(bufs[i], DISKDEV, lb) :: Idle(bufs[i]) && i !in users
    ensures forall i: nat | i < NBUF && !Busy(bufs[i]) :: i !in users
    ensures |pinned| + |users| < NBUF ==> exists i: nat :: i < NBUF && !Busy(bufs[i])
    ensures |pinned| + |users| >= NBUF ==> forall i: nat | i < NBUF :: Busy(bufs[i]) && !Holds(bufs[i], DISKDEV, lb)
  {
    hide Touches, Synced;
    var j := Owner(bufs, pinned, hb);
    assert bufs[j].valid;
    if |pinned| + |users| < NBUF {
      RoomLeft(bufs, disk, flat, pinned, users);
    } else {
      NoRoomLeft(bufs, disk, flat, pinned, users);
    }
  }

  /** A buffer that nobody uses and that need not be written. */
  predicate Idle(b: Buf) {
    b.refcnt == 0 && !b.locked && !b.dirty
  }

  /** A block of the log that is not pinned can be read, and the disk has it. */
  lemma RoomToRead(bufs: seq<Buf>, disk: Image, flat: Image, pinned: set<nat>, lay: Layout, lh: seq<Word>,
                   users: set<nat>, b: nat)
    requires Sound(bufs, disk, flat, pinned) && Aside(bufs, disk, lay, lh, users) && Touches(lay, lh, b)
    requires b < |disk| && b !in pinned && |pinned| + |users| < NBUF
    ensures forall i: nat | i < NBUF && Holds(bufs[i], DISKDEV, b) :: Idle(bufs[i]) && i !in users
    ensures forall i: nat | i < NBUF && !Busy(bufs[i]) :: i !in users
    ensures exists i: nat :: i < NBUF && !Busy(bufs[i])
    ensures |bufs| == NBUF && |flat| == |disk| && flat[b] == disk[b]
  {
    hide Touches;
    RoomLeft(bufs, disk, flat, pinned, users);
    SyncedIsClean(bufs, disk, flat, pinned, b);
  }

  /** With one buffer held, a second block can be read if it is pinned, or if nothing else goes on. */
  lemma SecondRead(bufs: seq<Buf>, disk: Image, flat: Image, pinned: set<nat>, lay: Layout, lh: seq<Word>,
                   users: set<nat>, h: nat, bufs': seq<Buf>, b: nat)
    requires Sound(bufs, disk, flat, pinned) && Aside(bufs, disk, lay, lh, users) && Touches(lay, lh, b) && b < |disk|
    requires h < NBUF == |bufs'| && h !in users && bufs' == bufs[h := bufs'[h]] && Sound(bufs', disk, flat, pinned)
    requires bufs'[h].refcnt > 0 && !Holds(bufs'[h], DISKDEV, b)
    requires b in pinned || (pinned == {} && users == {})
    ensures forall i: nat | i < NBUF && Holds(bufs'[i], DISKDEV, b) ::
              !bufs'[i].locked && bufs'[i].refcnt == 0 && i !in users && (b in pinned ==> bufs'[i].dirty)
    ensures forall i: nat | i < NBUF && !Busy(bufs'[i]) :: i !in users && i != h
    ensures exists i: nat :: i < NBUF && (!Busy(bufs'[i]) || Holds(bufs'[i], DISKDEV, b))
    ensures b in pinned ==> exists i: nat :: i < NBUF && Holds(bufs'[i], DISKDEV, b)
  {
    hide Touches, Synced;
    if b in pinned {
      var i := Owner(bufs', pinned, b);
      assert Holds(bufs'[i], DISKDEV, b);
    } else {
      RoomLeft(bufs', disk, flat, pinned, {h});
    }
  }

  /** While nobody uses the cache no buffer is locked, and one is free unless all are pinned. */
  lemma RoomToWrite(bufs: seq<Buf>, disk: Image, flat: Image, pinned: set<nat>)
    requires Sound(bufs, disk, flat, pinned) && Quiet(bufs)
    ensures |flat| == |disk| && |bufs| == NBUF && forall i: nat | i < NBUF :: !bufs[i].locked
    ensures |pinned| < NBUF ==> exists i: nat :: i < NBUF && !Busy(bufs[i])
  {
    if |pinned| < NBUF {
      RoomLeft(bufs, disk, flat, pinned, {});
    }
  }

  /** log_write of a block while nobody else uses the cache. */
  method LogBlockAlone(log: Log, b: Word, data: Block, ghost op: nat) returns (ok: bool)
    requires log.Valid() && Quiet(log.cache.bufs) && IsHome(log.lay, log.cache.memdisk, b)
    requires op < |log.left| && (b !in log.lh ==> log.left[op] > 0)
    modifies log.cache, log`lh, log`left
    ensures log.cache.memdisk == old(log.cache.memdisk) && log.cache.trace == old(log.cache.trace)
    ensures ok <==> |old(log.lh)| < LOGSIZE && |old(log.lh)| < log.lay.size - 1
    ensures ok ==> && log.Valid() && Quiet(log.cache.bufs)
                   && b < |old(log.cache.flat)| && log.cache.flat == old(log.cache.flat)[b := data]
                   && log.lh == (if b in old(log.lh) then old(log.lh) else old(log.lh) + [b])
                   && |log.left| == |old(log.left)|
                   && log.left == if b in old(log.lh) then old(log.left) else old(log.left)[op := old(log.left)[op] - 1]
  {
    hide Linked, Sound, WordAt, HeadN, HeadBlock, BlocksOf, Sum;
    BlocksOfCount(log.lh);
    RoomToWrite(log.cache.bufs, log.cache.memdisk, log.cache.flat, log.cache.pinned);
    ok := log.LogBlock(b, data, op);
  }

  lemma FlatIsDisk(bufs: seq<Buf>, disk: Image, flat: Image)
    requires Sound(bufs, disk, flat, {}) && Synced(bufs, disk)
    ensures flat == disk
  {
    hide Synced;
    forall b: nat | b < |flat| ensures flat[b] == disk[b] {
      SyncedIsClean(bufs, disk, flat, {}, b);
    }
  }

  /** Every disk that a crash during commit can leave behind: recovery makes of it the disk before
      the commit, up to the last log block, and the latest contents of every block from the header
      write on. */
  lemma CrashDuringCommit(lay: Layout, bufs: seq<Buf>, disk: Image, flat: Image, lh: seq<Word>, k: nat)
    requires Sound(bufs, disk, flat, BlocksOf(lh)) && Synced(bufs, disk) && |flat| == |disk|
    requires HeadOk(lay, disk) && HeadN(lay, disk) == 0 && TxnOk(lay, disk, Txn(lh, flat))
    requires k < |CommitTrace(lay, disk, Txn(lh, flat))|
    ensures var left := CommitTrace(lay, disk, Txn(lh, flat))[k];
            HeadOk(lay, left) && SameHome(lay, Recovered(lay, left), if k < |lh| then disk else flat)
  {
    hide Sound, Synced, WordAt, HeadBlock, HeadN, CommitImage, Apply, Recovered, BlocksOf, PutHead;
    assert forall j: nat | j < |lh| :: Txn(lh, flat)[j].blockno == lh[j];
    LatestContents(lay, bufs, disk, flat, lh);
    CommitAtomic(lay, disk, Txn(lh, flat), k + 1);
  }

  // ----- a commit that runs out of buffers -----

  /** An operation writes n blocks that are not logged yet. */
  method LogRange(log: Log, op: nat, from: nat, n: nat)
    requires log.Valid() && Quiet(log.cache.bufs) && op < |log.left| && n <= log.left[op]
    requires |log.lh| + n <= LOGSIZE && |log.lh| + n < log.lay.size
    requires log.lay.start + log.lay.size <= from && from + n <= |log.cache.memdisk| <= 0x1_0000_0000
    requires forall b | b in log.lh :: b < from
    modifies log.cache, log`lh, log`left
    ensures log.Valid() && Quiet(log.cache.bufs) && log.cache.memdisk == old(log.cache.memdisk)
    ensures |log.lh| == |old(log.lh)| + n && log.left == old(log.left)[op := old(log.left)[op] - n]
    ensures forall b | b in log.lh :: b < from + n
  {
    hide Linked, Sound, WordAt, HeadN, HeadBlock, BlocksOf, QuietBut, HeadOk, Sum;
    for i := 0 to n
      invariant log.Valid() && Quiet(log.cache.bufs) && log.cache.memdisk == old(log.cache.memdisk)
      invariant |log.lh| == |old(log.lh)| + i && log.left == old(log.left)[op := old(log.left)[op] - i]
      invariant forall b | b in log.lh :: b < from + i
    {
      var ok := LogBlockAlone(log, from + i, ZERO, op);
    }
  }

  /** Three operations use all they have reserved in a log that is large enough for it, one block larger than
      the one mkfs makes: every buffer is then pinned, and the commit panics. */
  method CommitStarves(lay: Layout, disk: Image) returns (log: Log, ok: bool)
    requires HeadOk(lay, disk) && lay.size > LOGSIZE && lay.start + lay.size + LOGSIZE <= |disk| <= 0x1_0000_0000
    ensures !ok && |log.lh| == NBUF && log.cache.memdisk == Recovered(lay, disk)
  {
    hide Linked, Sound, WordAt, HeadN, HeadBlock, BlocksOf, QuietBut, HeadOk, Sum, Recovered;
    var cache := new BufferCache(disk);
    log := new Log(cache, lay);
    ThreeOps(log);
    FillLog(log, lay.start + lay.size);
    ok := EndThree(log);
  }

  method ThreeOps(log: Log)
    requires log.Valid() && log.lh == [] && log.left == [] && !log.committing
    modifies log`outstanding, log`left
    ensures log.Valid() && log.left == [MAXOPBLOCKS, MAXOPBLOCKS, MAXOPBLOCKS]
  {
    hide Linked, Sound, WordAt, HeadN, HeadBlock, BlocksOf, HeadOk, Sum;
    var admitted := log.BeginOp();
    admitted := log.BeginOp();
    admitted := log.BeginOp();
  }

  method FillLog(log: Log, from: nat)
    requires log.Valid() && Quiet(log.cache.bufs) && log.lh == [] && log.lay.size > LOGSIZE
    requires log.left == [MAXOPBLOCKS, MAXOPBLOCKS, MAXOPBLOCKS]
    requires log.lay.start + log.lay.size <= from && from + LOGSIZE <= |log.cache.memdisk| <= 0x1_0000_0000
    modifies log.cache, log`lh, log`left
    ensures log.Valid() && Quiet(log.cache.bufs) && log.cache.memdisk == old(log.cache.memdisk)
    ensures |log.lh| == LOGSIZE && |log.left| == 3
  {
    hide Linked, Sound, WordAt, HeadN, HeadBlock, BlocksOf, QuietBut, HeadOk, Sum;
    LogRange(log, 0, from, MAXOPBLOCKS);
    LogRange(log, 1, from + MAXOPBLOCKS, MAXOPBLOCKS);
    LogRange(log, 2, from + 2 * MAXOPBLOCKS, MAXOPBLOCKS);
  }

  method EndThree(log: Log) returns (ok: bool)
    requires log.Valid() && Quiet(log.cache.bufs) && |log.lh| == NBUF && |log.left| == 3
    modifies log, log.cache
    ensures !ok && log.lh == old(log.lh) && log.cache.memdisk == old(log.cache.memdisk)
  {
    hide Linked, Sound, WordAt, HeadN, HeadBlock, BlocksOf, QuietBut, HeadOk, Sum;
    var last := log.EndOp(2);
    last := log.EndOp(1);
    last := log.EndOp(0);
    QuietAside(log.cache.bufs, log.cache.memdisk, log.cache.flat, log.cache.pinned, log.lay, log.lh);
    ok := log.Commit({});
  }

  /** With a log of at most LOGSIZE blocks, header included, as mkfs makes it, that cannot happen. */
  lemma CommitHasBuffers(log: Log)
    requires log.Valid() && log.lay.size <= LOGSIZE
    ensures |log.lh| < NBUF
  {
  }

  // ----- admission: can log_write panic? -----

  /** The log as admission sees it: how many blocks are logged, how many more each running operation
      may log, and whether a commit is running. */
  datatype Admission = Admission(n: nat, left: seq<nat>, committing: bool)

  const STARTED := Admission(0, [], false)

  /** begin_op reserves MAXOPBLOCKS; budget is how many blocks operations really log at most. */
  ghost predicate Begins(budget: nat, a: Admission, b: Admission) {
    && !a.committing && a.n + (|a.left| + 1) * MAXOPBLOCKS <= LOGSIZE
    && b == a.(left := a.left + [budget])
  }

  /** log_write's "too big a transaction". */
  ghost predicate Refused(size: nat, a: Admission) {
    a.n >= LOGSIZE || a.n >= size - 1
  }

  /** Operation op may call log_write: it has blocks left, or writes one that is logged already. */
  ghost predicate MayWrite(a: Admission, op: nat) {
    op < |a.left| && (a.left[op] > 0 || a.n > 0)
  }

  /** log_write of a block that is new to the log; of one that is not, nothing changes. */
  ghost predicate LogsOne(size: nat, a: Admission, op: nat, b: Admission) {
    && op < |a.left| && a.left[op] > 0 && !Refused(size, a)
    && b == a.(n := a.n + 1, left := a.left[op := a.left[op] - 1])
  }

  /** end_op; the last one out commits. */
  ghost predicate Ends(a: Admission, op: nat, b: Admission) {
    op < |a.left| && b == a.(left := Remove(a.left, op), committing := |a.left| == 1)
  }

  ghost predicate Commits(a: Admission, b: Admission) {
    a.committing && b == STARTED
  }

  ghost predicate Admits(budget: nat, size: nat, a: Admission, b: Admission) {
    || Begins(budget, a, b) || Commits(a, b)
    || (exists op: nat :: LogsOne(size, a, op, b)) || (exists op: nat :: Ends(a, op, b))
  }

  ghost predicate AdmissionReaches(budget: nat, size: nat, steps: nat, a: Admission) {
    if steps == 0 then a == STARTED
    else exists p: Admission :: AdmissionReaches(budget, size, steps - 1, p) && Admits(budget, size, p, a)
  }

  ghost predicate Admissible(budget: nat, size: nat, a: Admission) {
    exists steps: nat :: AdmissionReaches(budget, size, steps, a)
  }

  /** The most blocks that operations of the given budget can get into the log: an old operation that has
      logged nothing keeps it open while others fill it up to LOGSIZE - 2 * MAXOPBLOCKS; then a last
      one gets in, and both use their budget. */
  function MostLogged(budget: nat): nat {
    LOGSIZE - 2 * MAXOPBLOCKS + 2 * budget
  }

  /** What is logged and what may still be logged stays within that, and within LOGSIZE. */
  ghost predicate Reserved(budget: nat, a: Admission) {
    && a.n + Sum(a.left) <= MostLogged(budget)
    && (forall k: nat | k < |a.left| :: a.left[k] <= budget)
    && (a.committing ==> a.left == []) && (a.left == [] && !a.committing ==> a.n == 0)
  }

  lemma ReservedStep(budget: nat, size: nat, a: Admission, b: Admission)
    requires budget <= MAXOPBLOCKS && Reserved(budget, a) && Admits(budget, size, a, b)
    ensures Reserved(budget, b)
  {
    hide Reserved, Sum;
    if Begins(budget, a, b) {
      ReservedBegin(budget, a, b);
    } else if op: nat :| LogsOne(size, a, op, b) {
      ReservedLog(budget, size, a, op, b);
    } else if op: nat :| Ends(a, op, b) {
      ReservedEnd(budget, a, op, b);
    } else {
      ReservedNone(budget);
    }
  }

  lemma ReservedNone(budget: nat)
    ensures Reserved(budget, STARTED)
  {
  }

  lemma ReservedBegin(budget: nat, a: Admission, b: Admission)
    requires budget <= MAXOPBLOCKS && Reserved(budget, a) && Begins(budget, a, b)
    ensures Reserved(budget, b)
  {
    SumBound(a.left, budget);
    assert b.left[..|a.left|] == a.left;
    ThreeAtMost(budget, |a.left|, a.n);
  }

  lemma ReservedLog(budget: nat, size: nat, a: Admission, op: nat, b: Admission)
    requires Reserved(budget, a) && LogsOne(size, a, op, b)
    ensures Reserved(budget, b)
  {
    SumUpdate(a.left, op, a.left[op] - 1);
  }

  lemma ReservedEnd(budget: nat, a: Admission, op: nat, b: Admission)
    requires Reserved(budget, a) && Ends(a, op, b)
    ensures Reserved(budget, b)
  {
    hide Sum;
    SumWithout(a.left, op);
  }

  lemma ThreeAtMost(budget: nat, running: nat, n: nat)
    requires budget <= MAXOPBLOCKS && n + (running + 1) * MAXOPBLOCKS <= LOGSIZE && (running == 0 ==> n == 0)
    ensures n + running * budget + budget <= MostLogged(budget)
  {
  }

  lemma {:induction false} ReservationsHold(budget: nat, size: nat, steps: nat, a: Admission)
    requires budget <= MAXOPBLOCKS && AdmissionReaches(budget, size, steps, a)
    ensures Reserved(budget, a)
  {
    if steps > 0 {
      var p: Admission :| AdmissionReaches(budget, size, steps - 1, p) && Admits(budget, size, p, a);
      ReservationsHold(budget, size, steps - 1, p);
      ReservedStep(budget, size, p, a);
    }
  }

  lemma AdmitsMore(budget: nat, size: nat, a: Admission, b: Admission)
    requires Admissible(budget, size, a) && Admits(budget, size, a, b)
    ensures Admissible(budget, size, b)
  {
    var steps: nat :| AdmissionReaches(budget, size, steps, a);
    assert AdmissionReaches(budget, size, steps + 1, b);
  }

  lemma {:induction false} Appends(budget: nat, size: nat, a: Admission, op: nat, k: nat)
    requires Admissible(budget, size, a) && op < |a.left| && k <= a.left[op]
    requires a.n + k <= LOGSIZE && a.n + k < size
    ensures Admissible(budget, size, a.(n := a.n + k, left := a.left[op := a.left[op] - k]))
  {
    hide AdmissionReaches;
    if k == 0 {
      assert a.left[op := a.left[op]] == a.left;
    } else {
      Appends(budget, size, a, op, k - 1);
      var p := a.(n := a.n + k - 1, left := a.left[op := a.left[op] - (k - 1)]);
      var b := a.(n := a.n + k, left := a.left[op := a.left[op] - k]);
      assert b == p.(n := p.n + 1, left := p.left[op := p.left[op] - 1]);
      assert LogsOne(size, p, op, b);
      AdmitsMore(budget, size, p, b);
    }
  }

  /** One operation waits while others, one after the other, log a block each. */
  lemma {:induction false} OneByOne(budget: nat, size: nat, k: nat)
    requires 0 < budget <= MAXOPBLOCKS && k <= MAXOPBLOCKS && k < size
    ensures Admissible(budget, size, Admission(k, [budget], false))
  {
    hide AdmissionReaches, Admissible;
    if k == 0 {
      Nothing(budget, size);
      assert [] + [budget] == [budget];
      AdmitsMore(budget, size, STARTED, Admission(0, [budget], false));
    } else {
      OneByOne(budget, size, k - 1);
      var a := Admission(k - 1, [budget], false);
      var b := Admission(k - 1, [budget, budget], false);
      assert [budget] + [budget] == [budget, budget];
      AdmitsMore(budget, size, a, b);
      Appends(budget, size, b, 1, 1);
      var c := Admission(k, [budget, budget - 1], false);
      assert [budget, budget][1 := budget - 1] == [budget, budget - 1];
      assert Remove([budget, budget - 1], 1) == [budget];
      assert Ends(c, 1, Admission(k, [budget], false));
      AdmitsMore(budget, size, c, Admission(k, [budget], false));
    }
  }

  lemma Nothing(budget: nat, size: nat)
    ensures Admissible(budget, size, STARTED)
  {
    assert AdmissionReaches(budget, size, 0, STARTED);
  }

  /** With an operation running, the log can hold any number of blocks up to MostLogged. */
  lemma FillsUp(budget: nat, size: nat, n: nat) returns (a: Admission)
    requires 0 < budget <= MAXOPBLOCKS && n <= MostLogged(budget) && n < size
    ensures Admissible(budget, size, a) && a.n == n && |a.left| > 0 && MayWrite(a, 0)
    ensures n < MostLogged(budget) ==> a.left[0] > 0
  {
    hide AdmissionReaches, Admissible;
    if n <= MAXOPBLOCKS {
      OneByOne(budget, size, n);
      a := Admission(n, [budget], false);
    } else {
      OneByOne(budget, size, MAXOPBLOCKS);
      var b, c := Admission(MAXOPBLOCKS, [budget], false), Admission(MAXOPBLOCKS, [budget, budget], false);
      assert [budget] + [budget] == [budget, budget];
      AdmitsMore(budget, size, b, c);
      var k1 := if n - MAXOPBLOCKS <= budget then n - MAXOPBLOCKS else budget;
      Appends(budget, size, c, 1, k1);
      var e := c.(n := MAXOPBLOCKS + k1, left := c.left[1 := budget - k1]);
      Appends(budget, size, e, 0, n - e.n);
      a := e.(n := n, left := e.left[0 := budget - (n - e.n)]);
    }
  }

  lemma {:induction false} SumAtLeast(s: seq<nat>, i: nat)
    requires i < |s|
    ensures Sum(s) >= s[i]
  {
    if i < |s| - 1 {
      SumAtLeast(s[..|s| - 1], i);
    }
  }

  /** With operations that use all they have reserved, log_write takes every new block, in every run,
      exactly when the log region has a block to spare beyond LOGSIZE. */
  lemma ReservedBlocksFit(size: nat)
    ensures (forall a: Admission, op: nat | Admissible(MAXOPBLOCKS, size, a) && op < |a.left| && a.left[op] > 0 ::
              !Refused(size, a))
            <==> size > LOGSIZE
  {
    hide AdmissionReaches;
    if size > LOGSIZE {
      forall a: Admission, op: nat | Admissible(MAXOPBLOCKS, size, a) && op < |a.left| && a.left[op] > 0
        ensures !Refused(size, a)
      {
        var steps: nat :| AdmissionReaches(MAXOPBLOCKS, size, steps, a);
        ReservationsHold(MAXOPBLOCKS, size, steps, a);
        SumAtLeast(a.left, op);
      }
    } else {
      var a := ReservedBlockRefused(size);
    }
  }

  /** In a log of at most LOGSIZE blocks, header included (mkfs makes one of exactly LOGSIZE), operations
      can fill it while one of them still has a block reserved. */
  lemma ReservedBlockRefused(size: nat) returns (a: Admission)
    requires size <= LOGSIZE
    ensures Admissible(MAXOPBLOCKS, size, a) && |a.left| > 0 && a.left[0] > 0 && Refused(size, a)
  {
    hide AdmissionReaches, Admissible;
    if size == 0 {
      Nothing(MAXOPBLOCKS, size);
      a := Admission(0, [MAXOPBLOCKS], false);
      assert [] + [MAXOPBLOCKS] == [MAXOPBLOCKS];
      AdmitsMore(MAXOPBLOCKS, size, STARTED, a);
    } else {
      a := FillsUp(MAXOPBLOCKS, size, size - 1);
    }
  }

  /** No log_write panics, not even of a block that is logged already, in any run of operations that log
      at most budget blocks each, exactly when the most they can get into the log is less than LOGSIZE
      and less than the log region has. For operations that use all of MAXOPBLOCKS no log is large
      enough; one block less, and the log mkfs makes suffices. */
  lemma NoWritePanics(budget: nat, size: nat)
    requires 0 < budget <= MAXOPBLOCKS
    ensures (forall a: Admission, op: nat | Admissible(budget, size, a) && MayWrite(a, op) :: !Refused(size, a))
            <==> MostLogged(budget) < LOGSIZE && MostLogged(budget) + 1 < size
    ensures !(MostLogged(MAXOPBLOCKS) < LOGSIZE) && MostLogged(MAXOPBLOCKS - 1) < LOGSIZE
    ensures MostLogged(MAXOPBLOCKS - 1) + 1 < LOGSIZE
  {
    hide AdmissionReaches;
    if MostLogged(budget) < LOGSIZE && MostLogged(budget) + 1 < size {
      forall a: Admission, op: nat | Admissible(budget, size, a) && MayWrite(a, op) ensures !Refused(size, a) {
        var steps: nat :| AdmissionReaches(budget, size, steps, a);
        ReservationsHold(budget, size, steps, a);
      }
    } else {
      var a := RefusedWrite(budget, size);
      assert MayWrite(a, 0);
    }
  }

  lemma RefusedWrite(budget: nat, size: nat) returns (a: Admission)
    requires 0 < budget <= MAXOPBLOCKS && (MostLogged(budget) >= LOGSIZE || MostLogged(budget) + 1 >= size)
    ensures Admissible(budget, size, a) && MayWrite(a, 0) && Refused(size, a)
  {
    hide AdmissionReaches, Admissible;
    if size == 0 {
      Nothing(budget, size);
      a := Admission(0, [budget], false);
      assert [] + [budget] == [budget];
      AdmitsMore(budget, size, STARTED, a);
    } else {
      a := FillsUp(budget, size, if size - 1 <= LOGSIZE then size - 1 else LOGSIZE);
    }
  }
}
