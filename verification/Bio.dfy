/** The buffer cache over the in-memory disk: a fixed pool of NBUF buffers on a doubly linked
    most-recently-used ring, proved to behave as one flat map from block number to contents. */
module Bio {
  import opened Blocks
  import opened Common
  import opened Counting

  const NBUF := 30
  const HEAD := 30       // the index that stands for bcache.head in next and prev
  const DISKDEV := 1     // the only device the disk driver accepts

  datatype Buf = Buf(valid: bool, dirty: bool, dev: nat, blockno: nat, locked: bool, refcnt: nat, data: Block)

  const EMPTY := Buf(false, false, 0, 0, false, 0, ZERO)

  predicate Holds(b: Buf, dev: nat, blockno: nat) {
    b.dev == dev && b.blockno == blockno
  }

  /** A buffer that may not be recycled. */
  predicate Busy(b: Buf) {
    b.refcnt > 0 || b.dirty
  }

  // ----- the ring -----

  /** Position k on the way round the ring from the head back to the head. */
  ghost function At(ring: seq<nat>, k: nat): (b: nat)
    requires k <= |ring| + 1
  {
    if k == 0 || k == |ring| + 1 then HEAD else ring[k - 1]
  }

  /** next and prev link exactly the buffers of ring, in that order, in both directions. */
  ghost predicate Linked(next: seq<nat>, prev: seq<nat>, ring: seq<nat>) {
    && |next| == |prev| == NBUF + 1
    && NoRepeat(ring)
    && (forall k: nat | k < |ring| :: ring[k] < NBUF)
    && (forall k: nat | k <= |ring| :: next[At(ring, k)] == At(ring, k + 1))
    && (forall k: nat | 1 <= k <= |ring| + 1 :: prev[At(ring, k)] == At(ring, k - 1))
  }

  /** Linking b in behind the head puts it in front of the ring. */
  lemma LinkedFront(next: seq<nat>, prev: seq<nat>, ring: seq<nat>, b: nat, next': seq<nat>, prev': seq<nat>)
    requires Linked(next, prev, ring) && b < NBUF && b !in ring && next[HEAD] <= NBUF
    requires next' == next[b := next[HEAD]][HEAD := b]
    requires prev' == prev[b := HEAD][next[HEAD] := b]
    ensures Linked(next', prev', [b] + ring)
  {
    var r := [b] + ring;
    assert next[At(ring, 0)] == At(ring, 1);
    forall k: nat | 1 <= k <= |ring| + 1 ensures At(r, k + 1) == At(ring, k) {}
    forall k: nat | k <= |r| ensures next'[At(r, k)] == At(r, k + 1) {
      if k > 1 { assert next[At(ring, k - 1)] == At(ring, k); }
    }
    forall k: nat | 1 <= k <= |r| + 1 ensures prev'[At(r, k)] == At(r, k - 1) {
      if k > 2 { assert prev[At(ring, k - 1)] == At(ring, k - 2); }
    }
  }

  /** Unlinking the k-th buffer of the ring leaves the others linked in order. */
  lemma LinkedUnlink(next: seq<nat>, prev: seq<nat>, ring: seq<nat>, k: nat, next': seq<nat>, prev': seq<nat>)
    requires Linked(next, prev, ring) && k < |ring|
    requires prev[ring[k]] <= NBUF && next[ring[k]] <= NBUF
    requires next' == next[prev[ring[k]] := next[ring[k]]]
    requires prev' == prev[next[ring[k]] := prev[ring[k]]]
    ensures Linked(next', prev', Remove(ring, k))
    ensures ring[k] !in Remove(ring, k)
  {
    var r := Remove(ring, k);
    assert At(ring, k + 1) == ring[k];
    assert prev[At(ring, k + 1)] == At(ring, k) && next[At(ring, k + 1)] == At(ring, k + 2);
    forall j: nat | j <= |r| + 1 ensures At(r, j) == At(ring, if j <= k then j else j + 1) {}
    forall j: nat | j <= |r| ensures next'[At(r, j)] == At(r, j + 1) {
      assert next[At(ring, if j <= k then j else j + 1)] == At(ring, if j <= k then j + 1 else j + 2);
    }
    forall j: nat | 1 <= j <= |r| + 1 ensures prev'[At(r, j)] == At(r, j - 1) {
      assert prev[At(ring, if j <= k then j else j + 1)] == At(ring, if j <= k then j - 1 else j);
    }
  }

  // ----- what the buffers stand for -----

  /** No two buffers hold the same block of a real device (all start as block 0 of device 0). */
  ghost predicate Unique(bufs: seq<Buf>) {
    forall i: nat, j: nat | i < j < |bufs| && bufs[i].dev != 0 :: !Holds(bufs[j], bufs[i].dev, bufs[i].blockno)
  }

  /** A buffer that keeps contents of block b the disk may not have yet. */
  predicate Keeps(buf: Buf, b: nat) {
    buf.valid && Holds(buf, DISKDEV, b) && (buf.dirty || buf.locked)
  }

  /** The buffers over the disk stand for the flat map: every valid buffer has the flat contents
      of its block, and where disk and flat map differ some buffer that cannot be recycled has the
      newer contents. */
  ghost predicate Refines(bufs: seq<Buf>, disk: Image, flat: Image) {
    && |flat| == |disk|
    && (forall i: nat | i < |bufs| && bufs[i].valid ::
          bufs[i].dev == DISKDEV && bufs[i].blockno < |flat| && bufs[i].data == flat[bufs[i].blockno])
    && (forall b: nat | b < |flat| && flat[b] != disk[b] :: exists i: nat :: i < |bufs| && Keeps(bufs[i], b))
  }

  /** pinned is the set of blocks whose buffer is dirty. */
  ghost predicate Pins(bufs: seq<Buf>, pinned: set<nat>) {
    && (forall i: nat | i < |bufs| && bufs[i].dirty :: bufs[i].valid && bufs[i].blockno in pinned)
    && (forall b | b in pinned :: exists i: nat :: i < |bufs| && bufs[i].dirty && Holds(bufs[i], DISKDEV, b))
  }

  ghost predicate LockedAreReferenced(bufs: seq<Buf>) {
    forall i: nat | i < |bufs| && bufs[i].locked :: bufs[i].refcnt > 0
  }

  ghost predicate Sound(bufs: seq<Buf>, disk: Image, flat: Image, pinned: set<nat>) {
    |bufs| == NBUF && Unique(bufs) && Refines(bufs, disk, flat) && Pins(bufs, pinned) && LockedAreReferenced(bufs)
  }

  /** Nobody is using a buffer other than those in users. */
  ghost predicate QuietBut(bufs: seq<Buf>, users: set<nat>) {
    forall i: nat | i < |bufs| && i !in users :: bufs[i].refcnt == 0
  }

  /** Nobody is using a buffer. */
  ghost predicate Quiet(bufs: seq<Buf>) {
    QuietBut(bufs, {})
  }

  /** Nobody has changed a block without logging it: a locked buffer that is not dirty has what the disk has. */
  ghost predicate Synced(bufs: seq<Buf>, disk: Image) {
    forall i: nat | i < |bufs| && bufs[i].valid && bufs[i].locked && !bufs[i].dirty && bufs[i].blockno < |disk| ::
      bufs[i].data == disk[bufs[i].blockno]
  }

  lemma QuietIsSynced(bufs: seq<Buf>, disk: Image)
    requires Quiet(bufs) && LockedAreReferenced(bufs)
    ensures Synced(bufs, disk)
  {
  }

  /** Replacing buffer i by x keeps the refinement if x is no less of a keeper than it was. */
  lemma UpdateRefines(bufs: seq<Buf>, disk: Image, flat: Image, i: nat, x: Buf)
    requires Refines(bufs, disk, flat) && i < |bufs|
    requires x.valid ==> x.dev == DISKDEV && x.blockno < |flat| && x.data == flat[x.blockno]
    requires forall b: nat | b < |flat| && Keeps(bufs[i], b) && flat[b] != disk[b] :: Keeps(x, b)
    ensures Refines(bufs[i := x], disk, flat)
  {
    var c := bufs[i := x];
    forall b: nat | b < |flat| && flat[b] != disk[b] ensures exists k: nat :: k < |c| && Keeps(c[k], b) {
      var k: nat :| k < |bufs| && Keeps(bufs[k], b);
      assert Keeps(c[k], b);
    }
  }

  lemma UpdatePins(bufs: seq<Buf>, pinned: set<nat>, i: nat, x: Buf)
    requires Pins(bufs, pinned) && i < |bufs|
    requires x.dirty ==> x.valid && x.blockno in pinned
    requires bufs[i].dirty ==> x.dirty && Holds(x, bufs[i].dev, bufs[i].blockno)
    ensures Pins(bufs[i := x], pinned)
  {
    var c := bufs[i := x];
    forall b | b in pinned ensures exists k: nat :: k < |c| && c[k].dirty && Holds(c[k], DISKDEV, b) {
      var k: nat :| k < |bufs| && bufs[k].dirty && Holds(bufs[k], DISKDEV, b);
      assert c[k].dirty && Holds(c[k], DISKDEV, b);
    }
  }

  /** Writing dirty buffer i to its block keeps the refinement, and unpins just that block. */
  lemma WrittenOut(bufs: seq<Buf>, disk: Image, flat: Image, pinned: set<nat>, i: nat)
    requires Unique(bufs) && Refines(bufs, disk, flat) && Pins(bufs, pinned)
    requires i < |bufs| && bufs[i].dirty
    ensures bufs[i].valid && bufs[i].blockno < |disk|
    ensures Refines(bufs[i := bufs[i].(dirty := false)], disk[bufs[i].blockno := bufs[i].data], flat)
    ensures Pins(bufs[i := bufs[i].(dirty := false)], pinned - {bufs[i].blockno})
  {
    hide Unique, Keeps;
    WrittenRefines(bufs, disk, flat, i);
    WrittenPins(bufs, pinned, i);
  }

  lemma WrittenRefines(bufs: seq<Buf>, disk: Image, flat: Image, i: nat)
    requires Refines(bufs, disk, flat) && i < |bufs| && bufs[i].valid && bufs[i].blockno < |disk|
    ensures Refines(bufs[i := bufs[i].(dirty := false)], disk[bufs[i].blockno := bufs[i].data], flat)
  {
    var c, d := bufs[i := bufs[i].(dirty := false)], disk[bufs[i].blockno := bufs[i].data];
    forall b: nat | b < |flat| && flat[b] != d[b] ensures exists k: nat :: k < |c| && Keeps(c[k], b) {
      var k: nat :| k < |bufs| && Keeps(bufs[k], b);
      assert Keeps(c[k], b);
    }
  }

  lemma WrittenPins(bufs: seq<Buf>, pinned: set<nat>, i: nat)
    requires Unique(bufs) && Pins(bufs, pinned) && i < |bufs| && bufs[i].dirty
    requires forall k: nat | k < |bufs| && bufs[k].valid :: bufs[k].dev == DISKDEV
    ensures Pins(bufs[i := bufs[i].(dirty := false)], pinned - {bufs[i].blockno})
  {
    var c, p := bufs[i := bufs[i].(dirty := false)], pinned - {bufs[i].blockno};
    forall k: nat | k < |c| && c[k].dirty ensures c[k].valid && c[k].blockno in p {
      assert bufs[k].dirty && k != i;
      assert if k < i then !Holds(bufs[i], bufs[k].dev, bufs[k].blockno)
             else !Holds(bufs[k], bufs[i].dev, bufs[i].blockno);
    }
    forall b | b in p ensures exists k: nat :: k < |c| && c[k].dirty && Holds(c[k], DISKDEV, b) {
      var k: nat :| k < |bufs| && bufs[k].dirty && Holds(bufs[k], DISKDEV, b);
      assert c[k].dirty && Holds(c[k], DISKDEV, b);
    }
  }

  /** The disk has the latest contents of a block whose only buffer is not valid. */
  lemma ReadIn(bufs: seq<Buf>, disk: Image, flat: Image, i: nat)
    requires Unique(bufs) && Refines(bufs, disk, flat)
    requires i < |bufs| && !bufs[i].valid && bufs[i].dev == DISKDEV && bufs[i].blockno < |disk|
    ensures flat[bufs[i].blockno] == disk[bufs[i].blockno]
  {
    var b := bufs[i].blockno;
    assert forall k: nat | k < |bufs| :: !Keeps(bufs[k], b);
  }

  lemma Stored(bufs: seq<Buf>, disk: Image, flat: Image, i: nat, data: Block)
    requires Unique(bufs) && Refines(bufs, disk, flat)
    requires i < |bufs| && bufs[i].locked && bufs[i].valid
    ensures Refines(bufs[i := bufs[i].(data := data)], disk, flat[bufs[i].blockno := data])
  {
    var c, f := bufs[i := bufs[i].(data := data)], flat[bufs[i].blockno := data];
    forall b: nat | b < |f| && f[b] != disk[b] ensures exists k: nat :: k < |c| && Keeps(c[k], b) {
      if b == bufs[i].blockno {
        assert Keeps(c[i], b);
      } else {
        var k: nat :| k < |bufs| && Keeps(bufs[k], b);
        assert Keeps(c[k], b);
      }
    }
  }

  lemma Pinned(bufs: seq<Buf>, pinned: set<nat>, i: nat)
    requires Pins(bufs, pinned) && i < |bufs| && bufs[i].valid && bufs[i].dev == DISKDEV
    ensures Pins(bufs[i := bufs[i].(dirty := true)], pinned + {bufs[i].blockno})
  {
    var c, p := bufs[i := bufs[i].(dirty := true)], pinned + {bufs[i].blockno};
    forall b | b in p ensures exists k: nat :: k < |c| && c[k].dirty && Holds(c[k], DISKDEV, b) {
      if b == bufs[i].blockno {
        assert c[i].dirty && Holds(c[i], DISKDEV, b);
      } else {
        var k: nat :| k < |bufs| && bufs[k].dirty && Holds(bufs[k], DISKDEV, b);
        assert c[k].dirty && Holds(c[k], DISKDEV, b);
      }
    }
  }

  /** A buffer that keeps its block and data, and is not let go while it is needed, can change
      its lock and its reference count. */
  lemma SoundUse(bufs: seq<Buf>, disk: Image, flat: Image, pinned: set<nat>, i: nat, locked: bool, refcnt: nat)
    requires Sound(bufs, disk, flat, pinned) && i < NBUF
    requires locked ==> refcnt > 0
    requires locked || !bufs[i].locked ||
             (bufs[i].valid && (bufs[i].dirty || bufs[i].data == disk[bufs[i].blockno]))
    ensures Sound(bufs[i := bufs[i].(locked := locked, refcnt := refcnt)], disk, flat, pinned)
  {
    var x := bufs[i].(locked := locked, refcnt := refcnt);
    UpdateRefines(bufs, disk, flat, i, x);
    UpdatePins(bufs, pinned, i, x);
  }

  /** Unlocking a buffer is sound exactly if the disk has its contents or will get them. */
  lemma Unlocked(bufs: seq<Buf>, disk: Image, flat: Image, pinned: set<nat>, i: nat)
    requires Sound(bufs, disk, flat, pinned) && i < NBUF && bufs[i].locked && bufs[i].valid
    ensures |bufs| == NBUF && bufs[i].blockno < |disk| == |flat| && bufs[i].refcnt > 0
    ensures Sound(bufs[i := bufs[i].(locked := false, refcnt := bufs[i].refcnt - 1)], disk, flat, pinned)
            <==> bufs[i].dirty || bufs[i].data == disk[bufs[i].blockno]
  {
    hide Sound;
    InCache(bufs, disk, flat, pinned, i);
    if bufs[i].dirty || bufs[i].data == disk[bufs[i].blockno] {
      SoundUse(bufs, disk, flat, pinned, i, false, bufs[i].refcnt - 1);
    } else {
      ChangeLost(bufs, disk, flat, pinned, i);
    }
  }

  lemma InCache(bufs: seq<Buf>, disk: Image, flat: Image, pinned: set<nat>, i: nat)
    requires Sound(bufs, disk, flat, pinned) && i < NBUF && bufs[i].locked && bufs[i].valid
    ensures |bufs| == NBUF && bufs[i].blockno < |disk| == |flat| && bufs[i].refcnt > 0
  {
  }

  lemma ChangeLost(bufs: seq<Buf>, disk: Image, flat: Image, pinned: set<nat>, i: nat)
    requires Sound(bufs, disk, flat, pinned) && i < |bufs| && bufs[i].locked && bufs[i].valid && bufs[i].refcnt > 0
    requires bufs[i].blockno < |disk| && !bufs[i].dirty && bufs[i].data != disk[bufs[i].blockno]
    ensures !Sound(bufs[i := bufs[i].(locked := false, refcnt := bufs[i].refcnt - 1)], disk, flat, pinned)
  {
    var c, b := bufs[i := bufs[i].(locked := false, refcnt := bufs[i].refcnt - 1)], bufs[i].blockno;
    forall k: nat | k < |c| ensures !Keeps(c[k], b) {
      assert k < i ==> bufs[k].dev == 0 || !Holds(bufs[i], bufs[k].dev, bufs[k].blockno);
      assert k > i ==> !Holds(bufs[k], bufs[i].dev, bufs[i].blockno);
    }
    assert flat[b] != disk[b];
  }

  lemma SoundRecycle(bufs: seq<Buf>, disk: Image, flat: Image, pinned: set<nat>, i: nat, dev: nat, blockno: nat)
    requires Sound(bufs, disk, flat, pinned) && i < NBUF && !Busy(bufs[i])
    requires forall j: nat | j < NBUF :: !Holds(bufs[j], dev, blockno)
    ensures Sound(bufs[i := Buf(false, false, dev, blockno, false, 1, bufs[i].data)], disk, flat, pinned)
  {
    var x := Buf(false, false, dev, blockno, false, 1, bufs[i].data);
    UpdateRefines(bufs, disk, flat, i, x);
    UpdatePins(bufs, pinned, i, x);
  }

  lemma SoundFilled(bufs: seq<Buf>, disk: Image, flat: Image, pinned: set<nat>, i: nat)
    requires Sound(bufs, disk, flat, pinned) && i < NBUF && !bufs[i].valid
    requires bufs[i].dev == DISKDEV && bufs[i].blockno < |disk|
    ensures !bufs[i].dirty && |flat| == |disk| && flat[bufs[i].blockno] == disk[bufs[i].blockno]
    ensures Sound(bufs[i := bufs[i].(valid := true, data := disk[bufs[i].blockno])], disk, flat, pinned)
  {
    ReadIn(bufs, disk, flat, i);
    var x := bufs[i].(valid := true, data := disk[bufs[i].blockno]);
    UpdateRefines(bufs, disk, flat, i, x);
    UpdatePins(bufs, pinned, i, x);
  }

  lemma SoundWritten(bufs: seq<Buf>, disk: Image, flat: Image, pinned: set<nat>, i: nat)
    requires Sound(bufs, disk, flat, pinned) && i < NBUF && bufs[i].dirty
    ensures bufs[i].valid && bufs[i].blockno < |disk| == |flat|
    ensures Sound(bufs[i := bufs[i].(dirty := false)], disk[bufs[i].blockno := bufs[i].data], flat,
              pinned - {bufs[i].blockno})
  {
    WrittenOut(bufs, disk, flat, pinned, i);
  }

  lemma SoundStored(bufs: seq<Buf>, disk: Image, flat: Image, pinned: set<nat>, i: nat, data: Block)
    requires Sound(bufs, disk, flat, pinned) && i < NBUF && bufs[i].locked && bufs[i].valid
    ensures bufs[i].blockno < |flat| == |disk|
    ensures Sound(bufs[i := bufs[i].(data := data)], disk, flat[bufs[i].blockno := data], pinned)
  {
    Stored(bufs, disk, flat, i, data);
    UpdatePins(bufs, pinned, i, bufs[i].(data := data));
  }

  lemma SoundPinned(bufs: seq<Buf>, disk: Image, flat: Image, pinned: set<nat>, i: nat)
    requires Sound(bufs, disk, flat, pinned) && i < NBUF && bufs[i].locked && bufs[i].valid
    ensures bufs[i].dev == DISKDEV && bufs[i].blockno < |flat| == |disk|
    ensures Sound(bufs[i := bufs[i].(dirty := true)], disk, flat, pinned + {bufs[i].blockno})
  {
    UpdateRefines(bufs, disk, flat, i, bufs[i].(dirty := true));
    Pinned(bufs, pinned, i);
  }

  // ----- how many buffers are busy -----

  ghost function DirtyIndices(bufs: seq<Buf>): set<nat> {
    set i: nat | i < |bufs| && bufs[i].dirty
  }

  ghost function Owner(bufs: seq<Buf>, pinned: set<nat>, b: nat): (i: nat)
    requires Pins(bufs, pinned) && b in pinned
    ensures i < |bufs| && bufs[i].dirty && bufs[i].blockno == b
  {
    var i: nat :| i < |bufs| && bufs[i].dirty && Holds(bufs[i], DISKDEV, b); i
  }

  /** There are as many dirty buffers as pinned blocks. */
  lemma DirtyCount(bufs: seq<Buf>, disk: Image, flat: Image, pinned: set<nat>)
    requires Sound(bufs, disk, flat, pinned)
    ensures |DirtyIndices(bufs)| == |pinned|
  {
    var dirty := DirtyIndices(bufs);
    InjectionCount(dirty, (i: nat) => if i < |bufs| then bufs[i].blockno else 0, pinned);
    InjectionCount(pinned, (b: nat) => if Pins(bufs, pinned) && b in pinned then Owner(bufs, pinned, b) else 0, dirty);
  }

  /** With nobody but the holders using buffers, and fewer pinned blocks and holders than buffers,
      some buffer can be recycled. */
  lemma RoomLeft(bufs: seq<Buf>, disk: Image, flat: Image, pinned: set<nat>, holders: set<nat>)
    requires Sound(bufs, disk, flat, pinned) && |pinned| + |holders| < NBUF
    requires QuietBut(bufs, holders)
    ensures exists i: nat :: i < NBUF && !Busy(bufs[i])
  {
    DirtyCount(bufs, disk, flat, pinned);
    Misses(DirtyIndices(bufs) + holders, NBUF);
  }

  lemma DirtyHolds(bufs: seq<Buf>, disk: Image, flat: Image, pinned: set<nat>, i: nat)
    requires Sound(bufs, disk, flat, pinned) && i < NBUF && bufs[i].dirty
    ensures bufs[i].blockno in pinned && bufs[i].dev == DISKDEV
  {
  }

  /** With every buffer dirty or in use there is none to recycle. */
  lemma NoRoomLeft(bufs: seq<Buf>, disk: Image, flat: Image, pinned: set<nat>, users: set<nat>)
    requires Sound(bufs, disk, flat, pinned) && |pinned| + |users| >= NBUF
    requires forall i | i in users :: i < NBUF && !bufs[i].dirty
    ensures |pinned| + |users| == NBUF
    ensures forall i: nat | i < NBUF ::
              i in users || (bufs[i].dirty && bufs[i].blockno in pinned && bufs[i].dev == DISKDEV)
  {
    hide Unique, Refines, LockedAreReferenced;
    DirtyCount(bufs, disk, flat, pinned);
    var busy := DirtyIndices(bufs) + users;
    AtLeastAll(busy, NBUF);
    forall i: nat | i < NBUF
      ensures i in users || (bufs[i].dirty && bufs[i].blockno in pinned && bufs[i].dev == DISKDEV)
    {
      assert i in busy;
      if i !in users {
        DirtyHolds(bufs, disk, flat, pinned, i);
      }
    }
  }

  /** When everybody logs what they change, the disk has the latest contents of every block not pinned. */
  lemma SyncedIsClean(bufs: seq<Buf>, disk: Image, flat: Image, pinned: set<nat>, b: nat)
    requires Sound(bufs, disk, flat, pinned) && Synced(bufs, disk) && b < |flat| && b !in pinned
    ensures |disk| == |flat| && flat[b] == disk[b]
  {
    assert forall i: nat | i < |bufs| && Keeps(bufs[i], b) :: flat[b] == bufs[i].data == disk[b];
  }

  class BufferCache {
    var bufs: seq<Buf>
    var next: seq<nat>
    var prev: seq<nat>
    var memdisk: Image

    ghost var ring: seq<nat>       // the buffers, most recently used first
    ghost var flat: Image          // the contents last stored for each block
    ghost var pinned: set<nat>     // the blocks with a dirty buffer
    ghost var trace: seq<Image>    // the disk after each block write so far

    ghost predicate Valid()
      reads this
    {
      && |bufs| == |ring| == NBUF && |flat| == |memdisk| && Linked(next, prev, ring)
      && Sound(bufs, memdisk, flat, pinned)
    }

    /** binit: every buffer empty and on the ring. */
    constructor (disk: Image)
      ensures Valid() && Quiet(bufs) && pinned == {} && trace == []
      ensures memdisk == flat == disk
      ensures forall i: nat | i < NBUF :: bufs[i] == EMPTY
    {
      bufs := seq(NBUF, i => EMPTY);
      next, prev := seq(NBUF + 1, i => HEAD), seq(NBUF + 1, i => HEAD);
      memdisk, flat := disk, disk;
      pinned, trace, ring := {}, [], [];
      new;
      var b := 0;
      while b < NBUF
        invariant b <= NBUF && |ring| == b && Linked(next, prev, ring)
        invariant forall k: nat | k < |ring| :: ring[k] < b
        invariant bufs == seq(NBUF, i => EMPTY) && memdisk == flat == disk && pinned == {} && trace == []
      {
        assert next[At(ring, 0)] == At(ring, 1);
        ghost var n0, p0 := next, prev;
        next := next[b := next[HEAD]];
        prev := prev[b := HEAD];
        prev := prev[next[HEAD] := b];
        next := next[HEAD := b];
        LinkedFront(n0, p0, ring, b, next, prev);
        ring := [b] + ring;
        b := b + 1;
      }
    }

    /** The first loop of bget: forward from the head, looking for the block. */
    method FindCached(dev: nat, blockno: nat) returns (r: Option<nat>)
      requires Valid()
      ensures r.Some? ==> r.value < NBUF && r.value in ring && Holds(bufs[r.value], dev, blockno)
      ensures r.None? ==> forall i: nat | i < NBUF :: !Holds(bufs[i], dev, blockno)
    {
      var b, k := next[HEAD], 1;
      assert next[At(ring, 0)] == At(ring, 1);
      while b != HEAD
        invariant 1 <= k <= NBUF + 1 && b == At(ring, k)
        invariant forall m: nat | m < k - 1 :: !Holds(bufs[ring[m]], dev, blockno)
        decreases NBUF + 1 - k
      {
        if bufs[b].dev == dev && bufs[b].blockno == blockno {
          return Some(b);
        }
        assert next[At(ring, k)] == At(ring, k + 1);
        b, k := next[b], k + 1;
      }
      forall i: nat | i < NBUF ensures !Holds(bufs[i], dev, blockno) {
        CoversAll(ring, NBUF, i);
        assert ring[IndexOf(ring, i)] == i;
      }
      return None;
    }

    /** The second loop of bget: backward from the head, looking for the least recently used
        buffer that may be recycled. */
    method FindVictim() returns (r: Option<nat>)
      requires Valid()
      ensures r.Some? ==> && r.value < NBUF && r.value in ring && !Busy(bufs[r.value])
                          && (forall k: nat | IndexOf(ring, r.value) < k < NBUF :: Busy(bufs[ring[k]]))
      ensures r.None? ==> forall i: nat | i < NBUF :: Busy(bufs[i])
    {
      var b, k := prev[HEAD], NBUF;
      assert prev[At(ring, NBUF + 1)] == At(ring, NBUF);
      while b != HEAD
        invariant 0 <= k <= NBUF && b == At(ring, k)
        invariant forall m: nat | k <= m < NBUF :: Busy(bufs[ring[m]])
        decreases k
      {
        if bufs[b].refcnt == 0 && !bufs[b].dirty {
          assert ring[k - 1] == b == ring[IndexOf(ring, b)];
          return Some(b);
        }
        assert prev[At(ring, k)] == At(ring, k - 1);
        b, k := prev[b], k - 1;
      }
      forall i: nat | i < NBUF ensures Busy(bufs[i]) {
        CoversAll(ring, NBUF, i);
        assert ring[IndexOf(ring, i)] == i;
      }
      return None;
    }

    /** The section of bget under bcache.lock: find the block's buffer, or recycle the least
        recently used buffer that is neither referenced nor dirty. None is the panic for want of
        a buffer, and it happens exactly when the block is not cached and every buffer is busy. */
    method Bget(dev: nat, blockno: nat) returns (r: Option<nat>)
      requires Valid()
      modifies this`bufs
      ensures Valid()
      ensures r.None? <==> forall i: nat | i < NBUF :: Busy(old(bufs)[i]) && !Holds(old(bufs)[i], dev, blockno)
      ensures r.None? ==> bufs == old(bufs)
      ensures r.Some? ==>
                r.value < NBUF && r.value in ring && Holds(bufs[r.value], dev, blockno) && bufs[r.value].refcnt > 0
      ensures r.Some? && Holds(old(bufs)[r.value], dev, blockno) ==>
                bufs == old(bufs)[r.value := old(bufs)[r.value].(refcnt := old(bufs)[r.value].refcnt + 1)]
      ensures r.Some? && !Holds(old(bufs)[r.value], dev, blockno) ==>
                && (forall i: nat | i < NBUF :: !Holds(old(bufs)[i], dev, blockno))
                && !Busy(old(bufs)[r.value])
                && (forall k: nat | IndexOf(ring, r.value) < k < NBUF :: Busy(old(bufs)[ring[k]]))
                && bufs == old(bufs)[r.value := Buf(false, false, dev, blockno, false, 1, old(bufs)[r.value].data)]
    {
      hide Linked, Sound;
      r := FindCached(dev, blockno);
      if r.Some? {
        var b := r.value;
        SoundUse(bufs, memdisk, flat, pinned, b, bufs[b].locked, bufs[b].refcnt + 1);
        bufs := bufs[b := bufs[b].(refcnt := bufs[b].refcnt + 1)];
      } else {
        r := FindVictim();
        if r.Some? {
          var b := r.value;
          SoundRecycle(bufs, memdisk, flat, pinned, b, dev, blockno);
          bufs := bufs[b := Buf(false, false, dev, blockno, false, 1, bufs[b].data)];
        }
      }
    }

    /** acquiresleep on a buffer this process has a reference to and nobody holds. */
    method AcquireSleep(i: nat)
      requires Valid() && i < NBUF && bufs[i].refcnt > 0 && !bufs[i].locked
      modifies this`bufs
      ensures Valid() && bufs == old(bufs)[i := old(bufs)[i].(locked := true)]
    {
      hide Linked, Sound;
      SoundUse(bufs, memdisk, flat, pinned, i, true, bufs[i].refcnt);
      bufs := bufs[i := bufs[i].(locked := true)];
    }

    /** The disk driver: write a dirty buffer out, or read an invalid one in. It fails (the panics)
        exactly when the buffer is not locked, there is nothing to do, the device is not the disk
        or the block is not on it. */
    method Iderw(i: nat) returns (ok: bool)
      requires Valid() && i < NBUF
      modifies this`bufs, this`memdisk, this`pinned, this`trace
      ensures Valid()
      ensures var b := old(bufs)[i];
              ok <==> b.locked && !(b.valid && !b.dirty) && b.dev == DISKDEV && b.blockno < |memdisk|
      ensures !ok ==> bufs == old(bufs)
      ensures |memdisk| == |old(memdisk)| == |flat|
      ensures !ok || !old(bufs)[i].dirty ==> memdisk == old(memdisk) && pinned == old(pinned) && trace == old(trace)
      ensures ok && old(bufs)[i].dirty ==>
                && memdisk == old(memdisk)[old(bufs)[i].blockno := old(bufs)[i].data]
                && pinned == old(pinned) - {old(bufs)[i].blockno} && trace == old(trace) + [memdisk]
                && bufs == old(bufs)[i := old(bufs)[i].(dirty := false)]
      ensures ok && !old(bufs)[i].dirty ==>
                bufs == old(bufs)[i := old(bufs)[i].(valid := true, data := flat[old(bufs)[i].blockno])]
    {
      hide Linked, Unique, Pins;
      var b := bufs[i];
      if !b.locked || (b.valid && !b.dirty) || b.dev != DISKDEV || b.blockno >= |memdisk| {
        return false;
      }
      if b.dirty {
        SoundWritten(bufs, memdisk, flat, pinned, i);
        bufs := bufs[i := b.(dirty := false, valid := true)];
        memdisk := memdisk[b.blockno := b.data];
        pinned, trace := pinned - {b.blockno}, trace + [memdisk];
      } else {
        SoundFilled(bufs, memdisk, flat, pinned, i);
        bufs := bufs[i := b.(valid := true, data := memdisk[b.blockno])];
      }
      return true;
    }

    /** The second half of bread: fill a locked buffer from the disk unless it is valid already. */
    method Fill(i: nat) returns (ok: bool)
      requires Valid() && i < NBUF && bufs[i].locked
      modifies this`bufs, this`memdisk, this`pinned, this`trace
      ensures Valid() && memdisk == old(memdisk) && pinned == old(pinned) && trace == old(trace)
      ensures |flat| == |memdisk|
      ensures ok <==> old(bufs)[i].dev == DISKDEV && old(bufs)[i].blockno < |flat|
      ensures ok ==> bufs == old(bufs)[i := old(bufs)[i].(valid := true, data := flat[old(bufs)[i].blockno])]
    {
      hide Linked, Unique;
      if !bufs[i].valid {
        ok := Iderw(i);
      } else {
        ok := true;
      }
    }

    /** bread, when nobody else has the block's buffer locked: the buffer returned is locked and
        holds the contents last stored for the block. None stands for the panics. */
    method Bread(dev: nat, blockno: nat) returns (r: Option<nat>)
      requires Valid()
      requires forall i: nat | i < NBUF && Holds(bufs[i], dev, blockno) :: !bufs[i].locked
      modifies this`bufs, this`memdisk, this`pinned, this`trace
      ensures Valid() && memdisk == old(memdisk) && pinned == old(pinned) && trace == old(trace)
      ensures |flat| == |memdisk|
      ensures r.None? <==> dev != DISKDEV || blockno >= |memdisk| ||
                           forall i: nat | i < NBUF :: Busy(old(bufs)[i]) && !Holds(old(bufs)[i], dev, blockno)
      ensures r.None? && dev == DISKDEV && blockno < |memdisk| ==> bufs == old(bufs)
      ensures r.Some? ==> && r.value < NBUF
                          && bufs == old(bufs)[r.value := bufs[r.value]]
                          && bufs[r.value].locked && bufs[r.value].valid && Holds(bufs[r.value], DISKDEV, blockno)
                          && bufs[r.value].data == flat[blockno]
      ensures r.Some? && Holds(old(bufs)[r.value], dev, blockno) ==>
                && bufs[r.value].refcnt == old(bufs)[r.value].refcnt + 1
                && bufs[r.value].dirty == old(bufs)[r.value].dirty
      ensures r.Some? && !Holds(old(bufs)[r.value], dev, blockno) ==>
                && (forall i: nat | i < NBUF :: !Holds(old(bufs)[i], dev, blockno))
                && !Busy(old(bufs)[r.value]) && bufs[r.value].refcnt == 1 && !bufs[r.value].dirty
    {
      hide Linked, Sound;
      r := Bget(dev, blockno);
      if r.Some? {
        AcquireSleep(r.value);
        var ok := Fill(r.value);
        if !ok { r := None; }
      }
    }

    /** The holder of a locked buffer changes its data: the flat map changes with it. */
    method Store(i: nat, data: Block)
      requires Valid() && i < NBUF && bufs[i].locked && bufs[i].valid
      modifies this`bufs, this`flat
      ensures Valid()
      ensures bufs == old(bufs)[i := old(bufs)[i].(data := data)]
      ensures old(bufs)[i].blockno < |old(flat)| && flat == old(flat)[old(bufs)[i].blockno := data]
    {
      hide Linked, Sound;
      SoundStored(bufs, memdisk, flat, pinned, i, data);
      flat := flat[bufs[i].blockno := data];
      bufs := bufs[i := bufs[i].(data := data)];
    }

    /** b->flags |= B_DIRTY: the buffer stays in the cache until it is written out. */
    method Pin(i: nat)
      requires Valid() && i < NBUF && bufs[i].locked && bufs[i].valid
      modifies this`bufs, this`pinned
      ensures Valid()
      ensures bufs == old(bufs)[i := old(bufs)[i].(dirty := true)]
      ensures pinned == old(pinned) + {old(bufs)[i].blockno}
    {
      hide Linked, Sound;
      SoundPinned(bufs, memdisk, flat, pinned, i);
      pinned := pinned + {bufs[i].blockno};
      bufs := bufs[i := bufs[i].(dirty := true)];
    }

    /** bwrite: the disk gets the buffer's contents, in one block write. */
    method Bwrite(i: nat)
      requires Valid() && i < NBUF && bufs[i].locked && bufs[i].valid
      modifies this`bufs, this`memdisk, this`pinned, this`trace
      ensures Valid()
      ensures bufs == old(bufs)[i := old(bufs)[i].(dirty := false)]
      ensures old(bufs)[i].blockno < |old(memdisk)|
      ensures memdisk == old(memdisk)[old(bufs)[i].blockno := old(bufs)[i].data]
      ensures pinned == old(pinned) - {old(bufs)[i].blockno} && trace == old(trace) + [memdisk]
    {
      hide Linked, Sound;
      SoundPinned(bufs, memdisk, flat, pinned, i);
      Pin(i);
      var ok := Iderw(i);
      assert ok;
    }

    /** Change a held buffer's data and write it out. */
    method StoreAndWrite(i: nat, data: Block)
      requires Valid() && i < NBUF && bufs[i].locked && bufs[i].valid
      modifies this`bufs, this`memdisk, this`flat, this`pinned, this`trace
      ensures Valid()
      ensures bufs == old(bufs)[i := old(bufs)[i].(data := data, dirty := false)]
      ensures var b := old(bufs)[i].blockno;
              && b < |old(memdisk)| && memdisk == old(memdisk)[b := data] && flat == old(flat)[b := data]
              && pinned == old(pinned) - {b} && trace == old(trace) + [memdisk]
    {
      hide Linked, Sound;
      Store(i, data);
      Bwrite(i);
    }

    /** brelse. The last reference moves the buffer to the front of the ring. The cache goes on standing
        for the flat map exactly if changes to the buffer, if any, were handed to bwrite or log_write;
        otherwise they last only until the buffer is recycled. */
    method Brelse(i: nat)
      requires Valid() && i < NBUF && bufs[i].locked && bufs[i].valid
      modifies this`bufs, this`next, this`prev, this`ring
      ensures Linked(next, prev, ring) && |ring| == NBUF && old(bufs)[i].blockno < |memdisk|
      ensures Valid() <==> old(bufs)[i].dirty || old(bufs)[i].data == memdisk[old(bufs)[i].blockno]
      ensures var b := old(bufs)[i]; bufs == old(bufs)[i := b.(locked := false, refcnt := b.refcnt - 1)]
      ensures old(bufs)[i].refcnt > 1 ==> ring == old(ring)
      ensures old(bufs)[i].refcnt == 1 ==> i in old(ring) && ring == [i] + Remove(old(ring), IndexOf(old(ring), i))
    {
      hide Linked, Sound;
      Unlocked(bufs, memdisk, flat, pinned, i);
      bufs := bufs[i := bufs[i].(locked := false, refcnt := bufs[i].refcnt - 1)];
      if bufs[i].refcnt == 0 {
        MoveToFront(i);
      }
    }

    method MoveToFront(i: nat)
      requires Linked(next, prev, ring) && |ring| == NBUF && i < NBUF
      modifies this`next, this`prev, this`ring
      ensures Linked(next, prev, ring) && |ring| == NBUF
      ensures i in old(ring) && ring == [i] + Remove(old(ring), IndexOf(old(ring), i))
    {
      CoversAll(ring, NBUF, i);
      ghost var k := IndexOf(ring, i);
      assert At(ring, k + 1) == i;
      assert next[At(ring, k + 1)] == At(ring, k + 2) && prev[At(ring, k + 1)] == At(ring, k);
      ghost var n0, p0 := next, prev;
      prev := prev[next[i] := prev[i]];
      next := next[prev[i] := next[i]];
      LinkedUnlink(n0, p0, ring, k, next, prev);
      ring := Remove(ring, k);
      assert next[At(ring, 0)] == At(ring, 1);
      ghost var n1, p1 := next, prev;
      next := next[i := next[HEAD]];
      prev := prev[i := HEAD];
      prev := prev[next[HEAD] := i];
      next := next[HEAD := i];
      LinkedFront(n1, p1, ring, i, next, prev);
      ring := [i] + ring;
    }
  }
}
