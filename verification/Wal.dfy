/** The write-ahead log at the level of disk images: what the disk holds after each single block
    write of a commit or of a recovery, and what recovery makes of a disk on which the machine
    stopped after any of those writes. */
module Wal {
  import opened Blocks

  const MAXOPBLOCKS := 10
  const LOGSIZE := 30

  /** The log occupies blocks [start, start + size): one header block, then size - 1 log blocks. */
  datatype Layout = Layout(start: nat, size: nat)

  datatype Update = Update(blockno: Word, data: Block)

  predicate InLog(lay: Layout, b: nat) {
    lay.start <= b < lay.start + lay.size
  }

  predicate Fits(lay: Layout, img: Image) {
    0 < lay.size && lay.start + lay.size <= |img|
  }

  /** A block number that log_write may be given: on the disk and outside the log. */
  predicate IsHome(lay: Layout, img: Image, b: nat) {
    b < |img| && !InLog(lay, b)
  }

  function HeadN(lay: Layout, img: Image): (n: nat)
    requires Fits(lay, img)
  {
    WordAt(img[lay.start], 0)
  }

  function HeadBlock(lay: Layout, img: Image, i: nat): (b: nat)
    requires Fits(lay, img) && i < LOGSIZE
  {
    WordAt(img[lay.start], i + 1)
  }

  /** The on-disk header is one that commit could have written. */
  ghost predicate HeadOk(lay: Layout, img: Image) {
    && Fits(lay, img)
    && HeadN(lay, img) <= LOGSIZE
    && HeadN(lay, img) < lay.size
    && forall i: nat | i < HeadN(lay, img) :: IsHome(lay, img, HeadBlock(lay, img, i))
  }

  /** The transaction fits the log and touches only home blocks. */
  ghost predicate TxnOk(lay: Layout, img: Image, txn: seq<Update>) {
    && |txn| <= LOGSIZE
    && |txn| < lay.size
    && forall i: nat | i < |txn| :: IsHome(lay, img, txn[i].blockno)
  }

  /** The two disks agree on every block outside the log. */
  ghost predicate SameHome(lay: Layout, a: Image, b: Image) {
    |a| == |b| && forall i: nat | i < |a| && !InLog(lay, i) :: a[i] == b[i]
  }

  function Numbers(txn: seq<Update>): (bs: seq<Word>)
    ensures |bs| == |txn| && forall i: nat | i < |txn| :: bs[i] == txn[i].blockno
  {
    if txn == [] then [] else Numbers(txn[..|txn| - 1]) + [txn[|txn| - 1].blockno]
  }

  /** What a transaction means: its updates, in order. */
  function Apply(img: Image, txn: seq<Update>): (r: Image)
    requires forall i: nat | i < |txn| :: txn[i].blockno < |img|
    ensures |r| == |img|
  {
    if txn == [] then img
    else Apply(img, txn[..|txn| - 1])[txn[|txn| - 1].blockno := txn[|txn| - 1].data]
  }

  // ----- the block writes of commit and of recovery -----

  /** write_head fills in n and block[0..n) and leaves the rest of the header block alone. */
  function PutNumbers(b: Block, bs: seq<Word>): (r: Block)
    requires |bs| <= LOGSIZE
    ensures WordAt(r, 0) == WordAt(b, 0)
    ensures forall i: nat | i < |bs| :: WordAt(r, i + 1) == bs[i]
  {
    if bs == [] then b else WithWord(PutNumbers(b, bs[..|bs| - 1]), |bs|, bs[|bs| - 1])
  }

  function PutHead(b: Block, bs: seq<Word>): (r: Block)
    requires |bs| <= LOGSIZE
    ensures WordAt(r, 0) == |bs|
    ensures forall i: nat | i < |bs| :: WordAt(r, i + 1) == bs[i]
  {
    PutNumbers(WithWord(b, 0, |bs|), bs)
  }

  /** The disk after write_log has copied the first k cached blocks into the log. */
  function Logged(lay: Layout, img: Image, txn: seq<Update>, k: nat): (r: Image)
    requires Fits(lay, img) && k <= |txn| < lay.size
    ensures |r| == |img|
    ensures forall b: nat | b < |img| && !(lay.start < b <= lay.start + k) :: r[b] == img[b]
    ensures forall i: nat | i < k :: r[lay.start + 1 + i] == txn[i].data
  {
    if k == 0 then img else Logged(lay, img, txn, k - 1)[lay.start + k := txn[k - 1].data]
  }

  /** The disk after install_trans has copied the first k log blocks to their home locations. */
  function Installed(lay: Layout, img: Image, k: nat): (r: Image)
    requires HeadOk(lay, img) && k <= HeadN(lay, img)
    ensures |r| == |img|
    ensures forall b: nat | InLog(lay, b) :: r[b] == img[b]
  {
    if k == 0 then img
    else Installed(lay, img, k - 1)[HeadBlock(lay, img, k - 1) := img[lay.start + k]]
  }

  function WithHead(lay: Layout, img: Image, bs: seq<Word>): (r: Image)
    requires Fits(lay, img) && |bs| <= LOGSIZE
    ensures |r| == |img| && HeadN(lay, r) == |bs|
    ensures forall i: nat | i < |bs| :: HeadBlock(lay, r, i) == bs[i]
    ensures forall b: nat | b < |img| && b != lay.start :: r[b] == img[b]
  {
    img[lay.start := PutHead(img[lay.start], bs)]
  }

  /** How many blocks commit writes: nothing at all for an empty transaction. */
  function CommitWrites(txn: seq<Update>): nat {
    if txn == [] then 0 else 2 * |txn| + 2
  }

  /** The disk just after the header write that commits the transaction. */
  function AtCommit(lay: Layout, img: Image, txn: seq<Update>): (r: Image)
    requires Fits(lay, img) && TxnOk(lay, img, txn)
    ensures HeadOk(lay, r) && |r| == |img| && HeadN(lay, r) == |txn|
  {
    WithHead(lay, Logged(lay, img, txn, |txn|), Numbers(txn))
  }

  /** The disk after the first k of commit's block writes: log blocks, header, home blocks,
      empty header. */
  function CommitImage(lay: Layout, img: Image, txn: seq<Update>, k: nat): (r: Image)
    requires Fits(lay, img) && TxnOk(lay, img, txn) && k <= CommitWrites(txn)
    ensures |r| == |img|
  {
    if k <= |txn| then Logged(lay, img, txn, k)
    else if k <= 2 * |txn| + 1 then Installed(lay, AtCommit(lay, img, txn), k - |txn| - 1)
    else WithHead(lay, Installed(lay, AtCommit(lay, img, txn), |txn|), [])
  }

  /** The disk after the first k of recovery's block writes: home blocks, empty header. */
  function RecoverImage(lay: Layout, img: Image, k: nat): (r: Image)
    requires HeadOk(lay, img) && k <= HeadN(lay, img) + 1
    ensures |r| == |img|
  {
    if k <= HeadN(lay, img) then Installed(lay, img, k)
    else WithHead(lay, Installed(lay, img, k - 1), [])
  }

  /** What an undisturbed recovery leaves. */
  function Recovered(lay: Layout, img: Image): (r: Image)
    requires HeadOk(lay, img)
    ensures |r| == |img| && HeadOk(lay, r) && HeadN(lay, r) == 0
  {
    RecoverImage(lay, img, HeadN(lay, img) + 1)
  }

  // ----- installing is idempotent -----

  /** The last of the first k header entries naming block b, or -1. */
  function LastEntry(lay: Layout, img: Image, b: nat, k: nat): (i: int)
    requires HeadOk(lay, img) && k <= HeadN(lay, img)
    ensures -1 <= i < k
    ensures i >= 0 ==> HeadBlock(lay, img, i) == b
  {
    if k == 0 then -1
    else if HeadBlock(lay, img, k - 1) == b then k - 1
    else LastEntry(lay, img, b, k - 1)
  }

  lemma {:induction false} InstalledAt(lay: Layout, img: Image, k: nat, b: nat)
    requires HeadOk(lay, img) && k <= HeadN(lay, img) && b < |img|
    ensures Installed(lay, img, k)[b] ==
            if LastEntry(lay, img, b, k) >= 0 then img[lay.start + 1 + LastEntry(lay, img, b, k)] else img[b]
  {
    hide WordAt, PutHead;
    if k > 0 {
      InstalledAt(lay, img, k - 1, b);
    }
  }

  lemma {:induction false} LastEntryMonotone(lay: Layout, img: Image, b: nat, k: nat, m: nat)
    requires HeadOk(lay, img) && k <= m <= HeadN(lay, img)
    requires LastEntry(lay, img, b, k) >= 0
    ensures LastEntry(lay, img, b, m) >= 0
  {
    if k < m {
      LastEntryMonotone(lay, img, b, k, m - 1);
    }
  }

  lemma {:induction false} SameHeadSameEntry(lay: Layout, a: Image, c: Image, b: nat, k: nat)
    requires HeadOk(lay, a) && HeadOk(lay, c) && a[lay.start] == c[lay.start] && k <= HeadN(lay, a)
    ensures LastEntry(lay, a, b, k) == LastEntry(lay, c, b, k)
  {
    if k > 0 {
      SameHeadSameEntry(lay, a, c, b, k - 1);
    }
  }

  lemma InstalledKeepsHead(lay: Layout, img: Image, k: nat)
    requires HeadOk(lay, img) && k <= HeadN(lay, img)
    ensures HeadOk(lay, Installed(lay, img, k))
    ensures HeadN(lay, Installed(lay, img, k)) == HeadN(lay, img)
  {
    hide WordAt, PutHead;
    var r := Installed(lay, img, k);
    assert r[lay.start] == img[lay.start];
    assert forall i: nat | i < HeadN(lay, r) :: HeadBlock(lay, r, i) == HeadBlock(lay, img, i);
  }

  /** install_trans is idempotent: stopping it after k copies and starting it over from the
      header gives the very disk that one uninterrupted pass gives. */
  lemma InstallIdempotent(lay: Layout, img: Image, k: nat)
    requires HeadOk(lay, img) && k <= HeadN(lay, img)
    ensures HeadOk(lay, Installed(lay, img, k)) && HeadN(lay, Installed(lay, img, k)) == HeadN(lay, img)
    ensures Installed(lay, Installed(lay, img, k), HeadN(lay, img)) == Installed(lay, img, HeadN(lay, img))
  {
    hide WordAt, PutHead;
    var n, half := HeadN(lay, img), Installed(lay, img, k);
    InstalledKeepsHead(lay, img, k);
    var a, c := Installed(lay, half, n), Installed(lay, img, n);
    forall b: nat | b < |img| ensures a[b] == c[b] {
      InstalledAt(lay, half, n, b);
      InstalledAt(lay, img, n, b);
      InstalledAt(lay, img, k, b);
      SameHeadSameEntry(lay, img, half, b, n);
      if LastEntry(lay, img, b, k) >= 0 {
        LastEntryMonotone(lay, img, b, k, n);
      }
    }
    assert a == c;
  }

  // ----- one commit, one recovery, cut short anywhere -----

  /** Stopping recovery after any number of writes does not change what recovery leaves. */
  lemma RecoverResumes(lay: Layout, img: Image, k: nat)
    requires HeadOk(lay, img) && k <= HeadN(lay, img) + 1
    ensures HeadOk(lay, RecoverImage(lay, img, k))
    ensures SameHome(lay, Recovered(lay, RecoverImage(lay, img, k)), Recovered(lay, img))
  {
    hide WordAt, PutHead;
    if k <= HeadN(lay, img) {
      InstallIdempotent(lay, img, k);
    }
  }

  lemma {:induction false} InstalledIsApply(lay: Layout, img: Image, txn: seq<Update>, k: nat)
    requires Fits(lay, img) && TxnOk(lay, img, txn) && k <= |txn|
    ensures SameHome(lay, Installed(lay, AtCommit(lay, img, txn), k), Apply(img, txn[..k]))
  {
    hide WordAt, PutHead;
    if k > 0 {
      InstalledIsApply(lay, img, txn, k - 1);
      assert txn[..k][..k - 1] == txn[..k - 1];
    }
  }

  /** The header write is the commit point: before it recovery gives the old disk, from it on
      (during the installation and after it) recovery gives the disk with the whole transaction. */
  lemma CommitAtomic(lay: Layout, img: Image, txn: seq<Update>, k: nat)
    requires HeadOk(lay, img) && HeadN(lay, img) == 0
    requires TxnOk(lay, img, txn) && k <= CommitWrites(txn)
    ensures HeadOk(lay, CommitImage(lay, img, txn, k))
    ensures SameHome(lay, Recovered(lay, CommitImage(lay, img, txn, k)),
                     if k <= |txn| then img else Apply(img, txn))
  {
    hide WordAt, PutHead;
    if k > |txn| {
      var c := AtCommit(lay, img, txn);
      InstalledIsApply(lay, img, txn, |txn|);
      assert txn[..|txn|] == txn;
      InstallIdempotent(lay, c, if k <= 2 * |txn| + 1 then k - |txn| - 1 else |txn|);
    }
  }

  /** An undisturbed commit leaves an empty header and the transaction in its home locations. */
  lemma CommitCompletes(lay: Layout, img: Image, txn: seq<Update>)
    requires HeadOk(lay, img) && HeadN(lay, img) == 0 && TxnOk(lay, img, txn)
    ensures var r := CommitImage(lay, img, txn, CommitWrites(txn));
            HeadOk(lay, r) && HeadN(lay, r) == 0 && SameHome(lay, r, Apply(img, txn))
  {
    hide WordAt, PutHead;
    if txn != [] {
      InstalledIsApply(lay, img, txn, |txn|);
      assert txn[..|txn|] == txn;
    }
  }

  // ----- every run -----

  /** A machine that is up commits transactions; a crash can follow any single block write of a
      commit or of a recovery, and only an undisturbed recovery brings the machine up again. */
  datatype Event =
    | Commit(txn: seq<Update>)
    | CrashInCommit(txn: seq<Update>, writes: nat)
    | CrashInRecovery(writes: nat)
    | Recovery

  datatype Machine = Machine(disk: Image, up: bool)

  ghost predicate Enabled(lay: Layout, m: Machine, e: Event)
    requires HeadOk(lay, m.disk)
  {
    match e
    case Commit(txn) => m.up && TxnOk(lay, m.disk, txn)
    case CrashInCommit(txn, k) => m.up && TxnOk(lay, m.disk, txn) && k <= CommitWrites(txn)
    case CrashInRecovery(k) => !m.up && k <= HeadN(lay, m.disk) + 1
    case Recovery => !m.up
  }

  function Step(lay: Layout, m: Machine, e: Event): (r: Machine)
    requires HeadOk(lay, m.disk) && Enabled(lay, m, e)
    ensures |r.disk| == |m.disk|
  {
    match e
    case Commit(txn) => Machine(CommitImage(lay, m.disk, txn, CommitWrites(txn)), true)
    case CrashInCommit(txn, k) => Machine(CommitImage(lay, m.disk, txn, k), false)
    case CrashInRecovery(k) => Machine(RecoverImage(lay, m.disk, k), false)
    case Recovery => Machine(Recovered(lay, m.disk), true)
  }

  /** m is reached from the disk img, up and with an empty log, by the given events. */
  ghost predicate Reaches(lay: Layout, img: Image, events: seq<Event>, m: Machine) {
    if events == [] then m == Machine(img, true)
    else exists p: Machine :: Reaches(lay, img, events[..|events| - 1], p)
                              && HeadOk(lay, p.disk) && Enabled(lay, p, events[|events| - 1])
                              && m == Step(lay, p, events[|events| - 1])
  }

  /** The updates an event makes permanent: those of a commit whose header write took place. */
  function Gain(e: Event): seq<Update> {
    match e
    case Commit(txn) => txn
    case CrashInCommit(txn, k) => if k > |txn| then txn else []
    case CrashInRecovery(_) => []
    case Recovery => []
  }

  /** The transactions whose header write took place, in order, as one list of updates. */
  function Committed(events: seq<Event>): (txn: seq<Update>) {
    if events == [] then [] else Committed(events[..|events| - 1]) + Gain(events[|events| - 1])
  }

  ghost predicate TargetsHome(lay: Layout, img: Image, txn: seq<Update>) {
    forall i: nat | i < |txn| :: IsHome(lay, img, txn[i].blockno)
  }

  lemma {:induction false} ApplyAppend(img: Image, s: seq<Update>, t: seq<Update>)
    requires forall i: nat | i < |s| :: s[i].blockno < |img|
    requires forall i: nat | i < |t| :: t[i].blockno < |img|
    ensures forall i: nat | i < |s + t| :: (s + t)[i].blockno < |img|
    ensures Apply(img, s + t) == Apply(Apply(img, s), t)
  {
    if t == [] {
      assert s + t == s;
    } else {
      ApplyAppend(img, s, t[..|t| - 1]);
      assert (s + t)[..|s + t| - 1] == s + t[..|t| - 1];
    }
  }

  lemma {:induction false} ApplyRespectsHome(lay: Layout, a: Image, b: Image, txn: seq<Update>)
    requires SameHome(lay, a, b) && TargetsHome(lay, a, txn)
    ensures SameHome(lay, Apply(a, txn), Apply(b, txn))
  {
    if txn != [] {
      ApplyRespectsHome(lay, a, b, txn[..|txn| - 1]);
    }
  }

  /** The disk m amounts to the initial disk img with the updates in done. */
  ghost predicate Amounts(lay: Layout, img: Image, done: seq<Update>, m: Machine) {
    && HeadOk(lay, m.disk) && |m.disk| == |img| && TargetsHome(lay, img, done)
    && SameHome(lay, Recovered(lay, m.disk), Apply(img, done))
    && (m.up ==> HeadN(lay, m.disk) == 0 && SameHome(lay, m.disk, Apply(img, done)))
  }

  lemma RecoveredIfEmpty(lay: Layout, img: Image)
    requires HeadOk(lay, img) && HeadN(lay, img) == 0
    ensures SameHome(lay, Recovered(lay, img), img)
  {
    hide WordAt, PutHead;
  }

  lemma CommitStep(lay: Layout, img: Image, done: seq<Update>, p: Machine, txn: seq<Update>)
    requires Amounts(lay, img, done, p) && Enabled(lay, p, Commit(txn))
    ensures Amounts(lay, img, done + txn, Step(lay, p, Commit(txn)))
  {
    hide WordAt, CommitImage, Recovered, Apply;
    CommitCompletes(lay, p.disk, txn);
    RecoveredIfEmpty(lay, CommitImage(lay, p.disk, txn, CommitWrites(txn)));
    ApplyRespectsHome(lay, p.disk, Apply(img, done), txn);
    ApplyAppend(img, done, txn);
  }

  lemma CrashInCommitStep(lay: Layout, img: Image, done: seq<Update>, p: Machine, txn: seq<Update>, k: nat)
    requires Amounts(lay, img, done, p) && Enabled(lay, p, CrashInCommit(txn, k))
    ensures Amounts(lay, img, if k > |txn| then done + txn else done, Step(lay, p, CrashInCommit(txn, k)))
  {
    hide WordAt, CommitImage, Recovered, Apply;
    CommitAtomic(lay, p.disk, txn, k);
    ApplyRespectsHome(lay, p.disk, Apply(img, done), txn);
    ApplyAppend(img, done, txn);
  }

  lemma StepAmounts(lay: Layout, img: Image, done: seq<Update>, p: Machine, e: Event)
    requires Amounts(lay, img, done, p) && Enabled(lay, p, e)
    ensures Amounts(lay, img, done + Gain(e), Step(lay, p, e))
  {
    hide WordAt, PutHead;
    assert done + [] == done;
    match e {
      case Commit(txn) => CommitStep(lay, img, done, p, txn);
      case CrashInCommit(txn, k) => CrashInCommitStep(lay, img, done, p, txn, k);
      case CrashInRecovery(k) => RecoverResumes(lay, p.disk, k);
      case Recovery => RecoverResumes(lay, p.disk, HeadN(lay, p.disk) + 1);
    }
  }

  /** Crash atomicity over whole runs. However commits, crashes inside commits, crashes inside
      recoveries and recoveries follow one another, the home blocks recovery leaves are the initial
      ones with exactly the transactions whose header write took place, each applied whole and in
      order; and a machine that is up already has them in place, behind an empty header. */
  lemma {:induction false} CrashAtomicity(lay: Layout, img: Image, events: seq<Event>, m: Machine)
    requires HeadOk(lay, img) && HeadN(lay, img) == 0 && Reaches(lay, img, events, m)
    ensures HeadOk(lay, m.disk) && TargetsHome(lay, img, Committed(events))
    ensures SameHome(lay, Recovered(lay, m.disk), Apply(img, Committed(events)))
    ensures m.up ==> HeadN(lay, m.disk) == 0 && SameHome(lay, m.disk, Apply(img, Committed(events)))
  {
    hide WordAt, PutHead;
    if events != [] {
      var before, e := events[..|events| - 1], events[|events| - 1];
      var p: Machine :| Reaches(lay, img, before, p) && HeadOk(lay, p.disk)
                        && Enabled(lay, p, e) && m == Step(lay, p, e);
      CrashAtomicity(lay, img, before, p);
      StepAmounts(lay, img, Committed(before), p, e);
    }
  }
}
