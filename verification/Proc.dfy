/** The process table (proc.c): fork, exit, wait, sleep, wakeup and kill as atomic sections under
    ptable.lock, and what holds of the table whenever the lock is free. */
module Proc {
  import opened Counting

  const NPROC := 64

  datatype State = UNUSED | EMBRYO | SLEEPING | RUNNABLE | RUNNING | ZOMBIE

  /** A pointer to a slot of the table, or null. */
  datatype Link = Nobody | Slot(i: nat)

  /** What a process sleeps on: the address of a process, as in wait, or of something else. */
  datatype Channel = NoChan | OnProc(i: nat) | Other(n: nat)

  datatype Process = Process(state: State, pid: nat, parent: Link, chan: Channel, killed: bool, priority: int)

  type Table = seq<Process>

  const FREE := Process(UNUSED, 0, Nobody, NoChan, false, 0)

  predicate Live(p: Process) {
    p.state == SLEEPING || p.state == RUNNABLE || p.state == RUNNING
  }

  predicate ZombieChildOf(p: Process, parent: nat) {
    p.parent == Slot(parent) && p.state == ZOMBIE
  }

  /** wakeup1 */
  function Woken(t: Table, chan: Channel): (r: Table)
    ensures |r| == |t|
  {
    seq(|t|, i requires 0 <= i < |t| =>
      if t[i].state == SLEEPING && t[i].chan == chan then t[i].(state := RUNNABLE) else t[i])
  }

  /** exit's children go to init. */
  function Orphaned(t: Table, p: nat, init: nat): (r: Table)
    ensures |r| == |t|
  {
    seq(|t|, i requires 0 <= i < |t| => if t[i].parent == Slot(p) then t[i].(parent := Slot(init)) else t[i])
  }

  function ParentChannel(p: Process): Channel {
    match p.parent case Nobody => NoChan case Slot(i) => OnProc(i)
  }

  predicate HasZombie(t: Table, p: nat) {
    exists i: nat :: i < |t| && ZombieChildOf(t[i], p)
  }

  function Exited(t: Table, p: nat, init: nat): (r: Table)
    requires p < |t|
    ensures |r| == |t|
  {
    var woken := Woken(t, ParentChannel(t[p]));
    var orphaned := Orphaned(woken, p, init);
    var all := if HasZombie(t, p) then Woken(orphaned, OnProc(init)) else orphaned;
    all[p := all[p].(state := ZOMBIE)]
  }

  /** The first slot from i on with the given property; |t| if there is none. */
  function FirstUnused(t: Table, i: nat): (r: nat)
    requires i <= |t|
    ensures i <= r <= |t| && (r < |t| ==> t[r].state == UNUSED) && forall k: nat | i <= k < r :: t[k].state != UNUSED
    decreases |t| - i
  {
    if i == |t| || t[i].state == UNUSED then i else FirstUnused(t, i + 1)
  }

  function FirstZombie(t: Table, p: nat, i: nat): (r: nat)
    requires i <= |t|
    ensures i <= r <= |t| && (r < |t| ==> ZombieChildOf(t[r], p))
    ensures forall k: nat | i <= k < r :: !ZombieChildOf(t[k], p)
    decreases |t| - i
  {
    if i == |t| || ZombieChildOf(t[i], p) then i else FirstZombie(t, p, i + 1)
  }

  function FirstPid(t: Table, pid: nat, i: nat): (r: nat)
    requires i <= |t|
    ensures i <= r <= |t| && (r < |t| ==> t[r].pid == pid) && forall k: nat | i <= k < r :: t[k].pid != pid
    decreases |t| - i
  {
    if i == |t| || t[i].pid == pid then i else FirstPid(t, pid, i + 1)
  }

  predicate HasChild(t: Table, p: nat) {
    exists i: nat :: i < |t| && t[i].parent == Slot(p)
  }

  datatype WaitResult = Reaped(pid: nat) | NoChild | WaitSleeps

  /** One section of wait. */
  function Waited(t: Table, p: nat): (Table, WaitResult)
    requires p < |t|
  {
    var z := FirstZombie(t, p, 0);
    if z < |t| then
      (t[z := t[z].(state := UNUSED, pid := 0, parent := Nobody, killed := false)], Reaped(t[z].pid))
    else if !HasChild(t, p) || t[p].killed then (t, NoChild)
    else (t[p := t[p].(state := SLEEPING, chan := OnProc(p))], WaitSleeps)
  }

  function Embryo(p: Process, pid: nat): Process {
    p.(state := EMBRYO, pid := pid, priority := 500)
  }

  function Killed(p: Process): Process {
    p.(killed := true, state := if p.state == SLEEPING then RUNNABLE else p.state)
  }

  /** struct ptable */
  class ProcTable {
    var proc: Table
    var nextpid: nat
    const initproc: nat

    /** The table once userinit is done: init waits to run, in the first slot. */
    constructor ()
      ensures |proc| == NPROC && nextpid == 2 && initproc == 0
      ensures proc[0] == Process(RUNNABLE, 1, Nobody, NoChan, false, 500)
      ensures forall i: nat | 0 < i < NPROC :: proc[i] == FREE
    {
      proc := seq(NPROC, i => if i == 0 then Process(RUNNABLE, 1, Nobody, NoChan, false, 500) else FREE);
      nextpid, initproc := 2, 0;
    }

    /** allocproc's search: the first unused slot becomes an embryo with the next pid. */
    method AllocProc() returns (r: Link)
      modifies this
      ensures r == (if FirstUnused(old(proc), 0) < |old(proc)| then Slot(FirstUnused(old(proc), 0)) else Nobody)
      ensures r.Nobody? ==> proc == old(proc) && nextpid == old(nextpid)
      ensures r.Slot? ==> proc == old(proc)[r.i := Embryo(old(proc)[r.i], old(nextpid))] && nextpid == old(nextpid) + 1
    {
      var i := 0;
      while i < |proc| && proc[i].state != UNUSED
        invariant i <= |proc| && proc == old(proc) && nextpid == old(nextpid)
        invariant FirstUnused(proc, 0) == FirstUnused(proc, i)
      {
        i := i + 1;
      }
      if i == |proc| {
        return Nobody;
      }
      proc := proc[i := proc[i].(state := EMBRYO, pid := nextpid, priority := 500)];
      nextpid := nextpid + 1;
      return Slot(i);
    }

    method Wakeup1(chan: Channel)
      modifies `proc
      ensures proc == Woken(old(proc), chan)
    {
      for i := 0 to |proc|
        invariant |proc| == |old(proc)|
        invariant forall k: nat | k < i :: proc[k] == Woken(old(proc), chan)[k]
        invariant forall k: nat | i <= k < |proc| :: proc[k] == old(proc)[k]
      {
        if proc[i].state == SLEEPING && proc[i].chan == chan {
          proc := proc[i := proc[i].(state := RUNNABLE)];
        }
      }
    }

    /** exit, from acquire(&ptable.lock) on; false is the panic over init. */
    method Exit(p: nat) returns (ok: bool)
      requires p < |proc| && proc[p].state == RUNNING
      modifies `proc
      ensures ok <==> p != initproc
      ensures proc == if ok then Exited(old(proc), p, initproc) else old(proc)
    {
      hide Woken, Adopted, Exited;
      if p == initproc {
        return false;
      }
      Wakeup1(ParentChannel(proc[p]));
      ghost var woken := proc;
      AdoptedNone(woken, p, initproc);
      for i := 0 to |proc|
        invariant |proc| == |woken| && proc == Adopted(woken, p, initproc, i)
      {
        AdoptedNext(woken, p, initproc, i);
        if proc[i].parent == Slot(p) {
          proc := proc[i := proc[i].(parent := Slot(initproc))];
          if proc[i].state == ZOMBIE {
            Wakeup1(OnProc(initproc));
          }
        }
      }
      AdoptedAll(old(proc), p, initproc);
      proc := proc[p := proc[p].(state := ZOMBIE)];
      return true;
    }

    /** wait, from its start or from the return of its sleep to its return or its next sleep. */
    method Wait(p: nat) returns (r: WaitResult)
      requires p < |proc|
      modifies `proc
      ensures (proc, r) == Waited(old(proc), p)
    {
      var havekids := false;
      for i := 0 to |proc|
        invariant proc == old(proc) && FirstZombie(proc, p, 0) == FirstZombie(proc, p, i)
        invariant havekids <==> exists k: nat :: k < i && proc[k].parent == Slot(p)
      {
        if proc[i].parent == Slot(p) {
          havekids := true;
          if proc[i].state == ZOMBIE {
            var pid := proc[i].pid;
            proc := proc[i := proc[i].(pid := 0, parent := Nobody, killed := false, state := UNUSED)];
            return Reaped(pid);
          }
        }
      }
      if !havekids || proc[p].killed {
        return NoChild;
      }
      proc := proc[p := proc[p].(chan := OnProc(p), state := SLEEPING)];
      return WaitSleeps;
    }

    /** kill: the first slot with the pid. */
    method Kill(pid: nat) returns (ok: bool)
      modifies `proc
      ensures ok <==> FirstPid(old(proc), pid, 0) < |old(proc)|
      ensures !ok ==> proc == old(proc)
      ensures ok ==> proc == old(proc)[FirstPid(old(proc), pid, 0) := Killed(old(proc)[FirstPid(old(proc), pid, 0)])]
    {
      for i := 0 to |proc|
        invariant proc == old(proc) && FirstPid(proc, pid, 0) == FirstPid(proc, pid, i)
      {
        if proc[i].pid == pid {
          proc := proc[i := proc[i].(killed := true)];
          if proc[i].state == SLEEPING {
            proc := proc[i := proc[i].(state := RUNNABLE)];
          }
          return true;
        }
      }
      return false;
    }

    /** One trip round the scheduler's outer loop: from slot start on, the first runnable process gives
        way to the runnable process of highest priority, if that is higher than its own. */
    method Pick(start: nat) returns (r: Link)
      requires start <= |proc|
      ensures r.Nobody? <==> forall k: nat | start <= k < |proc| :: proc[k].state != RUNNABLE
      ensures r.Slot? ==> r.i < |proc| && proc[r.i].state == RUNNABLE
      ensures r.Slot? ==>
                forall k: nat | k < |proc| && proc[k].state == RUNNABLE :: proc[k].priority <= proc[r.i].priority
      ensures r.Slot? ==>
                forall k: nat | start <= k < r.i && proc[k].state == RUNNABLE :: proc[k].priority < proc[r.i].priority
    {
      var p := start;
      while p < |proc| && proc[p].state != RUNNABLE
        invariant start <= p <= |proc| && forall k: nat | start <= k < p :: proc[k].state != RUNNABLE
      {
        p := p + 1;
      }
      if p == |proc| {
        return Nobody;
      }
      var hp: nat := p;
      for np := 0 to |proc|
        invariant hp < |proc| && proc[hp].state == RUNNABLE
        invariant forall k: nat | k < np && proc[k].state == RUNNABLE :: proc[k].priority <= proc[hp].priority
        invariant proc[p].priority <= proc[hp].priority && (hp == p || proc[p].priority < proc[hp].priority)
        invariant hp == p || forall k: nat | k < hp && proc[k].state == RUNNABLE :: proc[k].priority < proc[hp].priority
        invariant hp == p || hp < np
      {
        if proc[np].state == RUNNABLE && proc[hp].priority < proc[np].priority {
          hp := np;
        }
      }
      return Slot(hp);
    }
  }

  /** The table after exit's loop has passed the first n slots. */
  ghost function Adopted(t: Table, p: nat, init: nat, n: nat): (r: Table)
    requires n <= |t|
    ensures |r| == |t|
  {
    if HasZombie(t[..n], p) then Woken(Moved(t, p, init, n), OnProc(init)) else Moved(t, p, init, n)
  }

  ghost function Moved(t: Table, p: nat, init: nat, n: nat): (r: Table)
    requires n <= |t|
    ensures |r| == |t|
    ensures forall i: nat | i < |t| ::
              r[i] == if i < n && t[i].parent == Slot(p) then t[i].(parent := Slot(init)) else t[i]
  {
    Orphaned(t[..n], p, init) + t[n..]
  }

  lemma AdoptedNone(t: Table, p: nat, init: nat)
    ensures Adopted(t, p, init, 0) == t
  {
  }

  lemma ZombieNext(t: Table, p: nat, n: nat)
    requires n < |t|
    ensures HasZombie(t[..n + 1], p) <==> HasZombie(t[..n], p) || ZombieChildOf(t[n], p)
  {
    if HasZombie(t[..n], p) {
      var i: nat :| i < |t[..n]| && ZombieChildOf(t[..n][i], p);
      assert ZombieChildOf(t[..n + 1][i], p);
    }
    if HasZombie(t[..n + 1], p) {
      var i: nat :| i < |t[..n + 1]| && ZombieChildOf(t[..n + 1][i], p);
      assert i < n ==> ZombieChildOf(t[..n][i], p);
    }
    assert ZombieChildOf(t[n], p) ==> ZombieChildOf(t[..n + 1][n], p);
  }

  lemma AdoptedNext(t: Table, p: nat, init: nat, n: nat)
    requires n < |t|
    ensures Adopted(t, p, init, n)[n].parent == t[n].parent
    ensures t[n].parent != Slot(p) ==> Adopted(t, p, init, n + 1) == Adopted(t, p, init, n)
    ensures t[n].parent == Slot(p) ==>
              var a := Adopted(t, p, init, n);
              var b := a[n := a[n].(parent := Slot(init))];
              Adopted(t, p, init, n + 1) == if a[n].state == ZOMBIE then Woken(b, OnProc(init)) else b
  {
    hide HasZombie, Moved;
    ZombieNext(t, p, n);
    if t[n].parent != Slot(p) {
      assert Moved(t, p, init, n + 1) == Moved(t, p, init, n);
    }
  }

  lemma AdoptedAll(t0: Table, p: nat, init: nat)
    requires p < |t0|
    ensures var t := Woken(t0, ParentChannel(t0[p]));
            var a := Adopted(t, p, init, |t|);
            Exited(t0, p, init) == a[p := a[p].(state := ZOMBIE)]
  {
    var t := Woken(t0, ParentChannel(t0[p]));
    assert t[..|t|] == t;
    assert forall i: nat | i < |t| :: ZombieChildOf(t[i], p) <==> ZombieChildOf(t0[i], p);
    assert HasZombie(t, p) <==> HasZombie(t0, p);
    assert Moved(t, p, init, |t|) == Orphaned(t, p, init);
  }

  /** fork between allocproc and the end: the new slot, and whether its parent is set yet. */
  datatype Forking = Forking(child: nat, linked: bool)

  /** The table, the forks under way, and the pids of all processes that exited or were reported by wait. */
  datatype System = System(proc: Table, nextpid: nat, init: nat, forks: map<nat, Forking>,
                           exited: seq<nat>, reported: seq<nat>)

  datatype Event =
    | ForkStart(p: nat)                  // fork up to allocproc's release of the lock
    | ForkFails(p: nat)                  // no memory: the slot is unused again
    | ForkLinks(p: nat)                  // np->parent = curproc, without the lock
    | ForkEnds(p: nat)                   // the child may run
    | Exits(p: nat)
    | Waits(p: nat)                      // a section of wait
    | Sleeps(p: nat, n: nat)             // sleep on something that is not a process
    | Wakes(n: nat)
    | Kills(pid: nat)
    | Yields(p: nat)
    | Scheduled(p: nat)

  predicate Running(s: System, p: nat) {
    p < |s.proc| && s.proc[p].state == RUNNING
  }

  /** A process does one thing at a time, and only while it runs. */
  predicate Enabled(s: System, e: Event) {
    match e
    case ForkStart(p) => Running(s, p) && p !in s.forks
    case ForkFails(p) => Running(s, p) && p in s.forks && !s.forks[p].linked
    case ForkLinks(p) => Running(s, p) && p in s.forks && !s.forks[p].linked
    case ForkEnds(p) => Running(s, p) && p in s.forks && s.forks[p].linked
    case Exits(p) => Running(s, p) && p !in s.forks && p != s.init
    case Waits(p) => Running(s, p) && p !in s.forks
    case Sleeps(p, _) => Running(s, p)
    case Wakes(_) => true
    case Kills(_) => true
    case Yields(p) => Running(s, p)
    case Scheduled(p) => p < |s.proc| && s.proc[p].state == RUNNABLE
  }

  ghost predicate Sound(s: System) {
    && s.init < |s.proc| && Live(s.proc[s.init])
    && Pids(s.proc, s.nextpid) && Tree(s.proc, s.init) && Forks(s.proc, s.forks) && Quiet(s.proc)
    && Reports(s.proc, s.nextpid, s.exited, s.reported)
  }

  /** No two slots share a pid other than 0, and a slot in use has one. */
  ghost predicate Pids(t: Table, nextpid: nat) {
    && 0 < nextpid
    && (forall i: nat, j: nat | i < j < |t| && t[i].pid != 0 :: t[i].pid != t[j].pid)
    && (forall i: nat | i < |t| :: t[i].pid < nextpid && (t[i].state != UNUSED ==> t[i].pid != 0))
  }

  /** Every parent is alive, and every process past EMBRYO has one, except init, which has none. */
  ghost predicate Tree(t: Table, init: nat) {
    && (forall i: nat | i < |t| && t[i].parent.Slot? ::
          t[i].state != UNUSED && i != init && t[i].parent.i != i && t[i].parent.i < |t| && Live(t[t[i].parent.i]))
    && (forall i: nat | i < |t| && i != init && (Live(t[i]) || t[i].state == ZOMBIE) :: t[i].parent.Slot?)
  }

  /** The embryos under way belong to live processes. */
  ghost predicate Forks(t: Table, forks: map<nat, Forking>) {
    && (forall p | p in forks :: p < |t| && Live(t[p]) && Pending(t, p, forks[p]))
    && (forall p, q | p in forks && q in forks && forks[p].child == forks[q].child :: p == q)
  }

  ghost predicate Pending(t: Table, p: nat, f: Forking) {
    && f.child < |t| && t[f.child].state == EMBRYO
    && t[f.child].parent == if f.linked then Slot(p) else Nobody
  }

  predicate InWait(p: Process) {
    p.state == SLEEPING && p.chan.OnProc?
  }

  /** No process sleeps in wait while one of its children is a zombie. */
  ghost predicate Quiet(t: Table) {
    && (forall i: nat | i < |t| && InWait(t[i]) :: t[i].chan.i == i)
    && (forall i: nat, j: nat | i < |t| && j < |t| && InWait(t[i]) :: !ZombieChildOf(t[j], i))
  }

  ghost predicate IsZombie(t: Table, pid: nat) {
    exists i: nat :: i < |t| && t[i].state == ZOMBIE && t[i].pid == pid
  }

  /** Every exit is either reported by one wait or still a zombie's, never both. */
  ghost predicate Reports(t: Table, nextpid: nat, exited: seq<nat>, reported: seq<nat>) {
    && NoRepeat(exited) && NoRepeat(reported)
    && (forall x | x in exited :: x < nextpid)
    && (forall x | x in exited :: x in reported || IsZombie(t, x))
    && (forall x | x in reported :: x in exited)
    && (forall i: nat | i < |t| && t[i].state == ZOMBIE :: t[i].pid in exited)
    && (forall i: nat | i < |t| && t[i].state != UNUSED :: t[i].pid !in reported)
    && (forall i: nat | i < |t| && (Live(t[i]) || t[i].state == EMBRYO) :: t[i].pid !in exited)
  }

  ghost function Next(s: System, e: Event): System
    requires Enabled(s, e)
  {
    match e
    case ForkStart(p) =>
      var np := FirstUnused(s.proc, 0);
      if np == |s.proc| then s
      else s.(proc := s.proc[np := Embryo(s.proc[np], s.nextpid)], nextpid := s.nextpid + 1,
              forks := s.forks[p := Forking(np, false)])
    case ForkFails(p) => s.(proc := SetState(s.proc, s.forks[p].child, UNUSED), forks := s.forks - {p})
    case ForkLinks(p) =>
      s.(proc := SetParent(s.proc, s.forks[p].child, Slot(p)), forks := s.forks[p := s.forks[p].(linked := true)])
    case ForkEnds(p) => s.(proc := SetState(s.proc, s.forks[p].child, RUNNABLE), forks := s.forks - {p})
    case Exits(p) => s.(proc := Exited(s.proc, p, s.init), exited := s.exited + [s.proc[p].pid])
    case Waits(p) =>
      var (t, r) := Waited(s.proc, p);
      s.(proc := t, reported := if r.Reaped? then s.reported + [r.pid] else s.reported)
    case Sleeps(p, n) => s.(proc := s.proc[p := s.proc[p].(state := SLEEPING, chan := Other(n))])
    case Wakes(n) => s.(proc := Woken(s.proc, Other(n)))
    case Kills(pid) =>
      var k := FirstPid(s.proc, pid, 0);
      if k == |s.proc| then s else s.(proc := s.proc[k := Killed(s.proc[k])])
    case Yields(p) => s.(proc := s.proc[p := s.proc[p].(state := RUNNABLE)])
    case Scheduled(p) => s.(proc := s.proc[p := s.proc[p].(state := RUNNING, chan := NoChan)])
  }

  function SetState(t: Table, i: nat, state: State): Table {
    if i < |t| then t[i := t[i].(state := state)] else t
  }

  function SetParent(t: Table, i: nat, parent: Link): Table {
    if i < |t| then t[i := t[i].(parent := parent)] else t
  }

  /** The same processes with the same parents; only running, runnable and asleep may have been traded. */
  ghost predicate SameShape(t: Table, t': Table) {
    && |t'| == |t|
    && forall i: nat | i < |t| ::
         && t'[i].pid == t[i].pid && t'[i].parent == t[i].parent
         && (t'[i].state == t[i].state || (Live(t[i]) && Live(t'[i])))
  }

  /** No process has gone to sleep in wait. */
  ghost predicate NoNewWaiter(t: Table, t': Table) {
    |t'| == |t| && forall i: nat | i < |t| && t'[i].state == SLEEPING && t'[i].chan.OnProc? ::
         t[i].state == SLEEPING && t[i].chan == t'[i].chan
  }

  lemma ShapePids(t: Table, t': Table, nextpid: nat)
    requires Pids(t, nextpid) && SameShape(t, t')
    ensures Pids(t', nextpid)
  {
  }

  lemma ShapeTree(t: Table, t': Table, init: nat)
    requires Tree(t, init) && SameShape(t, t')
    ensures Tree(t', init)
  {
  }

  lemma ShapeForks(t: Table, t': Table, forks: map<nat, Forking>)
    requires Forks(t, forks) && SameShape(t, t')
    ensures Forks(t', forks)
  {
  }

  lemma ShapeReports(t: Table, t': Table, nextpid: nat, exited: seq<nat>, reported: seq<nat>)
    requires Reports(t, nextpid, exited, reported) && SameShape(t, t')
    ensures Reports(t', nextpid, exited, reported)
  {
    forall x | IsZombie(t, x) ensures IsZombie(t', x) {
      var i: nat :| i < |t| && t[i].state == ZOMBIE && t[i].pid == x;
      assert t'[i].state == ZOMBIE && t'[i].pid == x;
    }
  }

  lemma ShapeQuiet(t: Table, t': Table)
    requires Quiet(t) && SameShape(t, t') && NoNewWaiter(t, t')
    ensures Quiet(t')
  {
  }

  lemma ShapeSound(s: System, t: Table)
    requires Sound(s) && SameShape(s.proc, t) && Quiet(t)
    ensures Sound(s.(proc := t))
  {
    ShapePids(s.proc, t, s.nextpid);
    ShapeTree(s.proc, t, s.init);
    ShapeForks(s.proc, t, s.forks);
    ShapeReports(s.proc, t, s.nextpid, s.exited, s.reported);
    hide Pids, Tree, Forks, Quiet, Reports;
  }

  /** Sleeping on something else, waking, killing, yielding and scheduling. */
  lemma TradeSound(s: System, e: Event)
    requires Sound(s) && Enabled(s, e) && (e.Sleeps? || e.Wakes? || e.Kills? || e.Yields? || e.Scheduled?)
    ensures Sound(Next(s, e))
  {
    hide Pids, Tree, Forks, Quiet, Reports;
    ShapeQuiet(s.proc, Next(s, e).proc);
    ShapeSound(s, Next(s, e).proc);
  }

  /** What changing one slot must respect. */
  lemma SetPids(t: Table, c: nat, q: Process, nextpid: nat, nextpid': nat)
    requires Pids(t, nextpid) && c < |t| && nextpid <= nextpid' && q.pid < nextpid'
    requires q.pid == t[c].pid || q.pid == nextpid || q.pid == 0
    requires q.state != UNUSED ==> q.pid != 0
    ensures Pids(t[c := q], nextpid')
  {
  }

  lemma SetTree(t: Table, c: nat, q: Process, init: nat)
    requires Tree(t, init) && c < |t| && !Live(t[c]) && c != init
    requires q.parent.Slot? ==> q.state != UNUSED && q.parent.i < |t| && Live(t[q.parent.i])
    requires (Live(q) || q.state == ZOMBIE) ==> q.parent.Slot?
    ensures Tree(t[c := q], init)
  {
  }

  lemma SetForks(t: Table, c: nat, q: Process, forks: map<nat, Forking>)
    requires Forks(t, forks) && c < |t| && !Live(t[c]) && forall p | p in forks :: forks[p].child != c
    ensures Forks(t[c := q], forks)
  {
  }

  lemma SetQuiet(t: Table, c: nat, q: Process)
    requires Quiet(t) && c < |t| && q.state != ZOMBIE && !InWait(q)
    ensures Quiet(t[c := q])
  {
  }

  lemma SetReports(t: Table, c: nat, q: Process, nextpid: nat, nextpid': nat, exited: seq<nat>, reported: seq<nat>)
    requires Reports(t, nextpid, exited, reported) && Pids(t, nextpid) && nextpid <= nextpid'
    requires c < |t| && t[c].state != ZOMBIE && q.state != ZOMBIE
    requires q.state != UNUSED ==> q.pid !in exited
    ensures Reports(t[c := q], nextpid', exited, reported)
  {
    forall x | IsZombie(t, x) ensures IsZombie(t[c := q], x) {
      var i: nat :| i < |t| && t[i].state == ZOMBIE && t[i].pid == x;
      assert t[c := q][i].state == ZOMBIE && t[c := q][i].pid == x;
    }
  }

  lemma UnusedSlot(s: System, c: nat)
    requires Sound(s) && c < |s.proc| && s.proc[c].state == UNUSED
    ensures s.proc[c].parent == Nobody && (forall p | p in s.forks :: s.forks[p].child != c)
    ensures s.nextpid !in s.exited && s.nextpid > 0
  {
  }

  lemma NewFork(t: Table, forks: map<nat, Forking>, p: nat, c: nat)
    requires Forks(t, forks) && p < |t| && Live(t[p]) && p !in forks && Pending(t, p, Forking(c, false))
    requires forall q | q in forks :: forks[q].child != c
    ensures Forks(t, forks[p := Forking(c, false)])
  {
  }

  lemma ForkStartSound(s: System, p: nat)
    requires Sound(s) && Enabled(s, ForkStart(p))
    ensures Sound(Next(s, ForkStart(p)))
  {
    hide Pids, Tree, Forks, Quiet, Reports;
    var t, c := s.proc, FirstUnused(s.proc, 0);
    if c < |t| {
      UnusedSlot(s, c);
      var q := Embryo(t[c], s.nextpid);
      SetPids(t, c, q, s.nextpid, s.nextpid + 1);
      SetTree(t, c, q, s.init);
      SetForks(t, c, q, s.forks);
      NewFork(t[c := q], s.forks, p, c);
      SetQuiet(t, c, q);
      SetReports(t, c, q, s.nextpid, s.nextpid + 1, s.exited, s.reported);
    }
  }

  lemma ForkedSlot(s: System, p: nat)
    requires Sound(s) && p in s.forks
    ensures p < |s.proc| && Live(s.proc[p]) && Pending(s.proc, p, s.forks[p])
    ensures s.proc[s.forks[p].child].pid !in s.exited
    ensures s.proc[s.forks[p].child].pid != 0 && s.proc[s.forks[p].child].pid < s.nextpid && s.forks[p].child != s.init
    ensures Forks(s.proc, s.forks - {p}) && forall q | q in s.forks - {p} :: s.forks[q].child != s.forks[p].child
  {
  }

  lemma LinkFork(t: Table, forks: map<nat, Forking>, p: nat, c: nat)
    requires Forks(t, forks - {p}) && p < |t| && Live(t[p]) && p in forks && forks[p].child == c
    requires Pending(t, p, Forking(c, true))
    requires forall q | q in forks - {p} :: forks[q].child != c
    ensures Forks(t, forks[p := Forking(c, true)])
  {
    forall q | q in forks && q != p ensures q in forks - {p} && (forks - {p})[q] == forks[q] {}
  }

  lemma ForkRestSound(s: System, e: Event)
    requires Sound(s) && Enabled(s, e) && (e.ForkFails? || e.ForkLinks? || e.ForkEnds?)
    ensures Sound(Next(s, e))
  {
    hide Pids, Tree, Forks, Quiet, Reports;
    ForkedSlot(s, e.p);
    var t, c := s.proc, s.forks[e.p].child;
    var q := Next(s, e).proc[c];
    SetPids(t, c, q, s.nextpid, s.nextpid);
    SetTree(t, c, q, s.init);
    SetForks(t, c, q, s.forks - {e.p});
    if e.ForkLinks? {
      LinkFork(t[c := q], s.forks, e.p, c);
    }
    SetQuiet(t, c, q);
    SetReports(t, c, q, s.nextpid, s.nextpid, s.exited, s.reported);
  }

  /** What exit does to the table, slot by slot. */
  ghost predicate ExitFacts(t: Table, r: Table, p: nat, init: nat) {
    && |r| == |t| && p < |t| && r[p].state == ZOMBIE
    && (forall i: nat | i < |t| :: r[i].pid == t[i].pid && r[i].killed == t[i].killed)
    && (forall i: nat | i < |t| && i != p :: r[i].state == t[i].state || (Live(t[i]) && Live(r[i])))
    && (forall i: nat | i < |t| :: r[i].parent == if t[i].parent == Slot(p) then Slot(init) else t[i].parent)
    && (forall i: nat | i < |t| && InWait(r[i]) ::
          && InWait(t[i]) && r[i].chan == t[i].chan && t[i].chan != ParentChannel(t[p])
          && (HasZombie(t, p) ==> t[i].chan != OnProc(init)))
  }

  lemma ExitedFacts(t: Table, p: nat, init: nat)
    requires p < |t| && t[p].state == RUNNING
    ensures ExitFacts(t, Exited(t, p, init), p, init)
  {
  }

  lemma ExitPids(t: Table, r: Table, p: nat, init: nat, nextpid: nat)
    requires Pids(t, nextpid) && ExitFacts(t, r, p, init) && Live(t[p])
    ensures Pids(r, nextpid)
  {
  }

  lemma ExitTree(t: Table, r: Table, p: nat, init: nat)
    requires Tree(t, init) && ExitFacts(t, r, p, init) && Live(t[p]) && p != init < |t| && Live(t[init])
    ensures Tree(r, init)
  {
  }

  lemma ExitForks(t: Table, r: Table, p: nat, init: nat, forks: map<nat, Forking>)
    requires Forks(t, forks) && ExitFacts(t, r, p, init) && Live(t[p]) && p !in forks
    ensures Forks(r, forks)
  {
  }

  lemma ExitQuiet(t: Table, r: Table, p: nat, init: nat)
    requires Quiet(t) && Tree(t, init) && ExitFacts(t, r, p, init) && Live(t[p]) && p != init
    ensures Quiet(r)
  {
  }

  lemma ExitReports(t: Table, r: Table, p: nat, init: nat, nextpid: nat, exited: seq<nat>, reported: seq<nat>)
    requires Reports(t, nextpid, exited, reported) && Pids(t, nextpid) && ExitFacts(t, r, p, init) && Live(t[p])
    ensures Reports(r, nextpid, exited + [t[p].pid], reported)
  {
    forall x | IsZombie(t, x) ensures IsZombie(r, x) {
      var i: nat :| i < |t| && t[i].state == ZOMBIE && t[i].pid == x;
      assert r[i].state == ZOMBIE && r[i].pid == x;
    }
    assert r[p].state == ZOMBIE && r[p].pid == t[p].pid;
    assert forall i: nat | i < |t| && i != p && (Live(r[i]) || r[i].state == EMBRYO) :: r[i].pid != t[p].pid;
  }

  lemma ExitSound(s: System, p: nat)
    requires Sound(s) && Enabled(s, Exits(p))
    ensures Sound(Next(s, Exits(p)))
  {
    hide Pids, Tree, Forks, Quiet, Reports, Exited;
    var t, r := s.proc, Exited(s.proc, p, s.init);
    ExitedFacts(t, p, s.init);
    ExitPids(t, r, p, s.init, s.nextpid);
    ExitTree(t, r, p, s.init);
    ExitForks(t, r, p, s.init, s.forks);
    ExitQuiet(t, r, p, s.init);
    ExitReports(t, r, p, s.init, s.nextpid, s.exited, s.reported);
  }

  lemma ReapReports(t: Table, z: nat, q: Process, nextpid: nat, exited: seq<nat>, reported: seq<nat>)
    requires Reports(t, nextpid, exited, reported) && Pids(t, nextpid)
    requires z < |t| && t[z].state == ZOMBIE && q.state == UNUSED
    ensures Reports(t[z := q], nextpid, exited, reported + [t[z].pid])
  {
    forall x | IsZombie(t, x) && x != t[z].pid ensures IsZombie(t[z := q], x) {
      var i: nat :| i < |t| && t[i].state == ZOMBIE && t[i].pid == x;
      assert t[z := q][i].state == ZOMBIE && t[z := q][i].pid == x;
    }
    assert forall x | x in reported + [t[z].pid] :: x in reported || x == t[z].pid;
  }

  lemma ReapedSlot(s: System, p: nat, z: nat)
    requires Sound(s) && p < |s.proc| && z < |s.proc| && ZombieChildOf(s.proc[z], p)
    ensures forall q | q in s.forks :: s.forks[q].child != z
  {
  }

  lemma ReapSound(s: System, p: nat)
    requires Sound(s) && Enabled(s, Waits(p)) && FirstZombie(s.proc, p, 0) < |s.proc|
    ensures Sound(Next(s, Waits(p)))
  {
    hide Pids, Tree, Forks, Quiet, Reports;
    var t, z := s.proc, FirstZombie(s.proc, p, 0);
    var q := t[z].(state := UNUSED, pid := 0, parent := Nobody, killed := false);
    ReapedSlot(s, p, z);
    PositivePid(t, s.nextpid);
    SetPids(t, z, q, s.nextpid, s.nextpid);
    SetTree(t, z, q, s.init);
    SetForks(t, z, q, s.forks);
    SetQuiet(t, z, q);
    ReapReports(t, z, q, s.nextpid, s.exited, s.reported);
  }

  lemma PositivePid(t: Table, nextpid: nat)
    requires Pids(t, nextpid)
    ensures nextpid > 0
  {
  }

  lemma WaitQuiet(t: Table, p: nat)
    requires Quiet(t) && p < |t| && forall k: nat | k < |t| :: !ZombieChildOf(t[k], p)
    ensures Quiet(t[p := t[p].(state := SLEEPING, chan := OnProc(p))])
  {
  }

  lemma WaitSound(s: System, p: nat)
    requires Sound(s) && Enabled(s, Waits(p))
    ensures Sound(Next(s, Waits(p)))
  {
    hide Pids, Tree, Forks, Quiet, Reports;
    var t := s.proc;
    if FirstZombie(t, p, 0) < |t| {
      ReapSound(s, p);
    } else {
      WaitQuiet(t, p);
      ShapeSound(s, t[p := t[p].(state := SLEEPING, chan := OnProc(p))]);
    }
  }

  lemma SoundStep(s: System, e: Event)
    requires Sound(s) && Enabled(s, e)
    ensures Sound(Next(s, e))
  {
    hide Sound, Next;
    match e {
      case ForkStart(p) => ForkStartSound(s, p);
      case Exits(p) => ExitSound(s, p);
      case Waits(p) => WaitSound(s, p);
      case ForkFails(_) => ForkRestSound(s, e);
      case ForkLinks(_) => ForkRestSound(s, e);
      case ForkEnds(_) => ForkRestSound(s, e);
      case _ => TradeSound(s, e);
    }
  }

  /** The table once userinit is done. */
  ghost predicate Initial(s: System) {
    && |s.proc| == NPROC && s.nextpid == 2 && s.init == 0 && s.forks == map[] && s.exited == [] && s.reported == []
    && s.proc[0] == Process(RUNNABLE, 1, Nobody, NoChan, false, 500)
    && forall i: nat | 0 < i < NPROC :: s.proc[i] == FREE
  }

  ghost predicate IsRun(states: seq<System>, events: seq<Event>) {
    && |states| == |events| + 1 && Initial(states[0])
    && forall k: nat | k < |events| :: Enabled(states[k], events[k]) && states[k + 1] == Next(states[k], events[k])
  }

  lemma InitialSound(s: System)
    requires Initial(s)
    ensures Sound(s)
  {
  }

  /** In every interleaving of any processes' sections the table stays sound. */
  lemma {:induction false} TableStaysSound(states: seq<System>, events: seq<Event>, k: nat)
    requires IsRun(states, events) && k <= |events|
    ensures Sound(states[k])
  {
    hide Sound, Next, Enabled;
    if k == 0 {
      InitialSound(states[0]);
    } else {
      TableStaysSound(states, events, k - 1);
      SoundStep(states[k - 1], events[k - 1]);
    }
  }

  lemma {:induction false} ReportsGrow(states: seq<System>, events: seq<Event>, j: nat, k: nat)
    requires IsRun(states, events) && j <= k <= |events|
    ensures states[j].reported <= states[k].reported
    decreases k
  {
    if j < k {
      ReportsGrow(states, events, j, k - 1);
    }
  }

  /** A wait only reports a process that exited, and no two waits report the same one. */
  lemma ReportedOnce(states: seq<System>, events: seq<Event>, j: nat, k: nat)
    requires IsRun(states, events) && j < k < |events| && events[j].Waits? && events[k].Waits?
    requires Waited(states[j].proc, events[j].p).1.Reaped? && Waited(states[k].proc, events[k].p).1.Reaped?
    ensures Waited(states[j].proc, events[j].p).1.pid != Waited(states[k].proc, events[k].p).1.pid
    ensures Waited(states[k].proc, events[k].p).1.pid in states[k].exited
  {
    hide Pids, Tree, Forks, Quiet;
    var x := Waited(states[j].proc, events[j].p).1.pid;
    ReportsGrow(states, events, j + 1, k);
    assert states[j + 1].reported[|states[j].reported|] == x;
    assert states[k].reported[|states[j].reported|] == x;
    TableStaysSound(states, events, k);
  }

  /** Slots not in use carry no kill, so that a new process starts without one. */
  ghost predicate Clean(t: Table) {
    forall i: nat | i < |t| && t[i].state == UNUSED :: !t[i].killed
  }

  /** kill of a pid that an unused slot has, such as 0, and a fork that fails after its child was killed. */
  ghost predicate Stains(s: System, e: Event) {
    || (e.Kills? && FirstPid(s.proc, e.pid, 0) < |s.proc| && s.proc[FirstPid(s.proc, e.pid, 0)].state == UNUSED)
    || (e.ForkFails? && e.p in s.forks && s.forks[e.p].child < |s.proc| && s.proc[s.forks[e.p].child].killed)
  }

  lemma CleanStep(s: System, e: Event)
    requires Sound(s) && Clean(s.proc) && Enabled(s, e)
    ensures Clean(Next(s, e).proc) <==> !Stains(s, e)
  {
    hide Sound, Clean, Exited;
    match e {
      case Exits(p) => CleanExit(s, p);
      case Kills(pid) => CleanKill(s, pid);
      case ForkFails(p) => CleanFork(s, p);
      case ForkLinks(p) => CleanFork(s, p);
      case _ => CleanOther(s, e);
    }
  }

  lemma CleanOther(s: System, e: Event)
    requires Clean(s.proc) && Enabled(s, e) && !e.Exits? && !e.Kills? && !e.ForkFails? && !e.ForkLinks?
    ensures Clean(Next(s, e).proc)
  {
  }

  lemma CleanExit(s: System, p: nat)
    requires Clean(s.proc) && Enabled(s, Exits(p))
    ensures Clean(Exited(s.proc, p, s.init))
  {
    hide Exited;
    ExitedFacts(s.proc, p, s.init);
  }

  lemma CleanKill(s: System, pid: nat)
    requires Clean(s.proc)
    ensures Clean(Next(s, Kills(pid)).proc) <==> !Stains(s, Kills(pid))
  {
    var k := FirstPid(s.proc, pid, 0);
    if k < |s.proc| {
      assert Next(s, Kills(pid)).proc[k].killed;
    }
  }

  lemma CleanFork(s: System, p: nat)
    requires Sound(s) && Clean(s.proc) && Running(s, p) && p in s.forks && !s.forks[p].linked
    ensures Clean(Next(s, ForkFails(p)).proc) <==> !Stains(s, ForkFails(p))
    ensures Clean(Next(s, ForkLinks(p)).proc)
  {
    hide Pids, Tree, Quiet, Reports;
    var c := s.forks[p].child;
    assert Pending(s.proc, p, s.forks[p]);
    assert Next(s, ForkFails(p)).proc[c] == s.proc[c].(state := UNUSED);
  }

  /** In a run without such steps, unused slots carry no kill at any time, and a fork starts its child
      without one. */
  lemma {:induction false} StaysClean(states: seq<System>, events: seq<Event>, k: nat)
    requires IsRun(states, events) && k <= |events|
    requires forall j: nat | j < k :: !Stains(states[j], events[j])
    ensures Clean(states[k].proc)
    ensures k < |events| && events[k].ForkStart? && events[k].p in states[k + 1].forks ==>
              var c := states[k + 1].forks[events[k].p].child;
              c < |states[k + 1].proc| && !states[k + 1].proc[c].killed
  {
    hide Sound, Stains;
    TableStaysSound(states, events, k);
    if k > 0 {
      StaysClean(states, events, k - 1);
      TableStaysSound(states, events, k - 1);
      CleanStep(states[k - 1], events[k - 1]);
    }
  }

  /** kill(0) marks the first free slot; init's next child takes it and is killed from the start. */
  lemma BornKilled(s: System) returns (s': System)
    requires Initial(s)
    ensures s' == Next(Next(Next(s, Kills(0)), Scheduled(0)), ForkStart(0))
    ensures 0 in s'.forks && s'.proc[s'.forks[0].child].killed
  {
    assert FirstPid(s.proc, 0, 0) == 1;
    var s1 := Next(s, Kills(0));
    var s2 := Next(s1, Scheduled(0));
    assert FirstUnused(s2.proc, 0) == 1;
    s' := Next(s2, ForkStart(0));
  }
}
