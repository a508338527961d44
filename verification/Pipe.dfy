/** Pipes (pipe.c): a ring buffer whose counters wrap at 2^32, shared by processes that sleep and wake.
    A section of code under the pipe's lock is one atomic step; sleeping ends a section. */
module Pipe {
  const PIPESIZE := 512
  const WORDS := 0x1_0000_0000

  type Byte = bv8

  datatype Channel = NREAD | NWRITE

  /** How a section of pipewrite ends: every byte is in, or the call gives up, or it sleeps with the
      first i bytes in. */
  datatype WriteResult = Wrote | WriteFailed | WriteSleeps(i: nat)

  /** How a section of piperead ends. */
  datatype ReadResult = Read(bytes: seq<Byte>) | ReadFailed | ReadSleeps

  /** A pipe as its users see it: the bytes in flight, which ends are open, and who sleeps on what. */
  datatype View = View(queue: seq<Byte>, readopen: bool, writeopen: bool, asleep: map<nat, Channel>)

  function Wakeup(asleep: map<nat, Channel>, chan: Channel): map<nat, Channel> {
    map p | p in asleep && asleep[p] != chan :: asleep[p]
  }

  function Min(a: nat, b: nat): nat {
    if a <= b then a else b
  }

  function Room(queue: seq<Byte>): nat {
    if |queue| <= PIPESIZE then PIPESIZE - |queue| else 0
  }

  /** One section of a write of the given bytes: as many as fit go in; the rest wait for a reader,
      unless there is none or the writer has been killed. */
  function WriteSection(v: View, pid: nat, killed: bool, bytes: seq<Byte>): (View, WriteResult) {
    var k := Min(|bytes|, Room(v.queue));
    var w := v.(queue := v.queue + bytes[..k]);
    if k == |bytes| then (w.(asleep := Wakeup(v.asleep, NREAD)), Wrote)
    else if !v.readopen || killed then (w, WriteFailed)
    else (w.(asleep := Wakeup(v.asleep, NREAD)[pid := NWRITE]), WriteSleeps(k))
  }

  /** One section of a read of at most n bytes. */
  function ReadSection(v: View, pid: nat, killed: bool, n: nat): (View, ReadResult) {
    if v.queue == [] && v.writeopen then
      if killed then (v, ReadFailed) else (v.(asleep := v.asleep[pid := NREAD]), ReadSleeps)
    else
      var k := Min(n, |v.queue|);
      (v.(queue := v.queue[k..], asleep := Wakeup(v.asleep, NWRITE)), Read(v.queue[..k]))
  }

  function CloseSection(v: View, writable: bool): View {
    if writable then v.(writeopen := false, asleep := Wakeup(v.asleep, NREAD))
    else v.(readopen := false, asleep := Wakeup(v.asleep, NWRITE))
  }

  /** The ring buffer holds the bytes in flight, from nread on. */
  ghost predicate Holds(data: seq<Byte>, nread: nat, queue: seq<Byte>) {
    |data| == PIPESIZE && |queue| <= PIPESIZE && forall k: nat | k < |queue| :: data[(nread + k) % PIPESIZE] == queue[k]
  }

  /** struct pipe, with the processes that sleep on it. */
  class Pipe {
    const data: array<Byte>
    var nread: nat
    var nwrite: nat
    var readopen: bool
    var writeopen: bool
    var asleep: map<nat, Channel>
    ghost var queue: seq<Byte>

    ghost predicate Valid()
      reads this, data
    {
      && nread < WORDS && |queue| <= PIPESIZE && nwrite == (nread + |queue|) % WORDS
      && Holds(data[..], nread, queue)
    }

    ghost function Shown(): View
      reads this
    {
      View(queue, readopen, writeopen, asleep)
    }

    /** pipealloc's new pipe. */
    constructor ()
      ensures Valid() && Shown() == View([], true, true, map[]) && fresh(data)
    {
      data := new Byte[PIPESIZE];
      nread, nwrite, readopen, writeopen, asleep := 0, 0, true, true, map[];
      queue := [];
    }

    /** p->data[p->nwrite++ % PIPESIZE] = b */
    method Put(b: Byte)
      requires Valid() && |queue| < PIPESIZE
      modifies this`nwrite, this`queue, data
      ensures Valid() && queue == old(queue) + [b]
    {
      PutHolds(data[..], nread, queue, b);
      WrapIndex(nread + |queue|);
      data[nwrite % PIPESIZE] := b;
      nwrite := (nwrite + 1) % WORDS;
      queue := queue + [b];
      assert data[..] == old(data[..])[(old(nread) + |old(queue)|) % PIPESIZE := b];
    }

    /** p->data[p->nread++ % PIPESIZE] */
    method Get() returns (b: Byte)
      requires Valid() && queue != []
      modifies this`nread, this`queue
      ensures Valid() && [b] + queue == old(queue)
    {
      GetHolds(data[..], nread, queue);
      NextCount(nread, |queue|);
      b := data[nread % PIPESIZE];
      nread := (nread + 1) % WORDS;
      queue := queue[1..];
    }

    /** pipewrite, from its start or from the return of its sleep to its return or its next sleep;
        addr is what is left to write. */
    method PipeWrite(pid: nat, killed: bool, addr: seq<Byte>) returns (r: WriteResult)
      requires Valid()
      modifies this, data
      ensures Valid()
      ensures (Shown(), r) == WriteSection(old(Shown()), pid, killed, addr)
    {
      hide Holds, Wakeup;
      var i := 0;
      while i < |addr|
        invariant i <= |addr| && Valid() && i <= Room(old(queue))
        invariant queue == old(queue) + addr[..i]
        invariant readopen == old(readopen) && writeopen == old(writeopen) && asleep == old(asleep)
      {
        FullIsFull(nread, |queue|);
        if nwrite == (nread + PIPESIZE) % WORDS {
          if !readopen || killed {
            return WriteFailed;
          }
          asleep := Wakeup(asleep, NREAD);
          asleep := asleep[pid := NWRITE];
          return WriteSleeps(i);
        }
        Put(addr[i]);
        i := i + 1;
      }
      asleep := Wakeup(asleep, NREAD);
      return Wrote;
    }

    /** piperead, from its start or from the return of its sleep to its return or its next sleep. */
    method PipeRead(pid: nat, killed: bool, n: nat) returns (r: ReadResult)
      requires Valid()
      modifies this
      ensures Valid()
      ensures (Shown(), r) == ReadSection(old(Shown()), pid, killed, n)
    {
      hide Holds, Wakeup;
      EmptyIsEmpty(nread, |queue|);
      if nread == nwrite && writeopen {
        if killed {
          return ReadFailed;
        }
        asleep := asleep[pid := NREAD];
        return ReadSleeps;
      }
      var bytes := [];
      while |bytes| < n
        invariant |bytes| <= n && Valid() && bytes + queue == old(queue)
        invariant readopen == old(readopen) && writeopen == old(writeopen) && asleep == old(asleep)
      {
        EmptyIsEmpty(nread, |queue|);
        if nread == nwrite {
          break;
        }
        ghost var q := queue;
        var b := Get();
        assert bytes + q == bytes + [b] + queue;
        bytes := bytes + [b];
      }
      asleep := Wakeup(asleep, NWRITE);
      return Read(bytes);
    }

    /** pipeclose; freed says that the pipe's page went back to the allocator. */
    method PipeClose(writable: bool) returns (freed: bool)
      requires Valid()
      modifies this
      ensures Valid() && Shown() == CloseSection(old(Shown()), writable)
      ensures freed <==> !readopen && !writeopen
    {
      if writable {
        writeopen := false;
        asleep := Wakeup(asleep, NREAD);
      } else {
        readopen := false;
        asleep := Wakeup(asleep, NWRITE);
      }
      freed := !readopen && !writeopen;
    }
  }

  /** Both tests on the wrapping counters are exact, and so is indexing with them: 512 divides 2^32. */
  lemma FullIsFull(nread: nat, n: nat)
    requires nread < WORDS && n <= PIPESIZE
    ensures (nread + n) % WORDS == (nread + PIPESIZE) % WORDS <==> n == PIPESIZE
  {
    if nread + n >= WORDS {
      assert (nread + n) % WORDS == nread + n - WORDS;
    }
  }

  lemma EmptyIsEmpty(nread: nat, n: nat)
    requires nread < WORDS && n <= PIPESIZE
    ensures nread == (nread + n) % WORDS <==> n == 0
  {
    if nread + n >= WORDS {
      assert (nread + n) % WORDS == nread + n - WORDS;
    }
  }

  lemma WrapIndex(x: nat)
    ensures (x % WORDS) % PIPESIZE == x % PIPESIZE
    ensures (x % WORDS + 1) % WORDS == (x + 1) % WORDS
  {
    assert x == (x / WORDS) * 0x80_0000 * PIPESIZE + x % WORDS;
    ModMultiple(x % WORDS, (x / WORDS) * 0x80_0000);
  }

  lemma {:induction false} ModMultiple(y: nat, m: nat)
    ensures (m * PIPESIZE + y) % PIPESIZE == y % PIPESIZE
  {
    if m > 0 {
      ModMultiple(y, m - 1);
      assert m * PIPESIZE + y == (m - 1) * PIPESIZE + y + PIPESIZE;
    }
  }

  lemma PutHolds(data: seq<Byte>, nread: nat, queue: seq<Byte>, b: Byte)
    requires Holds(data, nread, queue) && |queue| < PIPESIZE
    ensures Holds(data[(nread + |queue|) % PIPESIZE := b], nread, queue + [b])
  {
    var at := (nread + |queue|) % PIPESIZE;
    forall k: nat | k < |queue| ensures data[at := b][(nread + k) % PIPESIZE] == queue[k] {
      ModApart(nread + k, |queue| - k);
    }
  }

  lemma ModApart(x: nat, gap: nat)
    requires 0 < gap < PIPESIZE
    ensures x % PIPESIZE != (x + gap) % PIPESIZE
  {
  }

  lemma GetHolds(data: seq<Byte>, nread: nat, queue: seq<Byte>)
    requires Holds(data, nread, queue) && queue != [] && nread < WORDS
    ensures data[nread % PIPESIZE] == queue[0]
    ensures Holds(data, (nread + 1) % WORDS, queue[1..])
  {
    assert data[(nread + 0) % PIPESIZE] == queue[0];
    forall k: nat | k < |queue| - 1 ensures data[((nread + 1) % WORDS + k) % PIPESIZE] == queue[1..][k] {
      NextIndex(nread, k);
      assert queue[1..][k] == queue[k + 1];
    }
  }

  lemma NextIndex(nread: nat, k: nat)
    requires nread < WORDS
    ensures ((nread + 1) % WORDS + k) % PIPESIZE == (nread + (k + 1)) % PIPESIZE
  {
    if nread + 1 == WORDS {
      ModMultiple(k, 0x80_0000);
    }
  }

  lemma NextCount(nread: nat, n: nat)
    requires nread < WORDS && 0 < n <= PIPESIZE
    ensures (nread + n) % WORDS == ((nread + 1) % WORDS + (n - 1)) % WORDS
  {
  }

  /** A call some process is in the middle of. */
  datatype Call = Writing(left: seq<Byte>) | Reading(n: nat)

  /** A pipe and its users. written and taken are all the bytes that ever went in and came out. */
  datatype System = System(view: View, calls: map<nat, Call>, written: seq<Byte>, taken: seq<Byte>)

  const START := System(View([], true, true, map[]), map[], [], [])

  datatype Event =
    | Start(pid: nat, call: Call)        // a process enters pipewrite or piperead
    | Run(pid: nat, killed: bool)        // its next section runs
    | Kill(pid: nat)                     // kill(): a sleeper wakes
    | Close(writable: bool)              // the last descriptor for one end goes away

  /** A process uses an end that is open, makes one call at a time, and an end is closed only once no
      call is using it: a process in a call holds its descriptor. */
  ghost predicate Enabled(s: System, e: Event) {
    match e
    case Start(pid, call) => pid !in s.calls && (if call.Writing? then s.view.writeopen else s.view.readopen)
    case Run(pid, _) => pid in s.calls && pid !in s.view.asleep
    case Kill(_) => true
    case Close(writable) =>
      && (if writable then s.view.writeopen else s.view.readopen)
      && forall p | p in s.calls :: s.calls[p].Writing? != writable
  }

  ghost function Next(s: System, e: Event): System
    requires Enabled(s, e)
  {
    match e
    case Start(pid, call) => s.(calls := s.calls[pid := call])
    case Run(pid, killed) => if s.calls[pid].Writing? then RunWrite(s, pid, killed) else RunRead(s, pid, killed)
    case Kill(pid) => s.(view := s.view.(asleep := s.view.asleep - {pid}))
    case Close(writable) => s.(view := CloseSection(s.view, writable))
  }

  function RunWrite(s: System, pid: nat, killed: bool): System
    requires pid in s.calls && s.calls[pid].Writing?
  {
    var left := s.calls[pid].left;
    var (v, r) := WriteSection(s.view, pid, killed, left);
    System(v, if r.WriteSleeps? then s.calls[pid := Writing(left[r.i..])] else s.calls - {pid},
           s.written + v.queue[|s.view.queue|..], s.taken)
  }

  function RunRead(s: System, pid: nat, killed: bool): System
    requires pid in s.calls && s.calls[pid].Reading?
  {
    var (v, r) := ReadSection(s.view, pid, killed, s.calls[pid].n);
    System(v, if r.ReadSleeps? then s.calls else s.calls - {pid}, s.written, s.taken + if r.Read? then r.bytes else [])
  }

  /** What holds at every moment: the pipe is a bounded queue, a process in a call has its end open, and
      a writer that sleeps has a full pipe and an open reader to wait for. */
  ghost predicate Sound(s: System) {
    InOrder(s) && Waits(s)
  }

  ghost predicate InOrder(s: System) {
    s.written == s.taken + s.view.queue && |s.view.queue| <= PIPESIZE
  }

  ghost predicate Waits(s: System) {
    && (forall p | p in s.calls :: if s.calls[p].Writing? then s.view.writeopen else s.view.readopen)
    && (forall p | p in s.view.asleep :: p in s.calls && (s.calls[p].Writing? <==> s.view.asleep[p] == NWRITE))
    && (forall p | p in s.view.asleep && s.view.asleep[p] == NWRITE :: |s.view.queue| == PIPESIZE && s.view.readopen)
  }

  ghost predicate ReaderAsleep(s: System) {
    exists p :: p in s.view.asleep && s.view.asleep[p] == NREAD
  }

  /** A reader that sleeps has nothing to read and a writer to wait for. */
  ghost predicate Quiet(s: System) {
    ReaderAsleep(s) ==> s.view.queue == [] && s.view.writeopen
  }

  /** A killed writer fills the pipe and has bytes left over, while a reader sleeps: pipewrite then
      returns without a wakeup. */
  ghost predicate Overruns(s: System, e: Event) {
    && e.Run? && e.killed && e.pid in s.calls && s.calls[e.pid].Writing? && |s.calls[e.pid].left| > PIPESIZE
    && ReaderAsleep(s)
  }

  lemma SoundStep(s: System, e: Event)
    requires Sound(s) && Enabled(s, e)
    ensures Sound(Next(s, e)) && s.written <= Next(s, e).written && s.taken <= Next(s, e).taken
  {
    if e.Run? {
      if s.calls[e.pid].Writing? {
        SoundWrite(s, e.pid, e.killed);
      } else {
        SoundRead(s, e.pid, e.killed);
      }
    }
  }

  lemma SoundWrite(s: System, pid: nat, killed: bool)
    requires Sound(s) && pid in s.calls && s.calls[pid].Writing? && pid !in s.view.asleep
    ensures Sound(RunWrite(s, pid, killed)) && s.written <= RunWrite(s, pid, killed).written
  {
    WriteInOrder(s, pid, killed);
    hide InOrder;
  }

  lemma WriteInOrder(s: System, pid: nat, killed: bool)
    requires InOrder(s) && pid in s.calls && s.calls[pid].Writing?
    ensures InOrder(RunWrite(s, pid, killed)) && s.written <= RunWrite(s, pid, killed).written
  {
    var v := WriteSection(s.view, pid, killed, s.calls[pid].left).0;
    assert s.view.queue + v.queue[|s.view.queue|..] == v.queue;
    assert s.taken + s.view.queue + v.queue[|s.view.queue|..] == s.taken + v.queue;
  }

  lemma SoundRead(s: System, pid: nat, killed: bool)
    requires Sound(s) && pid in s.calls && s.calls[pid].Reading? && pid !in s.view.asleep
    ensures Sound(RunRead(s, pid, killed)) && s.taken <= RunRead(s, pid, killed).taken
  {
    var k := Min(s.calls[pid].n, |s.view.queue|);
    assert s.view.queue[..k] + s.view.queue[k..] == s.view.queue;
    assert s.taken + s.view.queue[..k] + s.view.queue[k..] == s.taken + s.view.queue;
  }

  /** The sleeping reader's invariant survives every step but one kind, and fails after each of those. */
  lemma QuietStep(s: System, e: Event)
    requires Sound(s) && Quiet(s) && Enabled(s, e)
    ensures Quiet(Next(s, e)) <==> !Overruns(s, e)
  {
    var s' := Next(s, e);
    if Overruns(s, e) {
      var p :| p in s.view.asleep && s.view.asleep[p] == NREAD;
      assert p in s'.view.asleep && s'.view.asleep[p] == NREAD;
    }
  }

  /** A run from a new pipe: every interleaving of any number of processes. */
  ghost predicate IsRun(states: seq<System>, events: seq<Event>) {
    && |states| == |events| + 1 && states[0] == START
    && forall k: nat | k < |events| :: Enabled(states[k], events[k]) && states[k + 1] == Next(states[k], events[k])
  }

  /** Under every interleaving: what was read is the beginning of what was written, at most PIPESIZE
      bytes lie between, and a sleeping writer faces a full pipe whose reader is open. */
  lemma {:induction false} BoundedFifo(states: seq<System>, events: seq<Event>, k: nat)
    requires IsRun(states, events) && k <= |events|
    ensures Sound(states[k])
    ensures states[k].taken <= states[k].written && |states[k].written| - |states[k].taken| <= PIPESIZE
  {
    if k > 0 {
      BoundedFifo(states, events, k - 1);
      SoundStep(states[k - 1], events[k - 1]);
    }
  }

  /** No wakeup is lost in a run without overruns; then a reader and a writer never sleep at once. */
  lemma {:induction false} NoLostWakeup(states: seq<System>, events: seq<Event>, k: nat)
    requires IsRun(states, events) && k <= |events|
    requires forall j: nat | j < |events| :: !Overruns(states[j], events[j])
    ensures Quiet(states[k])
    ensures ReaderAsleep(states[k]) ==> forall p | p in states[k].view.asleep :: states[k].view.asleep[p] == NREAD
  {
    BoundedFifo(states, events, k);
    if k > 0 {
      NoLostWakeup(states, events, k - 1);
      BoundedFifo(states, events, k - 1);
      QuietStep(states[k - 1], events[k - 1]);
    }
  }

  /** A read that returns nothing though it asked for something means the end of the stream: no writer
      is left, and every byte ever written has been read. */
  lemma EndOfFile(states: seq<System>, events: seq<Event>, k: nat)
    requires IsRun(states, events) && k < |events| && events[k].Run? && states[k].calls[events[k].pid].Reading?
    requires states[k].calls[events[k].pid].n > 0
    requires ReadSection(states[k].view, events[k].pid, events[k].killed, states[k].calls[events[k].pid].n).1 ==
               Read([])
    ensures !states[k].view.writeopen && states[k].taken == states[k].written
  {
    BoundedFifo(states, events, k);
  }

  /** A reader sleeps, then a killed writer of 513 bytes stores 512 of them and returns: the reader
      sleeps on beside a full pipe. */
  lemma LostWakeup(bytes: seq<Byte>) returns (states: seq<System>, events: seq<Event>)
    requires |bytes| == PIPESIZE + 1
    ensures IsRun(states, events) && ReaderAsleep(states[|events|])
    ensures |states[|events|].view.queue| == PIPESIZE && states[|events|].view.writeopen
    ensures states[|events|].calls.Keys == {0}
  {
    events := [Start(0, Reading(1)), Run(0, false), Start(1, Writing(bytes)), Run(1, true)];
    var s1 := Next(START, events[0]);
    var s2 := Next(s1, events[1]);
    var s3 := Next(s2, events[2]);
    var s4 := Next(s3, events[3]);
    states := [START, s1, s2, s3, s4];
    assert 0 in s4.view.asleep && s4.view.asleep[0] == NREAD;
  }
}
