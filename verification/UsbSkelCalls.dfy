/** What the calls of the USB skeleton driver do: the step of a read that hands data over, in any run, and whole
    calls of a thread that nothing comes between. */
module UsbSkelCalls {
  import opened Bytes
  import opened UsbSkel
  import opened UsbSkelSafety

  // ---- Handing data over ------------------------------------------------------------------------------------

  /** In any run, a read that has come as far as the data hands over the next bytes that are unread, as many as it
      may, and starts a transfer for the rest exactly if it was left short; with nothing unread it starts one for all
      it wants, and will look again. */
  lemma ReadHandsOver(states: seq<State>, steps: seq<Step>, i: nat, t: Tid, c: Call)
    requires IsRun(states, steps) && i < |steps| && steps[i].Thread? && steps[i].t == t
    requires t in states[i].threads && states[i].threads[t] == ReadData(c)
    ensures var s, r := states[i], states[i + 1];
      var d, e := s.sys.dev, r.sys.dev;
      && d.copied <= d.filled <= |d.buffer| && e.buffer == d.buffer && e.filled == d.filled
      && var unread := d.filled - d.copied;
         var n := if unread < c.count then unread else c.count;
         && e.copied == d.copied + n
         && r.sys.consumed == s.sys.consumed + d.buffer[d.copied..d.copied + n]
         && r.threads == s.threads[t := if unread == 0 then IoBegin(c, c.count, true)
                                        else if unread < c.count then IoBegin(c, c.count - n, false)
                                        else ReadUnlock(c)]
  {
    RunInv(states, steps, i);
    StepOf(states, steps, i + 1);
    var d := states[i].sys.dev;
    assert d.copied == d.filled ==> states[i].sys.consumed + d.buffer[d.copied..d.copied] == states[i].sys.consumed;
  }

  /** In any run, a transfer that ends without error leaves its data at the front of the buffer, as all that is there;
      one that fails leaves its status as the error.  Either way the URB is idle again. */
  lemma ReadArrives(states: seq<State>, steps: seq<Step>, i: nat)
    requires IsRun(states, steps) && i < |steps| && steps[i].ReadCompletes?
    ensures var s, r, n := states[i].sys, states[i + 1].sys, |steps[i].data|;
      && s.readUrb.Active? && n <= s.readUrb.length && r.readUrb == Idle && !r.dev.ongoingRead
      && n <= |r.dev.buffer| == |s.dev.buffer| && r.dev.buffer[..n] == steps[i].data && r.dev.copied == 0
      && r.dev.filled == (if steps[i].status == 0 then n else 0)
      && r.dev.errors == (if steps[i].status == 0 then s.dev.errors else steps[i].status)
      && states[i + 1].threads == states[i].threads
  {
    RunInv(states, steps, i);
    StepOf(states, steps, i + 1);
  }

  /** In any run, a write that ends gives its credit back and its buffer up, and a failure is stored. */
  lemma WriteArrives(states: seq<State>, steps: seq<Step>, i: nat)
    requires IsRun(states, steps) && i < |steps| && steps[i].WriteCompletes?
    ensures var s, r, b := states[i].sys, states[i + 1].sys, steps[i].buf;
      && b in s.writes && r.writes == s.writes - {b} && r.live == s.live - {b} && r.freed == s.freed + multiset{b}
      && r.dev.limitSem == s.dev.limitSem + 1
      && r.dev.errors == (if steps[i].status == 0 then s.dev.errors else steps[i].status)
      && states[i + 1].threads == states[i].threads
  {
    StepOf(states, steps, i + 1);
  }

  /** In any run, opening adds one reference and the handle, and releasing takes both away. */
  lemma OpenCounts(states: seq<State>, steps: seq<Step>, i: nat)
    requires IsRun(states, steps) && i < |steps|
    ensures steps[i].Thread? && steps[i].ok && steps[i].t in states[i].threads && states[i].threads[steps[i].t].OpenGet? ==>
      && steps[i].h !in states[i].sys.handles && states[i + 1].sys.handles == states[i].sys.handles + {steps[i].h}
      && states[i + 1].sys.dev.kref == states[i].sys.dev.kref + 1
    ensures steps[i].Release? ==>
      && steps[i].h in states[i].sys.handles && states[i + 1].sys.handles == states[i].sys.handles - {steps[i].h}
      && states[i + 1].sys.dev.kref + 1 == states[i].sys.dev.kref
  {
    StepOf(states, steps, i + 1);
  }

  // ---- What can happen -------------------------------------------------------------------------------------------

  /** In any reachable state: any transfer in flight can end, with any error or with any data that fits; a handle can be
      released when no call on it is under way; calls can begin on handles that are open, and skel_open until the
      interface goes. */
  lemma CanHappen(states: seq<State>, steps: seq<Step>, i: nat, step: Step)
    requires IsRun(states, steps) && i < |states|
    ensures var s := states[i];
      match step
      case ReadCompletes(status, data) =>
        Apply(s, step).Some? <==> s.sys.readUrb.Active? && status <= 0 && |data| <= s.sys.readUrb.length
      case WriteCompletes(status, buf) => Apply(s, step).Some? <==> buf in s.sys.writes && status <= 0
      case Release(h) =>
        Apply(s, step).Some? <==>
          h in s.sys.handles && forall t :: t in s.threads && !s.threads[t].OpenGet? ==> s.threads[t].c.h != h
      case Start(t, OpenGet) => Apply(s, step).Some? <==> t !in s.threads && !s.sys.core.Disconnecting()
      case Start(t, pc) =>
        Apply(s, step).Some? <==> t !in s.threads && pc.c.h in s.sys.handles && pc.c.count > 0
                                  && (pc == ReadLock(pc.c) || pc == WriteDown(pc.c) || pc == FlushLock(pc.c))
      case _ => true
  {
    RunInv(states, steps, i);
    if step.Release? && step.h in states[i].sys.handles {
      assert |states[i].sys.handles| > 0;
    }
  }

  /** What a thread waits for. */
  predicate Waits(s: Shared, pc: Pc, h: Handle) {
    match pc
    case OpenGet => h in s.handles
    case ReadLock(_) => s.dev.ioMutex != Nobody
    case ReadWait(_) => s.dev.ongoingRead
    case WriteDown(_) => s.dev.limitSem == 0
    case WriteLock(_, _) => s.dev.ioMutex != Nobody
    case FlushLock(_) => s.dev.ioMutex != Nobody
    case FlushWrites(_) => s.writes != {}
    case FlushRead(_) => s.readUrb != Idle
    case _ => false
  }

  /** A thread waits for the mutex, a credit or the end of transfers, and for nothing else. */
  lemma ThreadWaits(s: State, t: Tid, h: Handle)
    requires t in s.threads
    ensures Apply(s, Thread(t, true, h)) == None <==> Waits(s.sys, s.threads[t], h)
    ensures Apply(s, Thread(t, false, h)) == None ==> Waits(s.sys, s.threads[t], h)
  {
    var pc := s.threads[t];
    if pc.OpenGet? {}
    else if pc.ReadData? {}
    else if pc.Quiet() {}
    else if pc.Reading() {}
    else if pc.Submitting() {}
    else if pc.Writing() {}
    else {}
  }

  /** The core waits for threads inside skel_open, the mutex and the end of transfers, and for nothing else until the
      device is gone. */
  lemma CoreWaits(states: seq<State>, steps: seq<Step>, i: nat, disconnect: bool)
    requires IsRun(states, steps) && i < |states|
    ensures var s := states[i].sys;
      Apply(states[i], CoreStep(disconnect)) == None <==>
        || s.core.Gone?
        || (s.core.DiscDeregister? && exists t :: t in states[i].threads && states[i].threads[t].OpenGet?)
        || ((s.core.DiscLock? || s.core.ResetLock?) && s.dev.ioMutex != Nobody)
        || ((s.core.DiscKillRead? || s.core.ResetRead?) && s.readUrb != Idle)
        || ((s.core.DiscKillWrites? || s.core.ResetWrites?) && s.writes != {})
  {
    RunInv(states, steps, i);
  }

  // ---- Calls that nothing comes between ---------------------------------------------------------------------

  /** The next n moves of thread t, where ok says what succeeds of what a statement asks for. */
  function Course(s: Shared, t: Tid, pc: Pc, ok: Pc -> bool, n: nat): Option<Move>
    decreases n
  {
    if n == 0 then Go(s, pc)
    else
      var m := ThreadMove(s, t, pc, ok(pc), 0);
      if m.None? || m.value.next.None? then (if n == 1 then m else None)
      else Course(m.value.sys, t, m.value.next.value, ok, n - 1)
  }

  /** The call ends, and leaves r. */
  ghost predicate Ends(s: Shared, t: Tid, pc: Pc, ok: Pc -> bool, r: Shared) {
    exists n: nat :: Course(s, t, pc, ok, n) == Return(r)
  }

  /** The call comes to this statement, with r. */
  ghost predicate Comes(s: Shared, t: Tid, pc: Pc, ok: Pc -> bool, r: Shared, to_: Pc) {
    exists n: nat :: Course(s, t, pc, ok, n) == Go(r, to_)
  }

  lemma Last(s: Shared, t: Tid, pc: Pc, ok: Pc -> bool, r: Shared)
    requires ThreadMove(s, t, pc, ok(pc), 0) == Return(r)
    ensures Ends(s, t, pc, ok, r)
  {
    assert Course(s, t, pc, ok, 1) == Return(r);
  }

  lemma There(s: Shared, t: Tid, pc: Pc, ok: Pc -> bool)
    ensures Comes(s, t, pc, ok, s, pc)
  {
    assert Course(s, t, pc, ok, 0) == Go(s, pc);
  }

  lemma Next(s: Shared, t: Tid, pc: Pc, ok: Pc -> bool, m: Shared, next: Pc, n: nat)
    requires ThreadMove(s, t, pc, ok(pc), 0) == Go(m, next)
    ensures Course(s, t, pc, ok, n + 1) == Course(m, t, next, ok, n)
  {
  }

  /** Whatever the call comes to from (m, next), it comes to from (s, pc). */
  ghost predicate Leads(s: Shared, t: Tid, pc: Pc, ok: Pc -> bool, m: Shared, next: Pc) {
    && (forall r :: Ends(m, t, next, ok, r) ==> Ends(s, t, pc, ok, r))
    && (forall r, to_ :: Comes(m, t, next, ok, r, to_) ==> Comes(s, t, pc, ok, r, to_))
  }

  /** One move. */
  lemma On(s: Shared, t: Tid, pc: Pc, ok: Pc -> bool, m: Shared, next: Pc)
    requires ThreadMove(s, t, pc, ok(pc), 0) == Go(m, next)
    ensures Leads(s, t, pc, ok, m, next)
  {
    forall r | Ends(m, t, next, ok, r) ensures Ends(s, t, pc, ok, r) {
      var n: nat :| Course(m, t, next, ok, n) == Return(r);
      Next(s, t, pc, ok, m, next, n);
    }
    forall r, to_ | Comes(m, t, next, ok, r, to_) ensures Comes(s, t, pc, ok, r, to_) {
      var n: nat :| Course(m, t, next, ok, n) == Go(r, to_);
      Next(s, t, pc, ok, m, next, n);
    }
  }

  predicate AllWell(pc: Pc) { true }

  /** usb_submit_urb takes the URB, or does not. */
  function Submits(yes: bool): Pc -> bool {
    (pc: Pc) => yes || (!pc.IoSubmit? && !pc.WriteSubmit?)
  }

  predicate NoPatience(pc: Pc) { !pc.ReadWait? }

  predicate NoMemory(pc: Pc) { !pc.WriteAlloc? }

  predicate NoData(pc: Pc) { !pc.WriteCopy? }

  /** The device is free and connected. */
  predicate Free(s: Shared) {
    s.dev.ioMutex == Nobody && !s.dev.disconnected
  }

  // ---- A whole read -----------------------------------------------------------------------------------------

  /** A read on a free device comes to its look at the errors, or finds a transfer under way. */
  lemma ReadStarts(s: Shared, t: Tid, c: Call, ok: Pc -> bool)
    requires Free(s) && ok(ReadLock(c))
    ensures Leads(s, t, ReadLock(c), ok, s.Lock(Held(t)),
                  if !s.dev.ongoingRead then ReadErrors(c) else if c.nonblock then ReadUnlock(c) else ReadWait(c))
  {
    var l := s.Lock(Held(t));
    On(s, t, ReadLock(c), ok, l, ReadCheck(c));
    On(l, t, ReadCheck(c), ok, l, ReadTest(c));
    On(l, t, ReadTest(c), ok, l, if !s.dev.ongoingRead then ReadErrors(c) else if c.nonblock then ReadUnlock(c) else ReadWait(c));
  }

  lemma ReadStops(s: Shared, t: Tid, c: Call, ok: Pc -> bool)
    ensures Ends(s, t, ReadUnlock(c), ok, s.Lock(Nobody))
  {
    Last(s, t, ReadUnlock(c), ok, s.Lock(Nobody));
  }

  /** A disconnected device is left alone. */
  lemma ReadGone(s: Shared, t: Tid, c: Call)
    requires s.dev.ioMutex == Nobody && s.dev.disconnected
    ensures Ends(s, t, ReadLock(c), AllWell, s)
  {
    var l := s.Lock(Held(t));
    ReadStops(l, t, c, AllWell);
    On(l, t, ReadCheck(c), AllWell, l, ReadUnlock(c));
    On(s, t, ReadLock(c), AllWell, l, ReadCheck(c));
  }

  /** With a transfer under way a nonblocking read returns at once, and another one waits for it with the mutex held, or
      until a signal, which changes nothing either. */
  lemma ReadUnderWay(s: Shared, t: Tid, c: Call)
    requires Free(s) && s.dev.ongoingRead
    ensures c.nonblock ==> Ends(s, t, ReadLock(c), AllWell, s)
    ensures !c.nonblock ==> Comes(s, t, ReadLock(c), AllWell, s.Lock(Held(t)), ReadWait(c))
    ensures !c.nonblock ==> Ends(s, t, ReadLock(c), NoPatience, s)
    ensures ThreadMove(s.Lock(Held(t)), t, ReadWait(c), true, 0) == None
  {
    var l := s.Lock(Held(t));
    ReadStarts(s, t, c, AllWell);
    ReadStarts(s, t, c, NoPatience);
    ReadStops(l, t, c, AllWell);
    ReadStops(l, t, c, NoPatience);
    There(l, t, ReadWait(c), AllWell);
    On(l, t, ReadWait(c), NoPatience, l, ReadUnlock(c));
  }

  /** Once the transfer is over, a read that waited goes on as one that did not have to. */
  lemma ReadWaited(s: Shared, t: Tid, c: Call)
    requires !s.dev.ongoingRead
    ensures Leads(s, t, ReadWait(c), AllWell, s, ReadErrors(c))
  {
    On(s, t, ReadWait(c), AllWell, s, ReadErrors(c));
  }

  /** An error that is stored is told and cleared, and nothing else happens. */
  lemma ReadError(s: Shared, t: Tid, c: Call)
    requires Free(s) && !s.dev.ongoingRead && s.dev.errors < 0
    ensures Ends(s, t, ReadLock(c), AllWell, s.Tell(s.stored, s.dev.errors))
  {
    var l := s.Lock(Held(t));
    var m := l.Tell(s.stored, s.dev.errors);
    ReadStarts(s, t, c, AllWell);
    ReadStops(m, t, c, AllWell);
    On(l, t, ReadClear(c, s.dev.errors, s.stored), AllWell, m, ReadUnlock(c));
    On(l, t, ReadErrors(c), AllWell, l, ReadClear(c, s.dev.errors, s.stored));
    assert m.Lock(Nobody) == s.Tell(s.stored, s.dev.errors);
  }

  /** n more bytes of the buffer are handed over. */
  function Handed(s: Shared, n: nat): Shared
    requires s.dev.copied + n <= |s.dev.buffer|
  {
    s.(dev := s.dev.(copied := s.dev.copied + n), consumed := s.consumed + s.dev.buffer[s.dev.copied..s.dev.copied + n])
  }

  /** The read buffer is given up for a transfer of n bytes, or as many as it has room for, which is started or not. */
  function Transfer(s: Shared, n: nat, started: bool): Shared {
    s.(dev := s.dev.(filled := 0, copied := 0, ongoingRead := started),
       readUrb := if started then Active(if n < |s.dev.buffer| then n else |s.dev.buffer|) else s.readUrb)
  }

  lemma DoReadIo(s: Shared, t: Tid, c: Call, n: nat, retry: bool, ok: Pc -> bool)
    requires ok(IoBegin(c, n, retry)) && ok(IoReset(c, n, retry)) && ok(IoEnd(c, n, retry)) && !s.dev.ongoingRead
    ensures var started := ok(IoSubmit(c, n, retry));
      Leads(s, t, IoBegin(c, n, retry), ok, Transfer(s, n, started), if started && retry then ReadTest(c) else ReadUnlock(c))
  {
    var started := ok(IoSubmit(c, n, retry));
    var set_ := s.(dev := s.dev.(ongoingRead := true));
    var reset := set_.(dev := set_.dev.(filled := 0, copied := 0));
    On(s, t, IoBegin(c, n, retry), ok, set_, IoReset(c, n, retry));
    On(set_, t, IoReset(c, n, retry), ok, reset, IoSubmit(c, n, retry));
    if started {
      On(reset, t, IoSubmit(c, n, retry), ok, Transfer(s, n, true), if retry then ReadTest(c) else ReadUnlock(c));
    } else {
      On(reset, t, IoSubmit(c, n, retry), ok, reset, IoEnd(c, n, retry));
      On(reset, t, IoEnd(c, n, retry), ok, Transfer(s, n, false), ReadUnlock(c));
    }
  }

  /** A read without errors comes to the data. */
  lemma ReadLooks(s: Shared, t: Tid, c: Call, ok: Pc -> bool)
    requires Free(s) && !s.dev.ongoingRead && s.dev.errors >= 0 && ok(ReadLock(c))
    ensures Leads(s, t, ReadLock(c), ok, s.Lock(Held(t)), ReadData(c))
  {
    var l := s.Lock(Held(t));
    ReadStarts(s, t, c, ok);
    On(l, t, ReadErrors(c), ok, l, ReadData(c));
  }

  /** A read that finds all it wants hands over that much, and no transfer is started. */
  lemma ReadEnough(s: Shared, t: Tid, c: Call)
    requires Free(s) && !s.dev.ongoingRead && s.dev.errors >= 0
    requires s.dev.copied < s.dev.filled <= |s.dev.buffer| && c.count <= s.dev.filled - s.dev.copied
    ensures Ends(s, t, ReadLock(c), AllWell, Handed(s, c.count))
  {
    var l := s.Lock(Held(t));
    ReadLooks(s, t, c, AllWell);
    On(l, t, ReadData(c), AllWell, Handed(l, c.count), ReadUnlock(c));
    ReadStops(Handed(l, c.count), t, c, AllWell);
    assert Handed(l, c.count).Lock(Nobody) == Handed(s, c.count);
  }

  lemma Unlocked(s: Shared, t: Tid, k: nat, n: nat, started: bool)
    requires s.dev.ioMutex == Nobody && s.dev.copied + k <= |s.dev.buffer|
    ensures Transfer(Handed(s.Lock(Held(t)), k), n, started).Lock(Nobody) == Transfer(Handed(s, k), n, started)
  {
  }

  /** A read that finds less than it wants hands over all there is, and starts a transfer for the rest, for which it does
      not wait. */
  lemma ReadShort(s: Shared, t: Tid, c: Call, started: bool)
    requires Free(s) && !s.dev.ongoingRead && s.dev.errors >= 0
    requires s.dev.copied < s.dev.filled <= |s.dev.buffer| && c.count > s.dev.filled - s.dev.copied
    ensures var unread := s.dev.filled - s.dev.copied;
      Ends(s, t, ReadLock(c), Submits(started), Transfer(Handed(s, unread), c.count - unread, started))
  {
    var l, unread, ok := s.Lock(Held(t)), s.dev.filled - s.dev.copied, Submits(started);
    var h, n := Handed(l, unread), c.count - unread;
    ReadLooks(s, t, c, ok);
    On(l, t, ReadData(c), ok, h, IoBegin(c, n, false));
    DoReadIo(h, t, c, n, false, ok);
    ReadStops(Transfer(h, n, started), t, c, ok);
    Unlocked(s, t, unread, n, started);
  }

  /** A read that finds none starts a transfer of what it wants, and waits for it unless it may not. */
  lemma ReadNone(s: Shared, t: Tid, c: Call, started: bool)
    requires Free(s) && !s.dev.ongoingRead && s.dev.errors >= 0 && s.dev.copied == s.dev.filled <= |s.dev.buffer|
    ensures var r := Transfer(s, c.count, started);
      if started && !c.nonblock then Comes(s, t, ReadLock(c), Submits(started), r.Lock(Held(t)), ReadWait(c))
      else Ends(s, t, ReadLock(c), Submits(started), r)
  {
    var l, ok := s.Lock(Held(t)), Submits(started);
    var m := Transfer(l, c.count, started);
    ReadLooks(s, t, c, ok);
    On(l, t, ReadData(c), ok, l, IoBegin(c, c.count, true));
    DoReadIo(l, t, c, c.count, true, ok);
    ReadStops(m, t, c, ok);
    if started {
      On(m, t, ReadTest(c), ok, m, if c.nonblock then ReadUnlock(c) else ReadWait(c));
      There(m, t, ReadWait(c), ok);
    }
  }

  // ---- A whole write ----------------------------------------------------------------------------------------

  /** What is under way is one more write, with a buffer of its own and one of the credits. */
  function Sent(s: Shared): Shared
    requires s.dev.limitSem > 0
  {
    s.(dev := s.dev.(limitSem := s.dev.limitSem - 1), writes := s.writes + {s.nextBuf}, live := s.live + {s.nextBuf},
       nextBuf := s.nextBuf + 1)
  }

  /** A buffer was allocated and freed again. */
  function Spent(s: Shared): Shared {
    s.(freed := s.freed + multiset{s.nextBuf}, nextBuf := s.nextBuf + 1)
  }

  /** After down: the credit is the thread's. */
  function Down(s: Shared): Shared
    requires s.dev.limitSem > 0
  {
    s.(dev := s.dev.(limitSem := s.dev.limitSem - 1))
  }

  function Bought(s: Shared): Shared
    requires s.dev.limitSem > 0
  {
    Down(s).(live := s.live + {s.nextBuf}, nextBuf := s.nextBuf + 1)
  }

  /** An error that is stored is told and cleared, and nothing is sent. */
  lemma WriteError(s: Shared, t: Tid, c: Call)
    requires s.dev.limitSem > 0 && s.dev.errors < 0
    ensures Ends(s, t, WriteDown(c), AllWell, s.Tell(s.stored, s.dev.errors))
  {
    var d := Down(s);
    var m := d.Tell(s.stored, s.dev.errors);
    On(s, t, WriteDown(c), AllWell, d, WriteErrors(c));
    On(d, t, WriteErrors(c), AllWell, m, WriteUp(c));
    Last(m, t, WriteUp(c), AllWell, m.(dev := m.dev.(limitSem := m.dev.limitSem + 1)));
    assert m.(dev := m.dev.(limitSem := m.dev.limitSem + 1)) == s.Tell(s.stored, s.dev.errors);
  }

  /** A write that finds no error comes to its look at `disconnected` with a credit, a buffer and the mutex. */
  lemma WriteStarts(s: Shared, t: Tid, c: Call, ok: Pc -> bool)
    requires s.dev.limitSem > 0 && s.dev.errors >= 0 && s.dev.ioMutex == Nobody
    requires ok(WriteDown(c)) && ok(WriteErrors(c)) && ok(WriteAlloc(c)) && ok(WriteCopy(c, s.nextBuf))
    ensures Leads(s, t, WriteDown(c), ok, Bought(s).Lock(Held(t)), WriteCheck(c, s.nextBuf))
  {
    var d, b := Down(s), Bought(s);
    On(s, t, WriteDown(c), ok, d, WriteErrors(c));
    On(d, t, WriteErrors(c), ok, d, WriteAlloc(c));
    On(d, t, WriteAlloc(c), ok, b, WriteCopy(c, s.nextBuf));
    On(b, t, WriteCopy(c, s.nextBuf), ok, b, WriteLock(c, s.nextBuf));
    On(b, t, WriteLock(c, s.nextBuf), ok, b.Lock(Held(t)), WriteCheck(c, s.nextBuf));
  }

  /** The error path frees the buffer and gives the credit back. */
  lemma WriteFails(s: Shared, t: Tid, c: Call, ok: Pc -> bool)
    requires s.dev.limitSem > 0 && s.nextBuf !in s.live
    ensures Ends(Bought(s), t, WriteFree(c, s.nextBuf), ok, Spent(s))
  {
    var f := Bought(s).Free(s.nextBuf);
    On(Bought(s), t, WriteFree(c, s.nextBuf), ok, f, WriteUp(c));
    Last(f, t, WriteUp(c), ok, f.(dev := f.dev.(limitSem := f.dev.limitSem + 1)));
    assert s.live + {s.nextBuf} - {s.nextBuf} == s.live;
    assert f.(dev := f.dev.(limitSem := f.dev.limitSem + 1)) == Spent(s);
  }

  /** A write on a free device leaves one URB in flight; one that is not taken costs a buffer that is freed again. */
  lemma WriteSends(s: Shared, t: Tid, c: Call, started: bool)
    requires Free(s) && s.dev.limitSem > 0 && s.dev.errors >= 0 && s.nextBuf !in s.live
    ensures Ends(s, t, WriteDown(c), Submits(started), if started then Sent(s) else Spent(s))
  {
    var b, ok, l := s.nextBuf, Submits(started), Bought(s).Lock(Held(t));
    WriteStarts(s, t, c, ok);
    On(l, t, WriteCheck(c, b), ok, l, WriteSubmit(c, b));
    if started {
      var w := l.(writes := l.writes + {b});
      On(l, t, WriteSubmit(c, b), ok, w, WriteUnlock(c));
      Last(w, t, WriteUnlock(c), ok, w.Lock(Nobody));
      assert w.Lock(Nobody) == Sent(s);
    } else {
      On(l, t, WriteSubmit(c, b), ok, l, WriteUnlockFailed(c, b));
      On(l, t, WriteUnlockFailed(c, b), ok, Bought(s), WriteFree(c, b));
      WriteFails(s, t, c, ok);
    }
  }

  /** Nothing is sent to a disconnected device. */
  lemma WriteGone(s: Shared, t: Tid, c: Call)
    requires s.dev.ioMutex == Nobody && s.dev.disconnected && s.dev.limitSem > 0 && s.dev.errors >= 0 && s.nextBuf !in s.live
    ensures Ends(s, t, WriteDown(c), AllWell, Spent(s))
  {
    WriteStarts(s, t, c, AllWell);
    On(Bought(s).Lock(Held(t)), t, WriteCheck(c, s.nextBuf), AllWell, Bought(s), WriteFree(c, s.nextBuf));
    WriteFails(s, t, c, AllWell);
  }

  /** Nor without memory. */
  lemma WriteNoMemory(s: Shared, t: Tid, c: Call)
    requires s.dev.limitSem > 0 && s.dev.errors >= 0
    ensures Ends(s, t, WriteDown(c), NoMemory, s)
  {
    var d := Down(s);
    On(s, t, WriteDown(c), NoMemory, d, WriteErrors(c));
    On(d, t, WriteErrors(c), NoMemory, d, WriteAlloc(c));
    On(d, t, WriteAlloc(c), NoMemory, d, WriteUp(c));
    Last(d, t, WriteUp(c), NoMemory, s);
  }

  /** Nor without the user's data. */
  lemma WriteNoData(s: Shared, t: Tid, c: Call)
    requires s.dev.limitSem > 0 && s.dev.errors >= 0 && s.nextBuf !in s.live
    ensures Ends(s, t, WriteDown(c), NoData, Spent(s))
  {
    var b, d := s.nextBuf, Down(s);
    On(s, t, WriteDown(c), NoData, d, WriteErrors(c));
    On(d, t, WriteErrors(c), NoData, d, WriteAlloc(c));
    On(d, t, WriteAlloc(c), NoData, Bought(s), WriteCopy(c, b));
    On(Bought(s), t, WriteCopy(c, b), NoData, Bought(s), WriteFree(c, b));
    WriteFails(s, t, c, NoData);
  }

  // ---- A whole flush, and the core ---------------------------------------------------------------------------

  /** With nothing in flight a flush tells an error that is stored, whatever it is, and clears it. */
  lemma FlushTells(s: Shared, t: Tid, c: Call)
    requires s.dev.ioMutex == Nobody && s.writes == {} && s.readUrb == Idle
    ensures Ends(s, t, FlushLock(c), AllWell, if s.dev.errors != 0 then s.Tell(s.stored, s.dev.errors) else s)
  {
    var l := s.Lock(Held(t));
    var m := if s.dev.errors != 0 then l.Tell(s.stored, s.dev.errors) else l.(dev := l.dev.(errors := 0));
    On(s, t, FlushLock(c), AllWell, l, FlushWrites(c));
    On(l, t, FlushWrites(c), AllWell, l, FlushRead(c));
    On(l, t, FlushRead(c), AllWell, l, FlushErrors(c));
    On(l, t, FlushErrors(c), AllWell, m, FlushUnlock(c));
    Last(m, t, FlushUnlock(c), AllWell, m.Lock(Nobody));
    assert m.Lock(Nobody) == if s.dev.errors != 0 then s.Tell(s.stored, s.dev.errors) else s;
  }

  /** In any run, the step of a flush at the errors leaves none stored, and has told the one that was once more. */
  lemma FlushClears(states: seq<State>, steps: seq<Step>, i: nat, t: Tid, c: Call)
    requires IsRun(states, steps) && i < |steps| && steps[i].Thread? && steps[i].t == t
    requires t in states[i].threads && states[i].threads[t] == FlushErrors(c)
    ensures var s, r := states[i].sys, states[i + 1].sys;
      && r.dev.errors == 0
      && r.told == s.told + (if s.dev.errors != 0 then multiset{Report(s.stored, Code(s.dev.errors))} else multiset{})
      && states[i + 1].threads == states[i].threads[t := FlushUnlock(c)]
  {
    StepOf(states, steps, i + 1);
  }

  /** The next n steps of the core, with nobody inside skel_open. */
  function CoreCourse(s: Shared, disconnect: bool, n: nat): Option<Shared> {
    if n == 0 then Some(s)
    else
      var r := CoreCourse(s, disconnect, n - 1);
      if r.Some? then CoreMove(r.value, false, disconnect) else None
  }

  ghost predicate CoreComes(s: Shared, disconnect: bool, r: Shared) {
    exists n: nat :: CoreCourse(s, disconnect, n) == Some(r)
  }

  lemma CoreStarts(s: Shared, disconnect: bool)
    ensures CoreComes(s, disconnect, s)
  {
    assert CoreCourse(s, disconnect, 0) == Some(s);
  }

  lemma CoreNext(s: Shared, disconnect: bool, n: nat, m: Shared, r: Shared)
    requires CoreCourse(s, disconnect, n) == Some(m) && CoreMove(m, false, disconnect) == Some(r)
    ensures CoreCourse(s, disconnect, n + 1) == Some(r)
  {
  }

  lemma CoreOn(s: Shared, disconnect: bool, m: Shared, r: Shared)
    requires CoreComes(s, disconnect, m) && CoreMove(m, false, disconnect) == Some(r)
    ensures CoreComes(s, disconnect, r)
  {
    var n: nat :| CoreCourse(s, disconnect, n) == Some(m);
    CoreNext(s, disconnect, n, m, r);
  }

  lemma DisconnectStarts(s: Shared)
    requires s.core.Bound? && s.dev.ioMutex == Nobody
    ensures CoreComes(s, true, s.Lock(HeldByCore).(core := DiscMark))
  {
    CoreStarts(s, true);
    CoreOn(s, true, s, s.(core := DiscDeregister));
    CoreOn(s, true, s.(core := DiscDeregister), s.(core := DiscLock));
    CoreOn(s, true, s.(core := DiscLock), s.Lock(HeldByCore).(core := DiscMark));
  }

  /** A disconnect with nothing in flight marks the device and drops the interface's reference. */
  lemma Disconnects(s: Shared)
    requires s.core.Bound? && s.dev.ioMutex == Nobody && s.readUrb == Idle && s.writes == {} && s.dev.kref > 0
    ensures CoreComes(s, true, s.(dev := s.dev.(disconnected := true, kref := s.dev.kref - 1), core := Gone,
                                  deletes := if s.dev.kref == 1 then s.deletes + 1 else s.deletes))
  {
    var m := s.(dev := s.dev.(disconnected := true));
    DisconnectStarts(s);
    CoreOn(s, true, s.Lock(HeldByCore).(core := DiscMark), m.(core := DiscKillRead));
    CoreOn(s, true, m.(core := DiscKillRead), m.(core := DiscKillWrites));
    CoreOn(s, true, m.(core := DiscKillWrites), m.(core := DiscPut));
    CoreOn(s, true, m.(core := DiscPut), m.(core := DiscPut).Put().(core := Gone));
  }

  lemma ResetStarts(s: Shared)
    requires s.core.Bound? && s.dev.ioMutex == Nobody && s.readUrb == Idle && s.writes == {}
    ensures CoreComes(s, false, s.Lock(HeldByCore).(core := InReset))
  {
    var l := s.Lock(HeldByCore);
    CoreStarts(s, false);
    CoreOn(s, false, s, s.(core := ResetLock));
    CoreOn(s, false, s.(core := ResetLock), l.(core := ResetWrites));
    CoreOn(s, false, l.(core := ResetWrites), l.(core := ResetRead));
    CoreOn(s, false, l.(core := ResetRead), l.(core := InReset));
  }

  /** A reset with nothing in flight stores -EPIPE as a new error. */
  lemma Resets(s: Shared)
    requires s.core.Bound? && s.dev.ioMutex == Nobody && s.readUrb == Idle && s.writes == {}
    ensures CoreComes(s, false, s.(dev := s.dev.(errors := -EPIPE), raised := s.raised + [-EPIPE], stored := |s.raised|))
  {
    var l := s.Lock(HeldByCore);
    var e := l.(dev := l.dev.(errors := -EPIPE), core := ResetUnlock, raised := s.raised + [-EPIPE], stored := |s.raised|);
    ResetStarts(s);
    CoreOn(s, false, l.(core := InReset), e);
    CoreOn(s, false, e, e.Lock(Nobody).(core := Bound));
  }
}
