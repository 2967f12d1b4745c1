/** What every step of the USB skeleton driver keeps, and what follows for whole runs. */
module UsbSkelSafety {
  import opened Bytes
  import opened UsbSkel

  // ---- What a move leaves alone -----------------------------------------------------------------------------

  predicate SameReadBuffer(s: Shared, r: Shared) {
    && r.dev.buffer == s.dev.buffer && r.dev.filled == s.dev.filled && r.dev.copied == s.dev.copied
    && r.dev.ongoingRead == s.dev.ongoingRead && r.readUrb == s.readUrb
    && r.produced == s.produced && r.consumed == s.consumed
  }

  predicate SameWrites(s: Shared, r: Shared) {
    && r.dev.limitSem == s.dev.limitSem && r.writes == s.writes
    && r.live == s.live && r.freed == s.freed && r.nextBuf == s.nextBuf
  }

  lemma CoreFrame(s: Shared, opening: bool, disconnect: bool)
    requires CoreMove(s, opening, disconnect).Some?
    ensures var r := CoreMove(s, opening, disconnect).value; SameReadBuffer(s, r) && SameWrites(s, r)
  {
  }

  predicate SameLife(s: Shared, r: Shared) {
    && r.dev.kref == s.dev.kref && r.handles == s.handles && r.deletes == s.deletes
    && r.core == s.core && r.dev.disconnected == s.dev.disconnected
  }

  lemma ReadFrame(s: Shared, t: Tid, pc: Pc, ok: bool)
    requires pc.Reading() && ReadMove(s, t, pc, ok).Some?
    ensures var m := ReadMove(s, t, pc, ok).value;
      && SameWrites(s, m.sys) && SameLife(s, m.sys)
      && (m.next.Some? ==> m.next.value.Reading() && m.next.value.c == pc.c)
  {
    if pc.ReadData? {} else if pc.Quiet() {} else if pc.Announced() {} else {}
  }

  lemma WriteFrame(s: Shared, t: Tid, pc: Pc, ok: bool)
    requires pc.Writing() && WriteMove(s, t, pc, ok).Some?
    ensures var m := WriteMove(s, t, pc, ok).value;
      && SameReadBuffer(s, m.sys) && SameLife(s, m.sys)
      && (m.next.Some? ==> m.next.value.Writing() && m.next.value.c == pc.c)
  {
  }

  lemma FlushFrame(s: Shared, t: Tid, pc: Pc)
    requires FlushMove(s, t, pc).Some?
    ensures var m := FlushMove(s, t, pc).value;
      && SameReadBuffer(s, m.sys) && SameWrites(s, m.sys) && SameLife(s, m.sys)
      && (m.next.Some? ==> m.next.value.Flushing() && m.next.value.c == pc.c)
  {
  }

  // ---- The mutex ------------------------------------------------------------------------------------------

  /** io_mutex is held by exactly the actor that is between taking and releasing it. */
  ghost predicate Mutex(s: State) {
    && (forall t :: t in s.threads ==> (s.threads[t].Locked() <==> s.sys.dev.ioMutex == Held(t)))
    && (s.sys.dev.ioMutex.Held? ==> s.sys.dev.ioMutex.t in s.threads)
    && (s.sys.core.Locked() <==> s.sys.dev.ioMutex == HeldByCore)
  }

  /** Where the thread that holds io_mutex stands. */
  function Holder(s: State): Option<Pc> {
    var o := s.sys.dev.ioMutex;
    if o.Held? && o.t in s.threads then Some(s.threads[o.t]) else None
  }

  predicate OptLocked(pc: Option<Pc>) {
    pc.Some? && pc.value.Locked()
  }

  predicate MutexPasses(s: Shared, m: Move, t: Tid) {
    var before, after := s.dev.ioMutex, m.sys.dev.ioMutex;
    && (OptLocked(m.next) <==> after == Held(t))
    && m.sys.core == s.core
    && (after == before || (after == Held(t) && before == Nobody) || (after == Nobody && before == Held(t)))
  }

  lemma MutexRead(s: Shared, t: Tid, pc: Pc, ok: bool)
    requires (pc.Locked() <==> s.dev.ioMutex == Held(t)) && pc.Reading() && ReadMove(s, t, pc, ok).Some?
    ensures MutexPasses(s, ReadMove(s, t, pc, ok).value, t)
  {
    if pc.ReadLock? {} else if pc.ReadUnlock? {} else if pc.ReadData? {} else if pc.Quiet() {} else {}
  }

  lemma MutexSubmit(s: Shared, t: Tid, pc: Pc, ok: bool)
    requires (pc.Locked() <==> s.dev.ioMutex == Held(t)) && SubmitMove(s, t, pc, ok).Some?
    ensures MutexPasses(s, SubmitMove(s, t, pc, ok).value, t)
  {
  }

  lemma NoMutex(s: Shared, t: Tid, pc: Pc, ok: bool)
    requires pc.Writing() && !pc.Submitting() && WriteMove(s, t, pc, ok).Some?
    ensures var m := WriteMove(s, t, pc, ok).value;
      m.sys.dev.ioMutex == s.dev.ioMutex && m.sys.core == s.core && !OptLocked(m.next)
  {
    if pc.WriteDown? {} else if pc.WriteErrors? {} else if pc.HasBuffer() {} else {}
  }

  lemma MutexWrite(s: Shared, t: Tid, pc: Pc, ok: bool)
    requires (pc.Locked() <==> s.dev.ioMutex == Held(t)) && pc.Writing() && WriteMove(s, t, pc, ok).Some?
    ensures MutexPasses(s, WriteMove(s, t, pc, ok).value, t)
  {
    if pc.Submitting() { MutexSubmit(s, t, pc, ok); } else { NoMutex(s, t, pc, ok); }
  }

  /** A thread changes who holds the mutex only by taking it when it is free, or giving it back. */
  lemma MutexMove(s: Shared, t: Tid, pc: Pc, ok: bool, h: Handle)
    requires pc.Locked() <==> s.dev.ioMutex == Held(t)
    requires ThreadMove(s, t, pc, ok, h).Some?
    ensures MutexPasses(s, ThreadMove(s, t, pc, ok, h).value, t)
  {
    if pc.Reading() { MutexRead(s, t, pc, ok); } else if pc.Writing() { MutexWrite(s, t, pc, ok); }
  }

  lemma MutexAfter(s: State, t: Tid, m: Move)
    requires Mutex(s) && t in s.threads && MutexPasses(s.sys, m, t)
    ensures Mutex(After(s, t, m))
    ensures Holder(After(s, t, m)) == HolderAfter(s.threads[t], m, Holder(s))
  {
  }

  lemma MutexCore(s: State, opening: bool, disconnect: bool)
    requires Mutex(s) && CoreMove(s.sys, opening, disconnect).Some?
    ensures var r := s.(sys := CoreMove(s.sys, opening, disconnect).value); Mutex(r) && Holder(r) == Holder(s)
  {
  }

  /** What a thread at pc knows of the holder. */
  predicate HolderIs(s: Shared, pc: Pc, holder: Option<Pc>) {
    && (pc.Locked() ==> holder == Some(pc))
    && (s.dev.ioMutex == Nobody || s.dev.ioMutex == HeldByCore ==> holder == None)
  }

  /** The holder after thread t, at pc, has made move m. */
  function HolderAfter(pc: Pc, m: Move, holder: Option<Pc>): Option<Pc> {
    if OptLocked(m.next) then m.next else if pc.Locked() then None else holder
  }

  // ---- The read buffer --------------------------------------------------------------------------------------

  /** What readers were handed, followed by what the buffer still holds, is what the device sent. */
  predicate Conserved(s: Shared) {
    && s.dev.copied <= s.dev.filled <= |s.dev.buffer|
    && s.consumed + s.dev.buffer[s.dev.copied..s.dev.filled] == s.produced
  }

  predicate ReadUrbOwned(s: Shared, holder: Option<Pc>) {
    var announced := holder.Some? && holder.value.Announced();
    && (s.dev.ongoingRead <==> s.readUrb.Active? || announced)
    && (s.readUrb.Active? ==> s.readUrb.length <= |s.dev.buffer| && s.dev.filled == 0 && s.dev.copied == 0)
    && (announced ==> s.readUrb == Idle)
    && (holder.Some? ==> QuietHolder(s, holder.value))
  }

  predicate QuietHolder(s: Shared, pc: Pc) {
    && (pc.Quiet() ==> s.readUrb == Idle)
    && (pc.IoBegin? || pc.IoReset? ==> s.dev.filled == s.dev.copied)
    && (pc.IoSubmit? || pc.IoEnd? ==> s.dev.filled == 0 && s.dev.copied == 0)
  }

  lemma ConservedRead(s: Shared, t: Tid, pc: Pc, ok: bool)
    requires Conserved(s) && QuietHolder(s, pc) && pc.Reading() && ReadMove(s, t, pc, ok).Some?
    ensures Conserved(ReadMove(s, t, pc, ok).value.sys)
  {
    if pc.ReadData? {
      var chunk := Min(s.dev.Available(), pc.c.count);
      var mid := s.dev.copied + chunk;
      assert s.dev.buffer[s.dev.copied..s.dev.filled] == s.dev.buffer[s.dev.copied..mid] + s.dev.buffer[mid..s.dev.filled];
    }
  }

  lemma OwnedRead(s: Shared, t: Tid, pc: Pc, ok: bool, holder: Option<Pc>)
    requires Conserved(s) && ReadUrbOwned(s, holder) && HolderIs(s, pc, holder)
    requires pc.Reading() && ReadMove(s, t, pc, ok).Some?
    ensures var m := ReadMove(s, t, pc, ok).value; ReadUrbOwned(m.sys, HolderAfter(pc, m, holder))
  {
    if pc.ReadData? {} else if pc.Quiet() {} else if pc.Announced() {} else {}
  }

  lemma OwnedRest(s: Shared, t: Tid, pc: Pc, m: Move, holder: Option<Pc>)
    requires ReadUrbOwned(s, holder) && HolderIs(s, pc, holder)
    requires (pc.Locked() <==> s.dev.ioMutex == Held(t)) && MutexPasses(s, m, t)
    requires SameReadBuffer(s, m.sys) && !pc.Reading() && (m.next.Some? ==> !m.next.value.Reading())
    ensures ReadUrbOwned(m.sys, HolderAfter(pc, m, holder))
    ensures Conserved(s) ==> Conserved(m.sys)
  {
  }

  lemma ReadSafeMove(s: Shared, t: Tid, pc: Pc, ok: bool, h: Handle, holder: Option<Pc>)
    requires Conserved(s) && ReadUrbOwned(s, holder) && HolderIs(s, pc, holder)
    requires (pc.Locked() <==> s.dev.ioMutex == Held(t)) && ThreadMove(s, t, pc, ok, h).Some?
    ensures var m := ThreadMove(s, t, pc, ok, h).value;
      Conserved(m.sys) && ReadUrbOwned(m.sys, HolderAfter(pc, m, holder))
  {
    if pc.Reading() {
      ConservedRead(s, t, pc, ok);
      OwnedRead(s, t, pc, ok, holder);
    } else {
      MutexMove(s, t, pc, ok, h);
      NoRead(s, t, pc, ok, h);
      OwnedRest(s, t, pc, ThreadMove(s, t, pc, ok, h).value, holder);
    }
  }

  predicate NotRead(s: Shared, m: Move) {
    SameReadBuffer(s, m.sys) && (m.next.Some? ==> !m.next.value.Reading())
  }

  lemma StillNoReader(s: Shared, m: Move)
    requires SameReadBuffer(s, m.sys) && (m.next.Some? ==> m.next.value.Writing() || m.next.value.Flushing())
    ensures NotRead(s, m)
  {
  }

  lemma NoReadInWrite(s: Shared, t: Tid, pc: Pc, ok: bool)
    requires pc.Writing() && WriteMove(s, t, pc, ok).Some?
    ensures NotRead(s, WriteMove(s, t, pc, ok).value)
  {
    WriteFrame(s, t, pc, ok);
    StillNoReader(s, WriteMove(s, t, pc, ok).value);
  }

  lemma NoReadInFlush(s: Shared, t: Tid, pc: Pc)
    requires FlushMove(s, t, pc).Some?
    ensures NotRead(s, FlushMove(s, t, pc).value)
  {
    FlushFrame(s, t, pc);
    StillNoReader(s, FlushMove(s, t, pc).value);
  }

  /** Only readers touch the read buffer and its URB. */
  lemma NoRead(s: Shared, t: Tid, pc: Pc, ok: bool, h: Handle)
    requires ThreadMove(s, t, pc, ok, h).Some? && !pc.Reading()
    ensures NotRead(s, ThreadMove(s, t, pc, ok, h).value)
  {
    if pc.OpenGet? {}
    else if pc.Writing() { NoReadInWrite(s, t, pc, ok); }
    else { NoReadInFlush(s, t, pc); }
  }

  lemma ConservedCallback(s: Shared, status: int, data: seq<Byte>, holder: Option<Pc>)
    requires Conserved(s) && ReadUrbOwned(s, holder) && ReadCallback(s, status, data).Some?
    ensures Conserved(ReadCallback(s, status, data).value)
    ensures ReadUrbOwned(ReadCallback(s, status, data).value, holder)
  {
    var d := ReadCallback(s, status, data).value.dev;
    assert s.consumed == s.produced;
    assert d.buffer[0..|data|] == data;
  }

  // ---- Disconnect, reset and flush ----------------------------------------------------------------------------

  /** The core has waited for the read URB, or for the write URBs, with no way left to submit one. */
  predicate ReadKilled(core: Core) {
    core.DiscKillWrites? || core.DiscPut? || core.Gone? || core.InReset? || core.ResetUnlock?
  }

  predicate WritesKilled(core: Core) {
    core.DiscPut? || core.Gone? || core.ResetRead? || core.InReset? || core.ResetUnlock?
  }

  predicate Quiesced(s: Shared, holder: Option<Pc>) {
    && (s.dev.disconnected <==> s.core.Disconnected())
    && (s.dev.disconnected && holder.Some? ==> !holder.value.Past())
    && (ReadKilled(s.core) ==> s.readUrb == Idle)
    && (WritesKilled(s.core) ==> s.writes == {})
    && (holder.Some? && (holder.value.FlushErrors? || holder.value.FlushUnlock?) ==> s.readUrb == Idle)
    && (holder.Some? && (holder.value.FlushRead? || holder.value.FlushErrors? || holder.value.FlushUnlock?) ==> s.writes == {})
  }

  lemma QuiescedRead(s: Shared, t: Tid, pc: Pc, ok: bool, holder: Option<Pc>)
    requires Quiesced(s, holder) && HolderIs(s, pc, holder) && (s.core.Locked() <==> s.dev.ioMutex == HeldByCore)
    requires pc.Reading() && ReadMove(s, t, pc, ok).Some?
    ensures var m := ReadMove(s, t, pc, ok).value; Quiesced(m.sys, HolderAfter(pc, m, holder))
  {
    if pc.ReadData? {} else if pc.Quiet() {} else if pc.Announced() {} else {}
  }

  lemma QuiescedSubmit(s: Shared, t: Tid, pc: Pc, ok: bool, holder: Option<Pc>)
    requires Quiesced(s, holder) && HolderIs(s, pc, holder) && (s.core.Locked() <==> s.dev.ioMutex == HeldByCore)
    requires SubmitMove(s, t, pc, ok).Some?
    ensures var m := SubmitMove(s, t, pc, ok).value; Quiesced(m.sys, HolderAfter(pc, m, holder))
  {
  }

  lemma QuiescedWrite(s: Shared, t: Tid, pc: Pc, ok: bool, holder: Option<Pc>)
    requires Quiesced(s, holder) && HolderIs(s, pc, holder) && (s.core.Locked() <==> s.dev.ioMutex == HeldByCore)
    requires pc.Writing() && WriteMove(s, t, pc, ok).Some?
    ensures var m := WriteMove(s, t, pc, ok).value; Quiesced(m.sys, HolderAfter(pc, m, holder))
  {
    if pc.Submitting() { QuiescedSubmit(s, t, pc, ok, holder); } else {}
  }

  lemma QuiescedFlush(s: Shared, t: Tid, pc: Pc, holder: Option<Pc>)
    requires Quiesced(s, holder) && HolderIs(s, pc, holder) && FlushMove(s, t, pc).Some?
    ensures var m := FlushMove(s, t, pc).value; Quiesced(m.sys, HolderAfter(pc, m, holder))
  {
  }

  lemma QuiescedMove(s: Shared, t: Tid, pc: Pc, ok: bool, h: Handle, holder: Option<Pc>)
    requires Quiesced(s, holder) && HolderIs(s, pc, holder) && (s.core.Locked() <==> s.dev.ioMutex == HeldByCore)
    requires ThreadMove(s, t, pc, ok, h).Some?
    ensures var m := ThreadMove(s, t, pc, ok, h).value; Quiesced(m.sys, HolderAfter(pc, m, holder))
  {
    if pc.OpenGet? {}
    else if pc.Reading() { QuiescedRead(s, t, pc, ok, holder); }
    else if pc.Writing() { QuiescedWrite(s, t, pc, ok, holder); }
    else { QuiescedFlush(s, t, pc, holder); }
  }

  lemma QuiescedCore(s: Shared, opening: bool, disconnect: bool, holder: Option<Pc>)
    requires Quiesced(s, holder) && CoreMove(s, opening, disconnect).Some?
    requires s.core.Locked() <==> s.dev.ioMutex == HeldByCore
    requires !s.dev.ioMutex.Held? ==> holder == None
    ensures Quiesced(CoreMove(s, opening, disconnect).value, holder)
  {
  }

  // ---- References ---------------------------------------------------------------------------------------------

  /** The count is one for the interface while it is bound, and one for each open handle. */
  predicate Counted(s: Shared) {
    && s.dev.kref == |s.handles| + (if s.core.Gone? then 0 else 1)
    && s.deletes == (if s.dev.kref == 0 then 1 else 0)
  }

  /** Until usb_deregister_dev has returned a thread may be inside skel_open. */
  predicate Placed(s: Shared, pc: Pc) {
    if pc.OpenGet? then !s.core.Disconnecting() || s.core.DiscDeregister? else pc.c.h in s.handles
  }

  ghost predicate Refs(s: State) {
    && Counted(s.sys)
    && forall t :: t in s.threads ==> Placed(s.sys, s.threads[t])
  }

  predicate RefsPass(s: Shared, m: Move, pc: Pc) {
    && m.sys.core == s.core && s.handles <= m.sys.handles
    && (m.next.Some? ==> !m.next.value.OpenGet? && !pc.OpenGet? && m.next.value.c.h == pc.c.h)
    && (Counted(s) ==> Counted(m.sys))
  }

  lemma RefsMove(s: Shared, t: Tid, pc: Pc, ok: bool, h: Handle)
    requires ThreadMove(s, t, pc, ok, h).Some? && Placed(s, pc)
    ensures RefsPass(s, ThreadMove(s, t, pc, ok, h).value, pc)
  {
    if pc.OpenGet? { RefsOpen(s, ok, h); }
    else if pc.Reading() { ReadFrame(s, t, pc, ok); }
    else if pc.Writing() { WriteFrame(s, t, pc, ok); }
    else { FlushFrame(s, t, pc); }
  }

  lemma RefsOpen(s: Shared, ok: bool, h: Handle)
    requires OpenMove(s, ok, h).Some? && (!s.core.Disconnecting() || s.core.DiscDeregister?)
    ensures RefsPass(s, OpenMove(s, ok, h).value, OpenGet)
  {
  }

  lemma RefsAfter(s: State, t: Tid, m: Move)
    requires Refs(s) && t in s.threads && RefsPass(s.sys, m, s.threads[t])
    ensures Refs(After(s, t, m))
  {
  }

  lemma RefsCore(s: State, disconnect: bool)
    requires Refs(s) && Apply(s, CoreStep(disconnect)).Some?
    ensures Refs(Apply(s, CoreStep(disconnect)).value)
  {
  }

  lemma RefsRest(s: State, step: Step)
    requires Refs(s) && Apply(s, step).Some? && (step.Release? || step.Start?)
    ensures Refs(Apply(s, step).value)
  {
  }

  // ---- Credits ------------------------------------------------------------------------------------------------

  predicate Credit(pc: Pc) { pc.HasCredit() }

  predicate Buffer(pc: Pc) { pc.HasBuffer() }

  ghost function Those(threads: map<Tid, Pc>, p: Pc -> bool): set<Tid> {
    set t | t in threads && p(threads[t])
  }

  ghost function One(pc: Option<Pc>, p: Pc -> bool): nat {
    if pc.Some? && p(pc.value) then 1 else 0
  }

  function Where(threads: map<Tid, Pc>, t: Tid): Option<Pc> {
    if t in threads then Some(threads[t]) else None
  }

  /** A count of threads changes with the thread that moved. */
  lemma ThoseMoved(m: map<Tid, Pc>, n: map<Tid, Pc>, t: Tid, p: Pc -> bool)
    requires forall u :: u != t ==> Where(m, u) == Where(n, u)
    ensures |Those(m, p)| - One(Where(m, t), p) == |Those(n, p)| - One(Where(n, t), p)
  {
    var a, b := Those(m, p), Those(n, p);
    forall u | u != t ensures u in a <==> u in b {
      assert Where(m, u) == Where(n, u);
    }
    assert a - {t} == b - {t};
    assert |a| == |a - {t}| + One(Where(m, t), p) && |b| == |b - {t}| + One(Where(n, t), p);
  }

  /** Every credit is in the semaphore, on its way with a writer, or with a URB in flight. */
  ghost predicate Credits(s: State) {
    s.sys.dev.limitSem + |s.sys.writes| + |Those(s.threads, Credit)| == WRITES_IN_FLIGHT
  }

  // ---- Transfer buffers -----------------------------------------------------------------------------------------

  /** A buffer that was allocated is live or was freed exactly once; one that was not is neither. */
  ghost predicate FreedOnce(s: Shared) {
    && s.writes <= s.live
    && (forall b :: b in s.live ==> b < s.nextBuf)
    && (forall b: Buf :: s.freed[b] == if b < s.nextBuf && b !in s.live then 1 else 0)
  }

  /** A thread's buffer is live and not in flight. */
  predicate Owns(s: Shared, pc: Pc) {
    pc.HasBuffer() ==> pc.buf in s.live && pc.buf !in s.writes
  }

  ghost predicate Apart(threads: map<Tid, Pc>) {
    forall t, u :: t in threads && u in threads && t != u && threads[t].HasBuffer() && threads[u].HasBuffer()
              ==> threads[t].buf != threads[u].buf
  }

  ghost predicate Buffers(s: State) {
    && FreedOnce(s.sys)
    && (forall t :: t in s.threads ==> Owns(s.sys, s.threads[t]))
    && Apart(s.threads)
    && |s.sys.live| == |s.sys.writes| + |Those(s.threads, Buffer)|
  }

  /** A move keeps the number of credits, and of buffers that are live but not in flight. */
  ghost predicate CountsPass(s: Shared, pc: Pc, m: Move) {
    && s.dev.limitSem + |s.writes| + One(Some(pc), Credit) == m.sys.dev.limitSem + |m.sys.writes| + One(m.next, Credit)
    && |s.live| - |s.writes| - One(Some(pc), Buffer) == |m.sys.live| - |m.sys.writes| - One(m.next, Buffer)
  }

  /** Only the thread's own buffer, or a new one, is touched. */
  ghost predicate OwnPass(s: Shared, pc: Pc, m: Move) {
    && FreedOnce(m.sys)
    && (m.next.Some? ==> Owns(m.sys, m.next.value))
    && (m.next.Some? && m.next.value.HasBuffer() ==>
          if pc.HasBuffer() then m.next.value.buf == pc.buf else m.next.value.buf !in s.live)
    && (forall b :: b in s.live && !(pc.HasBuffer() && b == pc.buf) ==>
          b in m.sys.live && (b in m.sys.writes <==> b in s.writes))
  }

  ghost predicate BuffersPass(s: Shared, pc: Pc, m: Move) {
    CountsPass(s, pc, m) && OwnPass(s, pc, m)
  }

  lemma CountsSubmit(s: Shared, t: Tid, pc: Pc, ok: bool)
    requires FreedOnce(s) && Owns(s, pc) && SubmitMove(s, t, pc, ok).Some?
    ensures CountsPass(s, pc, SubmitMove(s, t, pc, ok).value)
  {
  }

  lemma CountsWrite(s: Shared, t: Tid, pc: Pc, ok: bool)
    requires FreedOnce(s) && Owns(s, pc) && pc.Writing() && WriteMove(s, t, pc, ok).Some?
    ensures CountsPass(s, pc, WriteMove(s, t, pc, ok).value)
  {
    if pc.Submitting() { CountsSubmit(s, t, pc, ok); } else if pc.WriteFree? {} else if pc.WriteAlloc? {} else {}
  }

  lemma OwnSubmit(s: Shared, t: Tid, pc: Pc, ok: bool)
    requires FreedOnce(s) && Owns(s, pc) && SubmitMove(s, t, pc, ok).Some?
    ensures OwnPass(s, pc, SubmitMove(s, t, pc, ok).value)
  {
  }

  lemma OwnWrite(s: Shared, t: Tid, pc: Pc, ok: bool)
    requires FreedOnce(s) && Owns(s, pc) && pc.Writing() && WriteMove(s, t, pc, ok).Some?
    ensures OwnPass(s, pc, WriteMove(s, t, pc, ok).value)
  {
    if pc.Submitting() { OwnSubmit(s, t, pc, ok); } else if pc.WriteFree? {} else if pc.WriteAlloc? {} else {}
  }

  lemma BuffersRest(s: Shared, pc: Pc, m: Move)
    requires FreedOnce(s) && SameWrites(s, m.sys) && !pc.Writing()
    requires m.next.Some? ==> !m.next.value.Writing()
    ensures BuffersPass(s, pc, m)
  {
  }

  predicate NotWrite(s: Shared, m: Move) {
    SameWrites(s, m.sys) && (m.next.Some? ==> !m.next.value.Writing())
  }

  lemma StillNoWriter(s: Shared, m: Move)
    requires SameWrites(s, m.sys) && (m.next.Some? ==> m.next.value.Reading() || m.next.value.Flushing())
    ensures NotWrite(s, m)
  {
  }

  lemma NoWriteInRead(s: Shared, t: Tid, pc: Pc, ok: bool)
    requires pc.Reading() && ReadMove(s, t, pc, ok).Some?
    ensures NotWrite(s, ReadMove(s, t, pc, ok).value)
  {
    ReadFrame(s, t, pc, ok);
    StillNoWriter(s, ReadMove(s, t, pc, ok).value);
  }

  lemma NoWriteInFlush(s: Shared, t: Tid, pc: Pc)
    requires FlushMove(s, t, pc).Some?
    ensures NotWrite(s, FlushMove(s, t, pc).value)
  {
    FlushFrame(s, t, pc);
    StillNoWriter(s, FlushMove(s, t, pc).value);
  }

  /** Only writers touch credits and buffers. */
  lemma NoWrite(s: Shared, t: Tid, pc: Pc, ok: bool, h: Handle)
    requires ThreadMove(s, t, pc, ok, h).Some? && !pc.Writing()
    ensures NotWrite(s, ThreadMove(s, t, pc, ok, h).value)
  {
    if pc.OpenGet? {}
    else if pc.Reading() { NoWriteInRead(s, t, pc, ok); }
    else { NoWriteInFlush(s, t, pc); }
  }

  lemma BuffersMove(s: Shared, t: Tid, pc: Pc, ok: bool, h: Handle)
    requires FreedOnce(s) && Owns(s, pc) && ThreadMove(s, t, pc, ok, h).Some?
    ensures BuffersPass(s, pc, ThreadMove(s, t, pc, ok, h).value)
  {
    if pc.Writing() {
      CountsWrite(s, t, pc, ok);
      OwnWrite(s, t, pc, ok);
    } else {
      NoWrite(s, t, pc, ok, h);
      BuffersRest(s, pc, ThreadMove(s, t, pc, ok, h).value);
    }
  }

  lemma BuffersAfter(s: State, t: Tid, m: Move)
    requires Buffers(s) && Credits(s) && t in s.threads && BuffersPass(s.sys, s.threads[t], m)
    ensures Buffers(After(s, t, m)) && Credits(After(s, t, m))
  {
    ThoseMoved(s.threads, After(s, t, m).threads, t, Credit);
    ThoseMoved(s.threads, After(s, t, m).threads, t, Buffer);
  }

  lemma BuffersStart(s: State, t: Tid, pc: Pc)
    requires Buffers(s) && Credits(s) && Apply(s, Start(t, pc)).Some?
    ensures var r := Apply(s, Start(t, pc)).value; Buffers(r) && Credits(r)
  {
    ThoseMoved(s.threads, s.threads[t := pc], t, Credit);
    ThoseMoved(s.threads, s.threads[t := pc], t, Buffer);
  }

  lemma BuffersCallback(s: State, status: int, buf: Buf)
    requires Buffers(s) && Credits(s) && WriteCallback(s.sys, status, buf).Some?
    ensures var r := s.(sys := WriteCallback(s.sys, status, buf).value); Buffers(r) && Credits(r)
  {
  }

  // ---- Every reachable state --------------------------------------------------------------------------------------

  ghost predicate Inv(s: State) {
    && Mutex(s) && Refs(s) && Credits(s) && Buffers(s)
    && Conserved(s.sys) && ReadUrbOwned(s.sys, Holder(s)) && Quiesced(s.sys, Holder(s))
  }

  lemma InvInit(s: State)
    requires Init(s)
    ensures Inv(s)
  {
    assert Those(s.threads, Credit) == {} && Those(s.threads, Buffer) == {};
  }

  lemma InvThread(s: State, t: Tid, ok: bool, h: Handle)
    requires Inv(s) && Apply(s, Thread(t, ok, h)).Some?
    ensures Inv(Apply(s, Thread(t, ok, h)).value)
  {
    var pc, holder := s.threads[t], Holder(s);
    var m := ThreadMove(s.sys, t, pc, ok, h).value;
    MutexMove(s.sys, t, pc, ok, h);
    MutexAfter(s, t, m);
    RefsMove(s.sys, t, pc, ok, h);
    RefsAfter(s, t, m);
    BuffersMove(s.sys, t, pc, ok, h);
    BuffersAfter(s, t, m);
    ReadSafeMove(s.sys, t, pc, ok, h, holder);
    QuiescedMove(s.sys, t, pc, ok, h, holder);
  }

  lemma InvStart(s: State, t: Tid, pc: Pc)
    requires Inv(s) && Apply(s, Start(t, pc)).Some?
    ensures Inv(Apply(s, Start(t, pc)).value)
  {
    RefsRest(s, Start(t, pc));
    BuffersStart(s, t, pc);
  }

  lemma Unaffected(s: State, r: State)
    requires r.threads == s.threads && SameReadBuffer(s.sys, r.sys) && SameWrites(s.sys, r.sys) && Holder(r) == Holder(s)
    ensures Conserved(s.sys) && ReadUrbOwned(s.sys, Holder(s)) ==> Conserved(r.sys) && ReadUrbOwned(r.sys, Holder(r))
    ensures Buffers(s) && Credits(s) ==> Buffers(r) && Credits(r)
  {
  }

  lemma InvCore(s: State, disconnect: bool)
    requires Inv(s) && Apply(s, CoreStep(disconnect)).Some?
    ensures Inv(Apply(s, CoreStep(disconnect)).value)
  {
    var opening := Opening(s);
    var sys := CoreMove(s.sys, opening, disconnect).value;
    MutexCore(s, opening, disconnect);
    CoreFrame(s.sys, opening, disconnect);
    Unaffected(s, s.(sys := sys));
    RefsCore(s, disconnect);
    QuiescedCore(s.sys, opening, disconnect, Holder(s));
  }

  lemma InvRelease(s: State, h: Handle)
    requires Inv(s) && Apply(s, Release(h)).Some?
    ensures Inv(Apply(s, Release(h)).value)
  {
    RefsRest(s, Release(h));
    Unaffected(s, Apply(s, Release(h)).value);
  }

  lemma InvReadCompletes(s: State, status: int, data: seq<Byte>)
    requires Inv(s) && Apply(s, ReadCompletes(status, data)).Some?
    ensures Inv(Apply(s, ReadCompletes(status, data)).value)
  {
    ConservedCallback(s.sys, status, data, Holder(s));
  }

  lemma InvWriteCompletes(s: State, status: int, buf: Buf)
    requires Inv(s) && Apply(s, WriteCompletes(status, buf)).Some?
    ensures Inv(Apply(s, WriteCompletes(status, buf)).value)
  {
    BuffersCallback(s, status, buf);
  }

  /** Every step keeps the invariant. */
  lemma InvKept(s: State, step: Step)
    requires Inv(s) && Apply(s, step).Some?
    ensures Inv(Apply(s, step).value)
  {
    match step
    case Start(t, pc) => InvStart(s, t, pc);
    case Thread(t, ok, h) => InvThread(s, t, ok, h);
    case CoreStep(disconnect) => InvCore(s, disconnect);
    case Release(h) => InvRelease(s, h);
    case ReadCompletes(status, data) => InvReadCompletes(s, status, data);
    case WriteCompletes(status, buf) => InvWriteCompletes(s, status, buf);
  }

  // ---- Runs ---------------------------------------------------------------------------------------------------------

  /** steps take the system through states, from a device just probed. */
  ghost predicate IsRun(states: seq<State>, steps: seq<Step>) {
    && |states| == |steps| + 1 && Init(states[0])
    && forall i :: 0 <= i < |steps| ==> Apply(states[i], steps[i]) == Some(states[i + 1])
  }

  lemma StepOf(states: seq<State>, steps: seq<Step>, i: nat)
    requires IsRun(states, steps) && 0 < i < |states|
    ensures Apply(states[i - 1], steps[i - 1]) == Some(states[i])
  {
    var k := i - 1;
    assert Apply(states[k], steps[k]) == Some(states[k + 1]);
  }

  lemma {:induction false} RunInv(states: seq<State>, steps: seq<Step>, i: nat)
    requires IsRun(states, steps) && i < |states|
    ensures Inv(states[i])
  {
    if i == 0 {
      InvInit(states[0]);
    } else {
      RunInv(states, steps, i - 1);
      StepOf(states, steps, i);
      InvKept(states[i - 1], steps[i - 1]);
    }
  }

  /** In every run the reference count is exact, and skel_delete runs at most once, at zero. */
  lemma CountExact(states: seq<State>, steps: seq<Step>, i: nat)
    requires IsRun(states, steps) && i < |states|
    ensures var s := states[i].sys;
      && s.dev.kref == |s.handles| + (if s.core.Gone? then 0 else 1)
      && s.deletes <= 1 && (s.deletes == 1 <==> s.dev.kref == 0)
  {
    RunInv(states, steps, i);
  }

  /** Every thread needs a handle, or an interface that is still registered. */
  lemma ThreadsNeed(s: State)
    requires Refs(s)
    ensures forall t :: t in s.threads ==> !s.sys.core.Gone? || s.sys.handles != {}
  {
    forall t | t in s.threads ensures !s.sys.core.Gone? || s.sys.handles != {} {
      assert Placed(s.sys, s.threads[t]);
    }
  }

  /** Once skel_delete has run there is no step left that could touch the device. */
  lemma DeletedIsFinal(states: seq<State>, steps: seq<Step>, i: nat, step: Step)
    requires IsRun(states, steps) && i < |states| && states[i].sys.deletes > 0
    ensures Apply(states[i], step) == None
  {
    RunInv(states, steps, i);
    ThreadsNeed(states[i]);
    assert states[i].sys.core.Gone? && states[i].sys.handles == {};
  }

  /** skel_disconnect has killed all URBs. */
  predicate AllKilled(s: Shared) {
    s.core.DiscPut? || s.core.Gone?
  }

  lemma KilledStep(s: State, step: Step)
    requires Inv(s) && Apply(s, step).Some? && AllKilled(s.sys)
    ensures AllKilled(Apply(s, step).value.sys)
  {
    if step.Thread? {
      MutexMove(s.sys, step.t, s.threads[step.t], step.ok, step.h);
    }
  }

  lemma KilledNext(states: seq<State>, steps: seq<Step>, i: nat)
    requires IsRun(states, steps) && 0 < i < |states| && AllKilled(states[i - 1].sys)
    ensures AllKilled(states[i].sys)
  {
    RunInv(states, steps, i - 1);
    StepOf(states, steps, i);
    KilledStep(states[i - 1], steps[i - 1]);
  }

  lemma {:induction false} KilledStays(states: seq<State>, steps: seq<Step>, i: nat, j: nat)
    requires IsRun(states, steps) && i <= j < |states| && AllKilled(states[i].sys)
    ensures AllKilled(states[j].sys)
  {
    if i < j {
      KilledStays(states, steps, i, j - 1);
      KilledNext(states, steps, j);
    }
  }

  /** Once skel_disconnect has killed the URBs, none is ever in flight again. */
  lemma KilledForGood(states: seq<State>, steps: seq<Step>, i: nat, j: nat)
    requires IsRun(states, steps) && i <= j < |states| && AllKilled(states[i].sys)
    ensures AllKilled(states[j].sys) && states[j].sys.readUrb == Idle && states[j].sys.writes == {}
  {
    KilledStays(states, steps, i, j);
    RunInv(states, steps, j);
  }

  /** From the return of skel_pre_reset until skel_post_reset is done no URB is in flight. */
  lemma ResetIsQuiet(states: seq<State>, steps: seq<Step>, i: nat)
    requires IsRun(states, steps) && i < |states|
    requires states[i].sys.core.InReset? || states[i].sys.core.ResetUnlock?
    ensures states[i].sys.readUrb == Idle && states[i].sys.writes == {}
  {
    RunInv(states, steps, i);
  }

  /** The data of the read transfers that completed without error, in order. */
  function Sent(steps: seq<Step>): seq<Byte> {
    if steps == [] then [] else
      var step := steps[|steps| - 1];
      Sent(steps[..|steps| - 1]) + if step.ReadCompletes? && step.status == 0 then step.data else []
  }

  lemma ProducedStep(s: State, step: Step)
    requires Apply(s, step).Some?
    ensures Apply(s, step).value.sys.produced == s.sys.produced + Sent([step])
    ensures s.sys.consumed <= Apply(s, step).value.sys.consumed
  {
    assert Sent([step]) == if step.ReadCompletes? && step.status == 0 then step.data else [];
    if step.Thread? {
      ProducedMove(s.sys, step.t, s.threads[step.t], step.ok, step.h);
    }
  }

  lemma ProducedMove(s: Shared, t: Tid, pc: Pc, ok: bool, h: Handle)
    requires ThreadMove(s, t, pc, ok, h).Some?
    ensures var r := ThreadMove(s, t, pc, ok, h).value.sys; r.produced == s.produced && s.consumed <= r.consumed
  {
    if pc.OpenGet? {}
    else if pc.Reading() { if pc.ReadData? {} else if pc.Quiet() {} else if pc.Announced() {} else {} }
    else if pc.Writing() { WriteFrame(s, t, pc, ok); }
    else { FlushFrame(s, t, pc); }
  }

  lemma {:induction false} ProducedIsSent(states: seq<State>, steps: seq<Step>, i: nat)
    requires IsRun(states, steps) && i < |states|
    ensures states[i].sys.produced == Sent(steps[..i])
  {
    if i > 0 {
      ProducedIsSent(states, steps, i - 1);
      StepOf(states, steps, i);
      ProducedStep(states[i - 1], steps[i - 1]);
      assert steps[..i][..i - 1] == steps[..i - 1];
      assert Sent([steps[i - 1]]) == if steps[i - 1].ReadCompletes? && steps[i - 1].status == 0 then steps[i - 1].data else [];
    }
  }

  /** Readers get the bytes the device sent, all of them, once and in order: what they were handed,
      followed by the unread part of the buffer, is what was sent. */
  lemma NoByteLost(states: seq<State>, steps: seq<Step>, i: nat)
    requires IsRun(states, steps) && i < |states|
    ensures var s := states[i].sys;
      && s.dev.copied <= s.dev.filled <= |s.dev.buffer|
      && s.consumed + s.dev.buffer[s.dev.copied..s.dev.filled] == Sent(steps[..i])
  {
    RunInv(states, steps, i);
    ProducedIsSent(states, steps, i);
  }

  /** What was handed out stays handed out. */
  lemma {:induction false} HandedGrows(states: seq<State>, steps: seq<Step>, i: nat, j: nat)
    requires IsRun(states, steps) && i <= j < |states|
    ensures states[i].sys.consumed <= states[j].sys.consumed
  {
    if i < j {
      HandedGrows(states, steps, i, j - 1);
      StepOf(states, steps, j);
      ProducedStep(states[j - 1], steps[j - 1]);
    }
  }

  /** A URB is submitted only while it is idle, with a buffer of its own that is still allocated. */
  lemma SubmittedIdle(states: seq<State>, steps: seq<Step>, i: nat, t: Tid)
    requires IsRun(states, steps) && i < |states| && t in states[i].threads
    ensures states[i].threads[t].IoSubmit? ==> states[i].sys.readUrb == Idle
    ensures states[i].threads[t].WriteSubmit? ==>
      states[i].threads[t].buf in states[i].sys.live && states[i].threads[t].buf !in states[i].sys.writes
  {
    RunInv(states, steps, i);
  }

  /** There are always eight write credits, hence never more than eight transfer buffers. */
  lemma CreditsConserved(states: seq<State>, steps: seq<Step>, i: nat)
    requires IsRun(states, steps) && i < |states|
    ensures states[i].sys.dev.limitSem + |states[i].sys.writes| + |Those(states[i].threads, Credit)| == WRITES_IN_FLIGHT
    ensures |states[i].sys.live| <= WRITES_IN_FLIGHT
  {
    RunInv(states, steps, i);
    assert Those(states[i].threads, Buffer) <= Those(states[i].threads, Credit);
    SubsetSize(Those(states[i].threads, Buffer), Those(states[i].threads, Credit));
  }

  lemma SubsetSize<T>(a: set<T>, b: set<T>)
    requires a <= b
    ensures |a| <= |b|
  {
    assert b == a + (b - a);
  }

  /** No buffer is freed twice, and once no write is under way every buffer has been freed. */
  lemma BuffersFreed(states: seq<State>, steps: seq<Step>, i: nat, b: Buf)
    requires IsRun(states, steps) && i < |states|
    ensures states[i].sys.freed[b] <= 1
    ensures b in states[i].sys.writes ==> states[i].sys.freed[b] == 0
    ensures states[i].threads == map[] && states[i].sys.writes == {} ==>
      states[i].sys.freed[b] == if b < states[i].sys.nextBuf then 1 else 0
  {
    RunInv(states, steps, i);
    if states[i].threads == map[] {
      assert Those(states[i].threads, Buffer) == {};
    }
  }
}
