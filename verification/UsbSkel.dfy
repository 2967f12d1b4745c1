/** The USB skeleton driver (usb_skeleton.c) as a transition system.

    Any number of threads run the file operations; a step is one statement or one critical section
    of the source.  Completion callbacks, disconnect and reset are further actors.  The USB core is
    trusted to complete every submitted URB once, with at most the bytes asked for, and to return
    from a kill, or from waiting for an empty anchor, only when no such URB is active.  A kill can
    make a URB complete early with an error, which any URB may do at any time. */
module UsbSkel {
  import opened Bytes

  type Tid = nat
  type Handle = nat
  type Buf = nat

  const WRITES_IN_FLIGHT := 8
  const EIO := 5
  const EPIPE := 32
  const SIZE_RANGE := 0x1_0000_0000_0000_0000

  datatype ReadUrb = Idle | Active(length: nat)

  /** Who holds io_mutex. */
  datatype Owner = Nobody | Held(t: Tid) | HeldByCore

  /** struct usb_skel.  bulk_in_size is the length of bulk_in_buffer. */
  datatype Dev = Dev(limitSem: nat, buffer: seq<Byte>, filled: nat, copied: nat, errors: int, ongoingRead: bool,
                     kref: nat, ioMutex: Owner, disconnected: bool)
  {
    /** skel_read_bulk_callback.  data is what the transfer left at the front of the buffer; a failed
        transfer may have written there too, but filled stays as it was. */
    function ReadDone(status: int, data: seq<Byte>): Dev
      requires |data| <= |buffer|
    {
      var d := this.(buffer := data + buffer[|data|..], ongoingRead := false);
      if status != 0 then d.(errors := status) else d.(filled := |data|)
    }

    /** skel_write_bulk_callback */
    function WriteDone(status: int): Dev {
      this.(errors := if status != 0 then status else errors, limitSem := limitSem + 1)
    }

    /** bulk_in_filled - bulk_in_copied, as a size_t. */
    function Available(): nat {
      if copied <= filled then filled - copied else (filled - copied) % SIZE_RANGE
    }

    /** Nothing in the buffer is left to hand over. */
    predicate Drained() {
      filled == 0 || Available() == 0
    }

    /** What copy_to_user is given of the buffer. */
    function Chunk(n: nat): seq<Byte> {
      if copied + n <= |buffer| then buffer[copied..copied + n] else []
    }
  }

  /** What a read or write was called with; count is not zero. */
  datatype Call = Call(h: Handle, count: nat, nonblock: bool)

  /** Where a thread stands: the next statement it executes. */
  datatype Pc =
    | OpenGet
    | ReadLock(c: Call)
    | ReadCheck(c: Call)
    | ReadTest(c: Call)
    | ReadWait(c: Call)
    | ReadErrors(c: Call)
    | ReadClear(c: Call, seen: int, serial: nat)
    | ReadData(c: Call)
    | IoBegin(c: Call, n: nat, retry: bool)
    | IoReset(c: Call, n: nat, retry: bool)
    | IoSubmit(c: Call, n: nat, retry: bool)
    | IoEnd(c: Call, n: nat, retry: bool)
    | ReadUnlock(c: Call)
    | WriteDown(c: Call)
    | WriteErrors(c: Call)
    | WriteAlloc(c: Call)
    | WriteCopy(c: Call, buf: Buf)
    | WriteLock(c: Call, buf: Buf)
    | WriteCheck(c: Call, buf: Buf)
    | WriteSubmit(c: Call, buf: Buf)
    | WriteUnlock(c: Call)
    | WriteUnlockFailed(c: Call, buf: Buf)
    | WriteFree(c: Call, buf: Buf)
    | WriteUp(c: Call)
    | FlushLock(c: Call)
    | FlushWrites(c: Call)
    | FlushRead(c: Call)
    | FlushErrors(c: Call)
    | FlushUnlock(c: Call)
  {
    predicate Reading() {
      ReadLock? || ReadCheck? || ReadTest? || ReadWait? || Quiet() || Announced() || ReadUnlock?
    }

    predicate Writing() {
      WriteDown? || HasCredit() || WriteUnlock?
    }

    /** Between taking and releasing io_mutex. */
    predicate Locked() {
      ReadCheck? || Past() || ReadUnlock? || WriteCheck? || WriteUnlock? || WriteUnlockFailed? || Flushing()
    }

    /** Past the test of `disconnected`, and still able to submit a URB. */
    predicate Past() {
      ReadTest? || ReadWait? || Quiet() || IoReset? || IoSubmit? || IoEnd? || WriteSubmit?
    }

    /** In a read that has found, or waited for, the read URB to be idle. */
    predicate Quiet() {
      ReadErrors? || ReadClear? || ReadData? || IoBegin?
    }

    /** Inside skel_do_read_io with ongoing_read set and nothing submitted. */
    predicate Announced() {
      IoReset? || IoSubmit? || IoEnd?
    }

    /** In the part of skel_write under io_mutex, or about to enter it. */
    predicate Submitting() {
      WriteLock? || WriteCheck? || WriteSubmit? || WriteUnlock? || WriteUnlockFailed?
    }

    predicate Flushing() {
      FlushWrites? || FlushRead? || FlushErrors? || FlushUnlock?
    }

    /** Owns a transfer buffer that is not in flight. */
    predicate HasBuffer() {
      WriteCopy? || WriteLock? || WriteCheck? || WriteSubmit? || WriteUnlockFailed? || WriteFree?
    }

    /** Between down(limit_sem) and handing the credit to a URB, or giving it back. */
    predicate HasCredit() {
      WriteErrors? || WriteAlloc? || HasBuffer() || WriteUp?
    }
  }

  /** The core's thread: disconnect, or reset between its two callbacks. */
  datatype Core =
    | Bound
    | DiscDeregister
    | DiscLock
    | DiscMark
    | DiscKillRead
    | DiscKillWrites
    | DiscPut
    | Gone
    | ResetLock
    | ResetWrites
    | ResetRead
    | InReset
    | ResetUnlock
  {
    predicate Locked() {
      DiscMark? || ResetWrites? || ResetRead? || InReset? || ResetUnlock?
    }

    predicate Disconnecting() {
      DiscDeregister? || DiscLock? || DiscMark? || Disconnected()
    }

    predicate Disconnected() {
      DiscKillRead? || DiscKillWrites? || DiscPut? || Gone?
    }
  }

  /** A caller was returned the code for error number `serial`. */
  datatype Report = Report(serial: nat, code: int)

  /** What a caller is told of a status: everything is -EIO, "to preserve notifications about reset". */
  function Code(status: int): int {
    if status == -EPIPE then -EPIPE else -EIO
  }

  /** Everything but the threads.  produced is the data of all successful read completions, consumed
      what readers were handed; of the nextBuf transfer buffers allocated, live are not freed yet, and
      freed counts how often each was passed to usb_free_coherent.  raised has every status that was
      ever stored in dev.errors, in order; an error is known by its place there.  stored is the place of
      the one in dev.errors now, if there is one, and told has what callers were returned. */
  datatype Shared = Shared(dev: Dev, core: Core, readUrb: ReadUrb, writes: set<Buf>, handles: set<Handle>, deletes: nat,
                           live: set<Buf>, freed: multiset<Buf>, nextBuf: Buf,
                           produced: seq<Byte>, consumed: seq<Byte>,
                           raised: seq<int>, stored: nat, told: multiset<Report>)
  {
    function Lock(o: Owner): Shared {
      this.(dev := dev.(ioMutex := o))
    }

    function Free(buf: Buf): Shared {
      this.(live := live - {buf}, freed := freed + multiset{buf})
    }

    /** A new error takes the place of the one stored. */
    function Raise(status: int): Shared {
      if status < 0 then this.(raised := raised + [status], stored := |raised|) else this
    }

    /** A caller is told of an error, and what is stored is cleared. */
    function Tell(serial: nat, status: int): Shared {
      this.(dev := dev.(errors := 0), told := told + multiset{Report(serial, Code(status))})
    }

    /** kref_put with skel_delete as the release function. */
    function Put(): Shared
      requires dev.kref > 0
    {
      this.(dev := dev.(kref := dev.kref - 1), deletes := if dev.kref == 1 then deletes + 1 else deletes)
    }
  }

  datatype State = State(sys: Shared, threads: map<Tid, Pc>)

  /** What a thread does next: the new shared state, and its next statement unless it is done. */
  datatype Move = Move(sys: Shared, next: Option<Pc>)

  function Go(sys: Shared, pc: Pc): Option<Move> {
    Some(Move(sys, Some(pc)))
  }

  function Return(sys: Shared): Option<Move> {
    Some(Move(sys, None))
  }

  function Min(a: nat, b: nat): nat {
    if a < b then a else b
  }

  /** A device just probed. */
  predicate Init(s: State) {
    && s.sys.dev == Dev(WRITES_IN_FLIGHT, s.sys.dev.buffer, 0, 0, 0, false, 1, Nobody, false)
    && s.sys == Shared(s.sys.dev, Bound, Idle, {}, {}, 0, {}, multiset{}, 0, [], [], [], 0, multiset{})
    && s.threads == map[]
  }

  // ---- skel_read ----------------------------------------------------------------------------------

  function ReadMove(s: Shared, t: Tid, pc: Pc, ok: bool): Option<Move> {
    var d := s.dev;
    match pc
    case ReadLock(c) =>
      if !ok then Return(s)
      else if d.ioMutex != Nobody then None
      else Go(s.Lock(Held(t)), ReadCheck(c))
    case ReadCheck(c) =>
      Go(s, if d.disconnected then ReadUnlock(c) else ReadTest(c))
    case ReadTest(c) =>
      Go(s, if !d.ongoingRead then ReadErrors(c) else if c.nonblock then ReadUnlock(c) else ReadWait(c))
    case ReadWait(c) =>
      if !ok then Go(s, ReadUnlock(c))
      else if d.ongoingRead then None
      else Go(s, ReadErrors(c))
    case ReadErrors(c) =>
      Go(s, if d.errors < 0 then ReadClear(c, d.errors, s.stored) else ReadData(c))
    case ReadClear(c, seen, serial) =>
      // errors was read, and is cleared, without err_lock
      Go(s.Tell(serial, seen), ReadUnlock(c))
    case ReadData(c) =>
      HandOver(s, c)
    case IoBegin(c, n, retry) =>
      Go(s.(dev := d.(ongoingRead := true)), IoReset(c, n, retry))
    case IoReset(c, n, retry) =>
      Go(s.(dev := d.(filled := 0, copied := 0)), IoSubmit(c, n, retry))
    case IoSubmit(c, n, retry) =>
      if ok then Go(s.(readUrb := Active(Min(|d.buffer|, n))), if retry then ReadTest(c) else ReadUnlock(c))
      else Go(s, IoEnd(c, n, retry))
    case IoEnd(c, n, retry) =>
      Go(s.(dev := d.(ongoingRead := false)), ReadUnlock(c))
    case ReadUnlock(c) =>
      Return(s.Lock(Nobody))
    case _ => None
  }

  /** Copies out what the buffer has, up to count, and decides whether more I/O is needed.  A chunk
      that copy_to_user cannot store counts as handed over, since bulk_in_copied advances. */
  function HandOver(s: Shared, c: Call): Option<Move> {
    var d := s.dev;
    if d.Drained() then Go(s, IoBegin(c, c.count, true))
    else
      var chunk := Min(d.Available(), c.count);
      var s' := s.(dev := d.(copied := d.copied + chunk), consumed := s.consumed + d.Chunk(chunk));
      Go(s', if d.Available() < c.count then IoBegin(c, c.count - chunk, false) else ReadUnlock(c))
  }

  // ---- skel_write ---------------------------------------------------------------------------------

  function WriteMove(s: Shared, t: Tid, pc: Pc, ok: bool): Option<Move> {
    var d := s.dev;
    match pc
    case WriteDown(c) =>
      if !ok then Return(s)
      else if d.limitSem == 0 then None
      else Go(s.(dev := d.(limitSem := d.limitSem - 1)), WriteErrors(c))
    case WriteErrors(c) =>
      if d.errors < 0 then Go(s.Tell(s.stored, d.errors), WriteUp(c))
      else Go(s, WriteAlloc(c))
    case WriteAlloc(c) =>
      if !ok then Go(s, WriteUp(c))
      else Go(s.(live := s.live + {s.nextBuf}, nextBuf := s.nextBuf + 1), WriteCopy(c, s.nextBuf))
    case WriteCopy(c, buf) =>
      Go(s, if ok then WriteLock(c, buf) else WriteFree(c, buf))
    case WriteFree(c, buf) =>
      Go(s.Free(buf), WriteUp(c))
    case WriteUp(c) =>
      Return(s.(dev := d.(limitSem := d.limitSem + 1)))
    case _ => SubmitMove(s, t, pc, ok)
  }

  /** The part under io_mutex. */
  function SubmitMove(s: Shared, t: Tid, pc: Pc, ok: bool): Option<Move> {
    var d := s.dev;
    match pc
    case WriteLock(c, buf) =>
      if d.ioMutex != Nobody then None else Go(s.Lock(Held(t)), WriteCheck(c, buf))
    case WriteCheck(c, buf) =>
      if d.disconnected then Go(s.Lock(Nobody), WriteFree(c, buf)) else Go(s, WriteSubmit(c, buf))
    case WriteSubmit(c, buf) =>
      if ok then Go(s.(writes := s.writes + {buf}), WriteUnlock(c)) else Go(s, WriteUnlockFailed(c, buf))
    case WriteUnlock(c) =>
      Return(s.Lock(Nobody))
    case WriteUnlockFailed(c, buf) =>
      Go(s.Lock(Nobody), WriteFree(c, buf))
    case _ => None
  }

  // ---- skel_flush and skel_open ---------------------------------------------------------------------

  function FlushMove(s: Shared, t: Tid, pc: Pc): Option<Move> {
    match pc
    case FlushLock(c) =>
      if s.dev.ioMutex != Nobody then None else Go(s.Lock(Held(t)), FlushWrites(c))
    case FlushWrites(c) =>
      if s.writes != {} then None else Go(s, FlushRead(c))
    case FlushRead(c) =>
      if s.readUrb != Idle then None else Go(s, FlushErrors(c))
    case FlushErrors(c) =>
      Go(if s.dev.errors != 0 then s.Tell(s.stored, s.dev.errors) else s, FlushUnlock(c))
    case FlushUnlock(c) =>
      Return(s.Lock(Nobody))
    case _ => None
  }

  /** The end of skel_open: the handle is new, and the count goes up. */
  function OpenMove(s: Shared, ok: bool, h: Handle): Option<Move> {
    if !ok then Return(s)
    else if h in s.handles then None
    else Return(s.(dev := s.dev.(kref := s.dev.kref + 1), handles := s.handles + {h}))
  }

  function ThreadMove(s: Shared, t: Tid, pc: Pc, ok: bool, h: Handle): Option<Move> {
    if pc.OpenGet? then OpenMove(s, ok, h)
    else if pc.Reading() then ReadMove(s, t, pc, ok)
    else if pc.Writing() then WriteMove(s, t, pc, ok)
    else FlushMove(s, t, pc)
  }

  // ---- skel_disconnect, skel_pre_reset and skel_post_reset --------------------------------------------

  /** The core starts a disconnect or a reset of a bound interface, never both at once.  opening:
      some thread is inside skel_open, which usb_deregister_dev waits for. */
  function CoreMove(s: Shared, opening: bool, disconnect: bool): Option<Shared> {
    var d := s.dev;
    match s.core
    case Bound => Some(s.(core := if disconnect then DiscDeregister else ResetLock))
    case DiscDeregister =>
      if opening then None else Some(s.(core := DiscLock))
    case DiscLock =>
      if d.ioMutex != Nobody then None else Some(s.Lock(HeldByCore).(core := DiscMark))
    case DiscMark =>
      Some(s.(dev := d.(disconnected := true, ioMutex := Nobody), core := DiscKillRead))
    case DiscKillRead =>
      if s.readUrb != Idle then None else Some(s.(core := DiscKillWrites))
    case DiscKillWrites =>
      if s.writes != {} then None else Some(s.(core := DiscPut))
    case DiscPut =>
      if d.kref == 0 then None else Some(s.Put().(core := Gone))
    case Gone => None
    case ResetLock =>
      if d.ioMutex != Nobody then None else Some(s.Lock(HeldByCore).(core := ResetWrites))
    case ResetWrites =>
      if s.writes != {} then None else Some(s.(core := ResetRead))
    case ResetRead =>
      if s.readUrb != Idle then None else Some(s.(core := InReset))
    case InReset =>
      Some(s.(dev := d.(errors := -EPIPE), core := ResetUnlock).Raise(-EPIPE))
    case ResetUnlock =>
      Some(s.Lock(Nobody).(core := Bound))
  }

  // ---- Completion callbacks ---------------------------------------------------------------------------

  /** The status of a URB is zero or a negative error. */
  function ReadCallback(s: Shared, status: int, data: seq<Byte>): Option<Shared> {
    if s.readUrb.Idle? || |data| > s.readUrb.length || |data| > |s.dev.buffer| || status > 0 then None
    else Some(s.(dev := s.dev.ReadDone(status, data), readUrb := Idle,
                 produced := if status == 0 then s.produced + data else s.produced).Raise(status))
  }

  function WriteCallback(s: Shared, status: int, buf: Buf): Option<Shared> {
    if buf !in s.writes || status > 0 then None
    else Some(s.(dev := s.dev.WriteDone(status), writes := s.writes - {buf}).Free(buf).Raise(status))
  }

  // ---- The system ---------------------------------------------------------------------------------------

  datatype Step =
    | Start(t: Tid, pc: Pc)
    | Thread(t: Tid, ok: bool, h: Handle)
    | Release(h: Handle)
    | CoreStep(disconnect: bool)
    | ReadCompletes(status: int, data: seq<Byte>)
    | WriteCompletes(status: int, buf: Buf)

  /** Some thread is inside skel_open. */
  predicate Opening(s: State) {
    exists t :: t in s.threads && s.threads[t].OpenGet?
  }

  /** Some file operation on the handle is under way. */
  predicate Uses(s: State, h: Handle) {
    exists t :: t in s.threads && !s.threads[t].OpenGet? && s.threads[t].c.h == h
  }

  /** A thread may enter skel_open until skel_disconnect has cleared the interface data, and a read,
      write or flush on an open handle; an empty read or write returns at once. */
  predicate CanStart(s: Shared, pc: Pc) {
    if pc.OpenGet? then !s.core.Disconnecting()
    else (pc.ReadLock? || pc.WriteDown? || pc.FlushLock?) && pc.c.h in s.handles && pc.c.count > 0
  }

  /** The result of a step, if it can be taken.  skel_release runs when the last operation on the
      handle is over. */
  function Apply(s: State, step: Step): Option<State> {
    match step
    case Start(t, pc) =>
      if t !in s.threads && CanStart(s.sys, pc) then Some(s.(threads := s.threads[t := pc])) else None
    case Thread(t, ok, h) =>
      if t !in s.threads then None
      else
        var m := ThreadMove(s.sys, t, s.threads[t], ok, h);
        if m.Some? then Some(After(s, t, m.value)) else None
    case Release(h) =>
      if h in s.sys.handles && !Uses(s, h) && s.sys.dev.kref > 0
      then Some(s.(sys := s.sys.(handles := s.sys.handles - {h}).Put())) else None
    case CoreStep(disconnect) => WithShared(s, CoreMove(s.sys, Opening(s), disconnect))
    case ReadCompletes(status, data) => WithShared(s, ReadCallback(s.sys, status, data))
    case WriteCompletes(status, buf) => WithShared(s, WriteCallback(s.sys, status, buf))
  }

  function After(s: State, t: Tid, m: Move): State {
    State(m.sys, if m.next.Some? then s.threads[t := m.next.value] else s.threads - {t})
  }

  function WithShared(s: State, sys: Option<Shared>): Option<State> {
    if sys.Some? then Some(s.(sys := sys.value)) else None
  }
}
