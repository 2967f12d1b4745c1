/** How errors of the USB skeleton driver reach callers.  skel_write and skel_flush take an error under
    err_lock; skel_read tests and clears it in two steps without the lock.  Errors are numbered in the order
    in which they were stored in dev.errors. */
module UsbSkelErrors {
  import opened Bytes
  import opened UsbSkel
  import opened UsbSkelSafety

  /** Error k is the one in dev.errors. */
  predicate Pending(s: Shared, k: nat) {
    s.dev.errors < 0 && s.stored == k
  }

  /** How often callers were told error k. */
  function Times(s: Shared, k: nat): nat {
    if k < |s.raised| then s.told[Report(k, Code(s.raised[k]))] else 0
  }

  /** A reader stands between its test of dev.errors, which found error k, and its clearing. */
  ghost predicate Seen(s: State, k: nat) {
    exists t :: t in s.threads && s.threads[t].ReadClear? && s.threads[t].serial == k
  }

  /** Nobody was told error k, and nobody will be. */
  ghost predicate Lost(s: State, k: nat) {
    k < |s.sys.raised| && !Pending(s.sys, k) && Times(s.sys, k) == 0 && !Seen(s, k)
  }

  // ---- The two ways in which the comment "any error is reported once" fails ------------------------------------

  /** A skel_write takes its error branch on error k while a reader that has seen k has not cleared it. */
  ghost predicate Doubles(s: State, step: Step, k: nat) {
    step.Thread? && step.t in s.threads && s.threads[step.t].WriteErrors? && Pending(s.sys, k) && Seen(s, k)
  }

  /** The step stores a new error: a completion with an error, or the end of a reset. */
  predicate Raises(s: Shared, step: Step) {
    || ((step.ReadCompletes? || step.WriteCompletes?) && step.status < 0)
    || (step.CoreStep? && s.core.InReset?)
  }

  /** A reader that saw another error clears error k, or k is overwritten before a reader has seen it. */
  ghost predicate Drops(s: State, step: Step, k: nat) {
    && Pending(s.sys, k)
    && ((step.Thread? && step.t in s.threads && s.threads[step.t].ReadClear? && s.threads[step.t].serial != k)
        || (Raises(s.sys, step) && !Seen(s, k)))
  }

  // ---- What a step does to one error ------------------------------------------------------------------------------

  /** The holder of io_mutex is a reader that has seen error k. */
  predicate Carries(holder: Option<Pc>, k: nat) {
    holder.Some? && holder.value.ReadClear? && holder.value.serial == k
  }

  /** How often callers were told error k, or are about to be. */
  function Claims(s: Shared, holder: Option<Pc>, k: nat): nat {
    Times(s, k) + if Carries(holder, k) then 1 else 0
  }

  /** Errors and reports are of errors that were raised, with their codes. */
  ghost predicate Known(s: Shared, holder: Option<Pc>) {
    && s.dev.errors <= 0
    && (s.dev.errors < 0 ==> s.stored < |s.raised| && s.raised[s.stored] == s.dev.errors)
    && (holder.Some? && holder.value.ReadClear? ==>
          holder.value.serial < |s.raised| && s.raised[holder.value.serial] == holder.value.seen)
    && (forall r :: r in s.told ==> r.serial < |s.raised| && r.code == Code(s.raised[r.serial]))
  }

  /** Nobody was told an error that is still stored. */
  predicate Settled(s: Shared, holder: Option<Pc>, k: nat) {
    (Pending(s, k) ==> Times(s, k) == 0) && Claims(s, holder, k) <= 2
  }

  predicate Gone(s: Shared, holder: Option<Pc>, k: nat) {
    !Pending(s, k) && Claims(s, holder, k) == 0
  }

  /** What becomes of error k, raised before the step. */
  predicate Passes(s: Shared, before: Option<Pc>, r: Shared, after: Option<Pc>, k: nat, doubled: bool, dropped: bool) {
    && Settled(r, after, k)
    && (Claims(r, after, k) == 2 <==> Claims(s, before, k) == 2 || doubled)
    && (Gone(r, after, k) <==> Gone(s, before, k) || dropped)
  }

  predicate SameErrors(s: Shared, r: Shared) {
    r.dev.errors == s.dev.errors && r.stored == s.stored && r.raised == s.raised && r.told == s.told
  }

  /** What a reader carries. */
  function Load(holder: Option<Pc>): Option<(int, nat)> {
    if holder.Some? && holder.value.ReadClear? then Some((holder.value.seen, holder.value.serial)) else None
  }

  lemma NothingNew(s: Shared, before: Option<Pc>, r: Shared, after: Option<Pc>, k: nat)
    requires SameErrors(s, r) && Load(before) == Load(after) && Known(s, before) && Settled(s, before, k)
    ensures Known(r, after) && Passes(s, before, r, after, k, false, false)
  {
  }

  lemma Telling(s: Shared, serial: nat, status: int, k: nat)
    requires serial < |s.raised| && s.raised[serial] == status
    ensures Times(s.Tell(serial, status), k) == Times(s, k) + if serial == k then 1 else 0
    ensures var told := s.Tell(serial, status).told; forall r :: r in told ==> r in s.told || r == Report(serial, Code(status))
  {
  }

  lemma Raising(s: Shared, r: Shared, status: int, holder: Option<Pc>, k: nat)
    requires Known(s, holder) && status < 0 && Settled(s, holder, k)
    requires r.dev.errors == status && r.raised == s.raised + [status] && r.stored == |s.raised| && r.told == s.told
    ensures Known(r, holder) && Settled(r, holder, k)
    ensures if k == |s.raised| then Claims(r, holder, k) == 0 && Pending(r, k)
            else Passes(s, holder, r, holder, k, false, Pending(s, k) && !Carries(holder, k))
  {
    if k < |s.raised| {
      assert r.raised[k] == s.raised[k];
    } else if k == |s.raised| {
      assert Report(k, Code(status)) !in s.told;
    }
  }

  lemma ReaderPasses(s: Shared, t: Tid, pc: Pc, ok: bool, holder: Option<Pc>, k: nat)
    requires Known(s, holder) && HolderIs(s, pc, holder) && pc.Reading() && ReadMove(s, t, pc, ok).Some?
    requires Settled(s, holder, k)
    ensures var m := ReadMove(s, t, pc, ok).value;
      && m.sys.raised == s.raised && Known(m.sys, HolderAfter(pc, m, holder))
      && Passes(s, holder, m.sys, HolderAfter(pc, m, holder), k, false, pc.ReadClear? && Pending(s, k) && pc.serial != k)
  {
    if pc.ReadClear? {
      Telling(s, pc.serial, pc.seen, k);
    } else if pc.ReadErrors? {
    } else {
      var m := ReadMove(s, t, pc, ok).value;
      ReaderElsewhere(s, t, pc, ok, holder);
      NothingNew(s, holder, m.sys, HolderAfter(pc, m, holder), k);
    }
  }

  lemma ReaderElsewhere(s: Shared, t: Tid, pc: Pc, ok: bool, holder: Option<Pc>)
    requires HolderIs(s, pc, holder) && pc.Reading() && !pc.ReadClear? && !pc.ReadErrors? && ReadMove(s, t, pc, ok).Some?
    ensures var m := ReadMove(s, t, pc, ok).value; SameErrors(s, m.sys) && Load(HolderAfter(pc, m, holder)) == Load(holder)
  {
    if pc.ReadData? {} else if pc.Announced() {} else {}
  }

  lemma WriterPasses(s: Shared, t: Tid, pc: Pc, ok: bool, holder: Option<Pc>, k: nat)
    requires Known(s, holder) && HolderIs(s, pc, holder) && pc.Writing() && WriteMove(s, t, pc, ok).Some?
    requires Settled(s, holder, k)
    ensures var m := WriteMove(s, t, pc, ok).value;
      && m.sys.raised == s.raised && Known(m.sys, HolderAfter(pc, m, holder))
      && Passes(s, holder, m.sys, HolderAfter(pc, m, holder), k, pc.WriteErrors? && Pending(s, k) && Carries(holder, k), false)
  {
    var m := WriteMove(s, t, pc, ok).value;
    if pc.WriteErrors? && s.dev.errors < 0 {
      Telling(s, s.stored, s.dev.errors, k);
    } else {
      WriterElsewhere(s, t, pc, ok, holder);
      NothingNew(s, holder, m.sys, HolderAfter(pc, m, holder), k);
    }
  }

  lemma WriterElsewhere(s: Shared, t: Tid, pc: Pc, ok: bool, holder: Option<Pc>)
    requires HolderIs(s, pc, holder) && pc.Writing() && WriteMove(s, t, pc, ok).Some?
    requires !(pc.WriteErrors? && s.dev.errors < 0)
    ensures var m := WriteMove(s, t, pc, ok).value; SameErrors(s, m.sys) && Load(HolderAfter(pc, m, holder)) == Load(holder)
  {
    if pc.Submitting() {} else {}
  }

  lemma FlushPasses(s: Shared, t: Tid, pc: Pc, holder: Option<Pc>, k: nat)
    requires Known(s, holder) && HolderIs(s, pc, holder) && FlushMove(s, t, pc).Some?
    requires Settled(s, holder, k)
    ensures var m := FlushMove(s, t, pc).value;
      && m.sys.raised == s.raised && Known(m.sys, HolderAfter(pc, m, holder))
      && Passes(s, holder, m.sys, HolderAfter(pc, m, holder), k, false, false)
  {
    var m := FlushMove(s, t, pc).value;
    if pc.FlushErrors? && s.dev.errors != 0 {
      Telling(s, s.stored, s.dev.errors, k);
    } else {
      NothingNew(s, holder, m.sys, HolderAfter(pc, m, holder), k);
    }
  }

  lemma ThreadPasses(s: Shared, t: Tid, pc: Pc, ok: bool, h: Handle, holder: Option<Pc>, k: nat)
    requires Known(s, holder) && HolderIs(s, pc, holder) && ThreadMove(s, t, pc, ok, h).Some? && Settled(s, holder, k)
    ensures var m := ThreadMove(s, t, pc, ok, h).value;
      && m.sys.raised == s.raised && Known(m.sys, HolderAfter(pc, m, holder))
      && Passes(s, holder, m.sys, HolderAfter(pc, m, holder), k, pc.WriteErrors? && Pending(s, k) && Carries(holder, k),
                pc.ReadClear? && Pending(s, k) && pc.serial != k)
  {
    if pc.OpenGet? {
      var m := OpenMove(s, ok, h).value;
      NothingNew(s, holder, m.sys, HolderAfter(pc, m, holder), k);
    } else if pc.Reading() {
      ReaderPasses(s, t, pc, ok, holder, k);
    } else if pc.Writing() {
      WriterPasses(s, t, pc, ok, holder, k);
    } else {
      FlushPasses(s, t, pc, holder, k);
    }
  }

  // ---- Steps ----------------------------------------------------------------------------------------------------

  lemma SeenIsCarried(s: State, k: nat)
    requires Mutex(s)
    ensures Seen(s, k) <==> Carries(Holder(s), k)
  {
    if Carries(Holder(s), k) {
      assert s.threads[s.sys.dev.ioMutex.t].serial == k;
    }
  }

  /** What a step from s to r does to error k: a new error is stored, and one that was there before it is told
      twice, or lost, from here on exactly if this step doubles or drops it. */
  ghost predicate StepPasses(s: State, step: Step, r: State, k: nat) {
    && Known(r.sys, Holder(r)) && Settled(r.sys, Holder(r), k)
    && r.sys.raised == s.sys.raised + (if Raises(s.sys, step) then [r.sys.dev.errors] else [])
    && if k == |s.sys.raised| && Raises(s.sys, step) then Claims(r.sys, Holder(r), k) == 0 && Pending(r.sys, k)
       else Passes(s.sys, Holder(s), r.sys, Holder(r), k, Doubles(s, step, k), Drops(s, step, k))
  }

  lemma ThreadStepPasses(s: State, t: Tid, ok: bool, h: Handle, k: nat)
    requires Mutex(s) && Known(s.sys, Holder(s)) && Settled(s.sys, Holder(s), k) && Apply(s, Thread(t, ok, h)).Some?
    ensures StepPasses(s, Thread(t, ok, h), Apply(s, Thread(t, ok, h)).value, k)
  {
    var pc := s.threads[t];
    var m := ThreadMove(s.sys, t, pc, ok, h).value;
    MutexMove(s.sys, t, pc, ok, h);
    MutexAfter(s, t, m);
    ThreadPasses(s.sys, t, pc, ok, h, Holder(s), k);
    SeenIsCarried(s, k);
  }

  lemma CoreErrors(s: Shared, opening: bool, disconnect: bool)
    requires CoreMove(s, opening, disconnect).Some?
    ensures var r := CoreMove(s, opening, disconnect).value;
      if s.core.InReset?
      then r.dev.errors == -EPIPE && r.raised == s.raised + [-EPIPE] && r.stored == |s.raised| && r.told == s.told
      else SameErrors(s, r)
  {
  }

  lemma CoreStepPasses(s: State, disconnect: bool, k: nat)
    requires Mutex(s) && Known(s.sys, Holder(s)) && Settled(s.sys, Holder(s), k) && Apply(s, CoreStep(disconnect)).Some?
    ensures StepPasses(s, CoreStep(disconnect), Apply(s, CoreStep(disconnect)).value, k)
  {
    var r := Apply(s, CoreStep(disconnect)).value;
    MutexCore(s, Opening(s), disconnect);
    CoreErrors(s.sys, Opening(s), disconnect);
    SeenIsCarried(s, k);
    if s.sys.core.InReset? {
      Raising(s.sys, r.sys, -EPIPE, Holder(s), k);
    } else {
      NothingNew(s.sys, Holder(s), r.sys, Holder(r), k);
    }
  }

  lemma CallbackPasses(s: State, step: Step, k: nat)
    requires Mutex(s) && Known(s.sys, Holder(s)) && Settled(s.sys, Holder(s), k) && Apply(s, step).Some?
    requires step.ReadCompletes? || step.WriteCompletes?
    ensures StepPasses(s, step, Apply(s, step).value, k)
  {
    var r := Apply(s, step).value;
    SeenIsCarried(s, k);
    if step.status < 0 {
      Raising(s.sys, r.sys, step.status, Holder(s), k);
    } else {
      NothingNew(s.sys, Holder(s), r.sys, Holder(r), k);
    }
  }

  lemma ErrorStep(s: State, step: Step, k: nat)
    requires Mutex(s) && Known(s.sys, Holder(s)) && Settled(s.sys, Holder(s), k) && Apply(s, step).Some?
    ensures StepPasses(s, step, Apply(s, step).value, k)
  {
    match step
    case Thread(t, ok, h) => ThreadStepPasses(s, t, ok, h, k);
    case CoreStep(disconnect) => CoreStepPasses(s, disconnect, k);
    case ReadCompletes(_, _) => CallbackPasses(s, step, k);
    case WriteCompletes(_, _) => CallbackPasses(s, step, k);
    case _ =>
      var r := Apply(s, step).value;
      NothingNew(s.sys, Holder(s), r.sys, Holder(r), k);
  }

  // ---- Runs -----------------------------------------------------------------------------------------------------

  ghost predicate Doubled(states: seq<State>, steps: seq<Step>, i: nat, k: nat)
    requires i <= |steps| < |states|
  {
    exists j :: 0 <= j < i && Doubles(states[j], steps[j], k)
  }

  ghost predicate Dropped(states: seq<State>, steps: seq<Step>, i: nat, k: nat)
    requires i <= |steps| < |states|
  {
    exists j :: 0 <= j < i && Drops(states[j], steps[j], k)
  }

  /** The state of error k after i steps, told by what happened to it in these steps. */
  ghost predicate History(states: seq<State>, steps: seq<Step>, i: nat, k: nat)
    requires i <= |steps| < |states|
  {
    var s, holder := states[i].sys, Holder(states[i]);
    && Known(s, holder) && Settled(s, holder, k)
    && (Claims(s, holder, k) == 2 <==> Doubled(states, steps, i, k))
    && (k < |s.raised| && Gone(s, holder, k) <==> Dropped(states, steps, i, k))
  }

  lemma {:induction false} RunHistory(states: seq<State>, steps: seq<Step>, i: nat, k: nat)
    requires IsRun(states, steps) && i < |states|
    ensures History(states, steps, i, k)
  {
    if i > 0 {
      RunHistory(states, steps, i - 1, k);
      RunInv(states, steps, i - 1);
      StepOf(states, steps, i);
      ErrorStep(states[i - 1], steps[i - 1], k);
      OneStepMore(states, steps, i, k);
    }
  }

  lemma OneStepMore(states: seq<State>, steps: seq<Step>, i: nat, k: nat)
    requires 0 < i <= |steps| < |states| && History(states, steps, i - 1, k)
    requires StepPasses(states[i - 1], steps[i - 1], states[i], k)
    ensures History(states, steps, i, k)
  {
    assert Doubled(states, steps, i, k) <==> Doubled(states, steps, i - 1, k) || Doubles(states[i - 1], steps[i - 1], k);
    assert Dropped(states, steps, i, k) <==> Dropped(states, steps, i - 1, k) || Drops(states[i - 1], steps[i - 1], k);
  }

  /** An error is told at most twice, and exactly those errors are told twice that a skel_write took while a
      reader stood between its test of the error and its clearing, once that reader has cleared. */
  lemma ToldTwice(states: seq<State>, steps: seq<Step>, i: nat, k: nat)
    requires IsRun(states, steps) && i < |states|
    ensures Times(states[i].sys, k) <= 2
    ensures Times(states[i].sys, k) == 2 <==> Doubled(states, steps, i, k) && !Seen(states[i], k)
  {
    RunHistory(states, steps, i, k);
    RunInv(states, steps, i);
    SeenIsCarried(states[i], k);
  }

  /** Exactly those errors are lost that were overwritten before a reader had seen them, or cleared by a reader
      that had seen another one. */
  lemma WhenLost(states: seq<State>, steps: seq<Step>, i: nat, k: nat)
    requires IsRun(states, steps) && i < |states|
    ensures Lost(states[i], k) <==> Dropped(states, steps, i, k)
  {
    RunHistory(states, steps, i, k);
    RunInv(states, steps, i);
    SeenIsCarried(states[i], k);
  }

  /** What callers are told are errors that were stored: -EPIPE for a reset, or a stalled endpoint, and -EIO
      for all others. */
  lemma ToldTruly(states: seq<State>, steps: seq<Step>, i: nat, r: Report)
    requires IsRun(states, steps) && i < |states| && r in states[i].sys.told
    ensures r.serial < |states[i].sys.raised|
    ensures r.code == if states[i].sys.raised[r.serial] == -EPIPE then -EPIPE else -EIO
  {
    RunHistory(states, steps, i, 0);
  }

  // ---- Both failures, in one run -------------------------------------------------------------------------------

  const CALL := Call(0, 1, false)

  lemma Extend(states: seq<State>, steps: seq<Step>, step: Step) returns (more: seq<State>, steps': seq<Step>)
    requires IsRun(states, steps) && Apply(states[|states| - 1], step).Some?
    ensures IsRun(more, steps') && more[|more| - 1] == Apply(states[|states| - 1], step).value
  {
    more, steps' := states + [Apply(states[|states| - 1], step).value], steps + [step];
    forall k | 0 <= k < |steps'| ensures Apply(more[k], steps'[k]) == Some(more[k + 1]) {
      if k < |steps| { assert Apply(states[k], steps[k]) == Some(states[k + 1]); }
    }
  }

  /** A device with one open handle, and the parts of its state that errors and writes change. */
  function Opened(errors: int, owner: Owner, credits: nat, writes: set<Buf>, freed: multiset<Buf>, nextBuf: Buf,
                  raised: seq<int>, stored: nat, told: multiset<Report>, threads: map<Tid, Pc>): State {
    State(Shared(Dev(credits, [], 0, 0, errors, false, 2, owner, false), Bound, Idle, writes, {0}, 0, writes, freed, nextBuf, [], [],
                 raised, stored, told), threads)
  }

  lemma OpenOnce() returns (states: seq<State>, steps: seq<Step>)
    ensures IsRun(states, steps)
    ensures states[|states| - 1] == Opened(0, Nobody, 8, {}, multiset{}, 0, [], 0, multiset{}, map[])
  {
    var s := State(Shared(Dev(8, [], 0, 0, 0, false, 1, Nobody, false), Bound, Idle, {}, {}, 0, {}, multiset{}, 0, [], [],
                          [], 0, multiset{}), map[]);
    states, steps := Extend([s], [], Start(0, OpenGet));
    states, steps := Extend(states, steps, Thread(0, true, 0));
    assert states[|states| - 1].threads == map[];
  }

  /** A reader gets as far as having seen the error that is stored, and a writer then takes it. */
  lemma ThenBoth(states0: seq<State>, steps0: seq<Step>, errors: int, credits: nat, writes: set<Buf>, freed: multiset<Buf>,
                 nextBuf: Buf) returns (states: seq<State>, steps: seq<Step>)
    requires IsRun(states0, steps0) && credits > 0 && errors < 0
    requires states0[|states0| - 1]
          == Opened(errors, Nobody, credits, writes, freed, nextBuf, [errors], 0, multiset{}, map[])
    ensures IsRun(states, steps)
    ensures states[|states| - 1]
         == Opened(0, Held(1), credits - 1, writes, freed, nextBuf, [errors], 0, multiset{Report(0, Code(errors))},
                   map[1 := ReadClear(CALL, errors, 0), 2 := WriteUp(CALL)])
  {
    states, steps := ThenSeen(states0, steps0, errors, credits, writes, freed, nextBuf);
    states, steps := Extend(states, steps, Start(2, WriteDown(CALL)));
    states, steps := Extend(states, steps, Thread(2, true, 0));
    states, steps := Extend(states, steps, Thread(2, true, 0));
  }

  lemma ThenSeen(states0: seq<State>, steps0: seq<Step>, errors: int, credits: nat, writes: set<Buf>, freed: multiset<Buf>,
                 nextBuf: Buf) returns (states: seq<State>, steps: seq<Step>)
    requires IsRun(states0, steps0) && errors < 0
    requires states0[|states0| - 1]
          == Opened(errors, Nobody, credits, writes, freed, nextBuf, [errors], 0, multiset{}, map[])
    ensures IsRun(states, steps)
    ensures states[|states| - 1]
         == Opened(errors, Held(1), credits, writes, freed, nextBuf, [errors], 0, multiset{}, map[1 := ReadClear(CALL, errors, 0)])
  {
    states, steps := Extend(states0, steps0, Start(1, ReadLock(CALL)));
    states, steps := Extend(states, steps, Thread(1, true, 0));
    states, steps := Extend(states, steps, Thread(1, true, 0));
    states, steps := Extend(states, steps, Thread(1, true, 0));
    states, steps := Extend(states, steps, Thread(1, true, 0));
  }

  /** The only thread under way makes a move. */
  lemma Moves(states0: seq<State>, steps0: seq<Step>, sys: Shared, pc: Pc, m: Move) returns (states: seq<State>, steps: seq<Step>)
    requires IsRun(states0, steps0) && states0[|states0| - 1] == State(sys, map[1 := pc])
    requires ThreadMove(sys, 1, pc, true, 0) == Some(m)
    ensures IsRun(states, steps)
    ensures states[|states| - 1] == State(m.sys, if m.next.Some? then map[1 := m.next.value] else map[])
  {
    states, steps := Extend(states0, steps0, Thread(1, true, 0));
    assert map[1 := pc] - {1} == map[];
  }

  lemma ThenCopied(states0: seq<State>, steps0: seq<Step>, credits: nat, writes: set<Buf>, nextBuf: Buf)
    returns (states: seq<State>, steps: seq<Step>)
    requires IsRun(states0, steps0) && credits > 0
    requires states0[|states0| - 1] == Opened(0, Nobody, credits, writes, multiset{}, nextBuf, [], 0, multiset{}, map[])
    ensures IsRun(states, steps)
    ensures states[|states| - 1] == State(Copied(credits, writes, nextBuf), map[1 := WriteLock(CALL, nextBuf)])
  {
    var s := states0[|states0| - 1].sys;
    var down := s.(dev := s.dev.(limitSem := credits - 1));
    var copied := Copied(credits, writes, nextBuf);
    states, steps := Extend(states0, steps0, Start(1, WriteDown(CALL)));
    states, steps := Moves(states, steps, s, WriteDown(CALL), Move(down, Some(WriteErrors(CALL))));
    states, steps := Moves(states, steps, down, WriteErrors(CALL), Move(down, Some(WriteAlloc(CALL))));
    states, steps := Moves(states, steps, down, WriteAlloc(CALL), Move(copied, Some(WriteCopy(CALL, nextBuf))));
    states, steps := Moves(states, steps, copied, WriteCopy(CALL, nextBuf), Move(copied, Some(WriteLock(CALL, nextBuf))));
  }

  /** One more write has a buffer. */
  function Copied(credits: nat, writes: set<Buf>, nextBuf: Buf): Shared
    requires credits > 0
  {
    var s := Opened(0, Nobody, credits - 1, writes, multiset{}, nextBuf + 1, [], 0, multiset{}, map[]).sys;
    s.(live := writes + {nextBuf})
  }

  /** A whole skel_write, whose URB is then in flight. */
  lemma ThenWrite(states0: seq<State>, steps0: seq<Step>, credits: nat, writes: set<Buf>, nextBuf: Buf)
    returns (states: seq<State>, steps: seq<Step>)
    requires IsRun(states0, steps0) && credits > 0
    requires states0[|states0| - 1] == Opened(0, Nobody, credits, writes, multiset{}, nextBuf, [], 0, multiset{}, map[])
    ensures IsRun(states, steps)
    ensures states[|states| - 1]
         == Opened(0, Nobody, credits - 1, writes + {nextBuf}, multiset{}, nextBuf + 1, [], 0, multiset{}, map[])
  {
    var s := Copied(credits, writes, nextBuf);
    var locked := s.Lock(Held(1));
    var sent := locked.(writes := writes + {nextBuf});
    states, steps := ThenCopied(states0, steps0, credits, writes, nextBuf);
    states, steps := Moves(states, steps, s, WriteLock(CALL, nextBuf), Move(locked, Some(WriteCheck(CALL, nextBuf))));
    states, steps := Moves(states, steps, locked, WriteCheck(CALL, nextBuf), Move(locked, Some(WriteSubmit(CALL, nextBuf))));
    states, steps := Moves(states, steps, locked, WriteSubmit(CALL, nextBuf), Move(sent, Some(WriteUnlock(CALL))));
    states, steps := Moves(states, steps, sent, WriteUnlock(CALL), Move(sent.Lock(Nobody), None));
  }

  lemma ThenFailed() returns (states: seq<State>, steps: seq<Step>)
    ensures IsRun(states, steps)
    ensures states[|states| - 1] == Opened(-71, Nobody, 7, {1}, multiset{0}, 2, [-71], 0, multiset{}, map[])
  {
    states, steps := OpenOnce();
    states, steps := ThenWrite(states, steps, 8, {}, 0);
    states, steps := ThenWrite(states, steps, 7, {0}, 1);
    states, steps := Extend(states, steps, WriteCompletes(-71, 0));
    assert {0} + {1} - {0} == {1};
  }

  /** The comment in skel_read, that any error is reported once, does not hold: a writer may report the error
      between the reader's test and its clearing, and then the reader reports it too. */
  lemma ReportedTwice() returns (states: seq<State>, steps: seq<Step>)
    ensures IsRun(states, steps)
    ensures var s := states[|states| - 1].sys; |s.raised| == 1 && Times(s, 0) == 2
  {
    states, steps := ThenFailed();
    states, steps := ThenBoth(states, steps, -71, 7, {1}, multiset{0}, 2);
    states, steps := Extend(states, steps, Thread(1, true, 0));
  }

  /** Two URBs are in flight.  One ends with -71; a writer takes that error behind a reader that has seen it, and
      before the reader clears, the other URB ends with -EPIPE: the reader clears what it never saw, so that the
      first error is told twice and the second to nobody. */
  lemma TwiceAndNever() returns (states: seq<State>, steps: seq<Step>)
    ensures IsRun(states, steps)
    ensures var s := states[|states| - 1]; s.sys.raised == [-71, -EPIPE] && Times(s.sys, 0) == 2 && Lost(s, 1)
  {
    states, steps := ThenFailed();
    states, steps := ThenBoth(states, steps, -71, 7, {1}, multiset{0}, 2);
    states, steps := Extend(states, steps, WriteCompletes(-EPIPE, 1));
    states, steps := Extend(states, steps, Thread(1, true, 0));
    assert states[|states| - 1].threads == map[1 := ReadUnlock(CALL), 2 := WriteUp(CALL)];
  }
}
