/** The pointer half of the RCU demo (rcu_demo.c): one updater that replaces the object behind g_pfoo
    and retires the old one with call_rcu, the reclaimer, and any number of readers.

    A step is one access to shared memory.  RCU itself is trusted for this much: a callback runs only
    when every reader that was inside a critical section at call_rcu has left it, and what was written
    before rcu_assign_pointer is visible after rcu_dereference. */
module RcuPointer {
  import opened Bytes
  import opened Rcu

  /** A reader inside its critical section: before rcu_dereference, or loading the fields of g_pfoo. */
  datatype Reader = Entered | Loading(p: Ptr, loaded: Loaded)

  /** Where the updater stands in its loop: what it has done last. */
  datatype Updater =
    | Top
    | Allocated(new_: Ptr)
    | HasOld(new_: Ptr, old_: Ptr)
    | Copied(new_: Ptr, old_: Ptr)
    | WroteA(new_: Ptr, old_: Ptr)
    | WroteB(new_: Ptr, old_: Ptr)
    | WroteC(new_: Ptr, old_: Ptr)
    | Published(new_: Ptr, old_: Ptr)

  /** heap has the objects that are allocated and not freed; next is the next address kzalloc returns.
      waiting has the callbacks queued by call_rcu, each with the readers it still waits for.
      seen is what each reader printed, one entry a critical section. */
  datatype State = State(heap: map<Ptr, Foo>, next: Ptr, global: Ptr, updater: Updater, value: int,
                         readers: map<Rid, Reader>, waiting: map<Ptr, set<Rid>>, freed: multiset<Ptr>,
                         seen: map<Rid, seq<Foo>>)
  {
    function SeenBy(r: Rid): seq<Foo> {
      if r in seen then seen[r] else []
    }
  }

  datatype Step =
    | Enter(r: Rid)
    | Dereference(r: Rid)
    | Load(r: Rid, field: Field)
    | Exit(r: Rid)
    | Update
    | Reclaim(p: Ptr)

  /** After module init: g_pfoo is a zeroed object, and the threads are at the top of their loops. */
  predicate Init(s: State) {
    s == State(map[0 := ZEROED], 1, 0, Top, 1, map[], map[], multiset{}, map[])
  }

  /** rcu_reader */
  function ReaderStep(s: State, step: Step): Outcome<State>
    requires step.Enter? || step.Dereference? || step.Load? || step.Exit?
  {
    var r := step.r;
    if step.Enter? then
      if r in s.readers then Blocked else Next(s.(readers := s.readers[r := Entered]))
    else if r !in s.readers then Blocked
    else
      match (step, s.readers[r])
      case (Dereference(_), Entered) =>
        Next(s.(readers := s.readers[r := Loading(s.global, NOTHING)]))
      case (Load(_, field), Loading(p, loaded)) =>
        if p !in s.heap then Fault
        else Next(s.(readers := s.readers[r := Loading(p, loaded.With(s.heap[p], field))]))
      case (Exit(_), Loading(p, loaded)) =>
        if !loaded.Complete() then Blocked
        else Next(s.(readers := s.readers - {r},
                     waiting := map q | q in s.waiting :: s.waiting[q] - {r},
                     seen := s.seen[r := s.SeenBy(r) + [loaded.Print()]]))
      case _ => Blocked
  }

  /** rcu_updater, one access a step; kzalloc is taken to succeed. */
  function UpdaterStep(s: State): Outcome<State> {
    match s.updater
    case Top =>
      Next(s.(heap := s.heap[s.next := ZEROED], next := s.next + 1, updater := Allocated(s.next)))
    case Allocated(n) =>
      Next(s.(updater := HasOld(n, s.global)))
    case HasOld(n, o) =>
      if n !in s.heap || s.global !in s.heap then Fault
      else Next(s.(heap := s.heap[n := s.heap[s.global]], updater := Copied(n, o)))
    case Copied(n, o) =>
      if n !in s.heap then Fault
      else Next(s.(heap := s.heap[n := s.heap[n].(a := s.value)], updater := WroteA(n, o)))
    case WroteA(n, o) =>
      if n !in s.heap then Fault
      else Next(s.(heap := s.heap[n := s.heap[n].(b := s.value + 1)], updater := WroteB(n, o)))
    case WroteB(n, o) =>
      if n !in s.heap then Fault
      else Next(s.(heap := s.heap[n := s.heap[n].(c := s.value + 2)], updater := WroteC(n, o)))
    case WroteC(n, o) =>
      Next(s.(global := n, updater := Published(n, o)))
    case Published(n, o) =>
      // prints the new object, then call_rcu on the old one
      if n !in s.heap || o !in s.heap then Fault
      else Next(s.(waiting := s.waiting[o := s.readers.Keys], value := s.value + 1, updater := Top))
  }

  /** rcu_reclaimer: the callback prints the object and frees it. */
  function ReclaimStep(s: State, p: Ptr): Outcome<State> {
    if p !in s.waiting || s.waiting[p] != {} then Blocked
    else if p !in s.heap then Fault
    else Next(s.(heap := s.heap - {p}, waiting := s.waiting - {p}, freed := s.freed + multiset{p}))
  }

  function Apply(s: State, step: Step): Outcome<State> {
    match step
    case Update => UpdaterStep(s)
    case Reclaim(p) => ReclaimStep(s, p)
    case _ => ReaderStep(s, step)
  }

  // ---- What every step keeps ------------------------------------------------------------------------

  /** The object of update v, once filled. */
  function Version(v: Ptr): Foo {
    if v == 0 then ZEROED else Foo(v, v + 1, v + 2)
  }

  /** Update v allocates object v, and replaces object v - 1. */
  predicate Numbered(s: State) {
    && s.value > 0
    && s.global == (if s.updater.Published? then s.value else s.value - 1)
    && s.next == (if s.updater.Top? then s.value else s.value + 1)
    && (!s.updater.Top? ==> s.updater.new_ == s.value)
    && (!s.updater.Top? && !s.updater.Allocated? ==> s.updater.old_ == s.value - 1)
  }

  predicate BeingFilled(s: State, foo: Foo) {
    match s.updater
    case WroteA(_, _) => foo.a == s.value
    case WroteB(_, _) => foo.a == s.value && foo.b == s.value + 1
    case WroteC(_, _) => foo == Foo(s.value, s.value + 1, s.value + 2)
    case _ => true
  }

  predicate Contents(s: State) {
    && (forall p :: p in s.heap && p <= s.global ==> s.heap[p] == Version(p))
    && (s.next - 1 in s.heap ==> BeingFilled(s, s.heap[s.next - 1]))
  }

  /** Retired objects, those replaced and given to call_rcu, wait or have been freed once. */
  ghost predicate Retired(s: State) {
    && (forall p: Ptr :: p < s.value - 1 ==> (p in s.waiting <==> s.freed[p] == 0) && s.freed[p] <= 1)
    && (forall p: Ptr :: p >= s.value - 1 ==> p !in s.waiting && s.freed[p] == 0)
    && (forall p: Ptr :: p in s.heap <==> p < s.next && s.freed[p] == 0)
  }

  /** A callback waits for every reader that still holds its object. */
  predicate Protected(s: State, r: Rid, reader: Reader) {
    reader.Loading? ==>
      && reader.p <= s.global && reader.p in s.heap
      && reader.loaded.Agrees(s.heap[reader.p])
      && (reader.p in s.waiting ==> r in s.waiting[reader.p])
  }

  ghost predicate Grace(s: State) {
    forall r :: r in s.readers ==> Protected(s, r, s.readers[r])
  }

  ghost predicate Inv(s: State) {
    Numbered(s) && Contents(s) && Retired(s) && Grace(s) && Balanced(s)
  }

  /** Every object is free, waiting, current, or in the updater's hands. */
  ghost predicate Balanced(s: State) {
    s.next == |s.freed| + |s.waiting| + (if s.updater.Top? then 1 else 2)
  }

  lemma NumberedKept(s: State, step: Step)
    requires Numbered(s) && Apply(s, step).Next?
    ensures Numbered(Apply(s, step).s)
  {
  }

  lemma UpdateContents(s: State)
    requires Numbered(s) && Contents(s) && Retired(s) && UpdaterStep(s).Next?
    ensures Contents(UpdaterStep(s).s)
  {
    if s.updater.WroteC? {} else if s.updater.Top? {} else if s.updater.Published? {} else if s.updater.HasOld? {} else {}
  }

  lemma UpdateRetired(s: State)
    requires Numbered(s) && Retired(s) && UpdaterStep(s).Next?
    ensures Retired(UpdaterStep(s).s)
  {
    if s.updater.WroteC? {} else if s.updater.Top? {} else if s.updater.Published? {} else {}
  }

  lemma UpdateBalanced(s: State)
    requires Numbered(s) && Retired(s) && Balanced(s) && UpdaterStep(s).Next?
    ensures Balanced(UpdaterStep(s).s)
  {
    if s.updater.Published? {
      assert s.updater.old_ !in s.waiting.Keys;
    }
  }

  lemma UpdateGrace(s: State)
    requires Numbered(s) && Contents(s) && Retired(s) && Grace(s) && UpdaterStep(s).Next?
    ensures Grace(UpdaterStep(s).s)
  {
  }

  lemma ReclaimRetired(s: State, p: Ptr)
    requires Retired(s) && ReclaimStep(s, p).Next?
    ensures Retired(ReclaimStep(s, p).s)
  {
  }

  /** While a callback waits for a reader its object stays; at a reclaim no reader holds it. */
  lemma ReclaimGrace(s: State, p: Ptr)
    requires Grace(s) && ReclaimStep(s, p).Next?
    ensures Grace(ReclaimStep(s, p).s)
  {
  }

  lemma ReclaimBalanced(s: State, p: Ptr)
    requires Balanced(s) && ReclaimStep(s, p).Next?
    ensures Balanced(ReclaimStep(s, p).s)
  {
    assert (s.waiting - {p}).Keys == s.waiting.Keys - {p};
  }

  lemma ReclaimContents(s: State, p: Ptr)
    requires Numbered(s) && Contents(s) && ReclaimStep(s, p).Next?
    ensures Numbered(ReclaimStep(s, p).s) && Contents(ReclaimStep(s, p).s)
  {
  }

  ghost predicate SameMemory(s: State, r: State) {
    && r.heap == s.heap && r.next == s.next && r.global == s.global && r.updater == s.updater && r.value == s.value
    && r.freed == s.freed && r.waiting.Keys == s.waiting.Keys
  }

  lemma ReaderFrame(s: State, step: Step)
    requires step.Enter? || step.Dereference? || step.Load? || step.Exit?
    requires ReaderStep(s, step).Next?
    ensures SameMemory(s, ReaderStep(s, step).s)
  {
    assert step.Exit? ==> (map q | q in s.waiting :: s.waiting[q] - {step.r}).Keys == s.waiting.Keys;
  }

  lemma MemoryKept(s: State, r: State)
    requires SameMemory(s, r)
    ensures Numbered(s) && Contents(s) ==> Numbered(r) && Contents(r)
    ensures Balanced(s) ==> Balanced(r)
  {
    assert |r.waiting| == |r.waiting.Keys| && |s.waiting| == |s.waiting.Keys|;
  }

  lemma MemoryRetired(s: State, r: State)
    requires SameMemory(s, r) && Retired(s)
    ensures Retired(r)
  {
    assert forall p: Ptr :: p in r.waiting <==> p in r.waiting.Keys;
  }

  lemma ReaderGrace(s: State, step: Step)
    requires step.Enter? || step.Dereference? || step.Load? || step.Exit?
    requires Inv(s) && ReaderStep(s, step).Next?
    ensures Grace(ReaderStep(s, step).s)
  {
  }

  lemma InvUpdate(s: State)
    requires Inv(s) && UpdaterStep(s).Next?
    ensures Inv(UpdaterStep(s).s)
  {
    NumberedKept(s, Update);
    UpdateContents(s);
    UpdateRetired(s);
    UpdateBalanced(s);
    UpdateGrace(s);
  }

  lemma InvReader(s: State, step: Step)
    requires step.Enter? || step.Dereference? || step.Load? || step.Exit?
    requires Inv(s) && ReaderStep(s, step).Next?
    ensures Inv(ReaderStep(s, step).s)
  {
    ReaderFrame(s, step);
    MemoryKept(s, ReaderStep(s, step).s);
    MemoryRetired(s, ReaderStep(s, step).s);
    ReaderGrace(s, step);
  }

  lemma InvReclaim(s: State, p: Ptr)
    requires Inv(s) && ReclaimStep(s, p).Next?
    ensures Inv(ReclaimStep(s, p).s)
  {
    ReclaimRetired(s, p);
    ReclaimGrace(s, p);
    ReclaimBalanced(s, p);
    ReclaimContents(s, p);
  }

  lemma InvKept(s: State, step: Step)
    requires Inv(s) && Apply(s, step).Next?
    ensures Inv(Apply(s, step).s)
  {
    match step
    case Update => InvUpdate(s);
    case Reclaim(p) => InvReclaim(s, p);
    case _ => InvReader(s, step);
  }

  /** No access is to memory that is not allocated. */
  lemma NoFault(s: State, step: Step)
    requires Inv(s)
    ensures Apply(s, step) != Fault
  {
    if !step.Update? && !step.Reclaim? && step.r in s.readers {
      assert Protected(s, step.r, s.readers[step.r]);
    }
  }

  // ---- What readers see ---------------------------------------------------------------------------------

  /** All zero, or v, v + 1, v + 2 from one update. */
  predicate Whole(foo: Foo) {
    foo.a >= 0 && foo == Version(foo.a)
  }

  predicate Ordered(log: seq<Foo>) {
    forall i, j :: 0 <= i < j < |log| ==> log[i].a <= log[j].a
  }

  /** The latest version reader r may go on to print is at least `floor`. */
  predicate Fits(log: seq<Foo>, floor: int) {
    && Ordered(log)
    && (forall i :: 0 <= i < |log| ==> Whole(log[i]) && log[i].a <= floor)
  }

  /** The version reader r prints next is at least this one. */
  function FloorOf(s: State, r: Rid): int {
    if r in s.readers && s.readers[r].Loading? then s.readers[r].p else s.global
  }

  predicate Floor(s: State, r: Rid, log: seq<Foo>) {
    Fits(log, FloorOf(s, r))
  }

  ghost predicate Logs(s: State) {
    forall r :: r in s.seen ==> Floor(s, r, s.seen[r])
  }

  lemma LogSnoc(log: seq<Foo>, foo: Foo, floor: int)
    requires Fits(log, floor) && Whole(foo) && foo.a == floor
    ensures forall higher :: floor <= higher ==> Fits(log + [foo], higher)
  {
  }

  /** Other steps raise the version a reader prints next, and print nothing. */
  lemma FloorRises(s: State, step: Step, r: Rid)
    requires Numbered(s) && Grace(s) && Apply(s, step).Next? && !step.Exit?
    ensures FloorOf(Apply(s, step).s, r) >= FloorOf(s, r)
    ensures Apply(s, step).s.seen == s.seen
  {
    if step.Update? {} else if step.Reclaim? {} else if step.Load? {} else {}
  }

  lemma LogsExit(s: State, r: Rid)
    requires Inv(s) && Logs(s) && ReaderStep(s, Exit(r)).Next?
    ensures Logs(ReaderStep(s, Exit(r)).s)
  {
    var p, log := s.readers[r].p, s.SeenBy(r);
    assert Protected(s, r, s.readers[r]);
    assert Floor(s, r, log);
    LogSnoc(log, s.heap[p], p);
    assert s.heap[p] == Version(p);
  }

  lemma LogsKept(s: State, step: Step)
    requires Inv(s) && Logs(s) && Apply(s, step).Next?
    ensures Logs(Apply(s, step).s)
  {
    if step.Exit? {
      LogsExit(s, step.r);
    } else {
      FloorRises(s, step, 0);
      var n := Apply(s, step).s;
      forall r | r in n.seen ensures Floor(n, r, n.seen[r]) {
        FloorRises(s, step, r);
        assert Floor(s, r, s.seen[r]);
      }
    }
  }

  // ---- Runs -----------------------------------------------------------------------------------------------

  /** Any interleaving of any number of readers, updates and callbacks, from the end of module init. */
  ghost predicate IsRun(states: seq<State>, steps: seq<Step>) {
    && |states| == |steps| + 1 && Init(states[0])
    && forall i :: 0 <= i < |steps| ==> Apply(states[i], steps[i]) == Next(states[i + 1])
  }

  lemma {:induction false} RunInv(states: seq<State>, steps: seq<Step>, i: nat)
    requires IsRun(states, steps) && i < |states|
    ensures Inv(states[i]) && Logs(states[i])
  {
    if i > 0 {
      var k := i - 1;
      RunInv(states, steps, k);
      assert Apply(states[k], steps[k]) == Next(states[k + 1]);
      InvKept(states[k], steps[k]);
      LogsKept(states[k], steps[k]);
    }
  }

  /** No step of a run, by reader, updater or reclaimer, touches a freed object; what a reader has not
      left yet is allocated, and so is what g_pfoo points at. */
  lemma NoUseAfterFree(states: seq<State>, steps: seq<Step>, i: nat, step: Step)
    requires IsRun(states, steps) && i < |states|
    ensures Apply(states[i], step) != Fault
    ensures states[i].global in states[i].heap
    ensures forall r :: r in states[i].readers && states[i].readers[r].Loading? ==> states[i].readers[r].p in states[i].heap
  {
    RunInv(states, steps, i);
    NoFault(states[i], step);
  }

  /** Each critical section sees one whole version, and one reader never sees an older one later. */
  lemma WholeAndForward(states: seq<State>, steps: seq<Step>, i: nat, r: Rid)
    requires IsRun(states, steps) && i < |states|
    ensures forall k :: 0 <= k < |states[i].SeenBy(r)| ==> Whole(states[i].SeenBy(r)[k])
    ensures Ordered(states[i].SeenBy(r))
  {
    RunInv(states, steps, i);
    if r in states[i].seen {
      assert Floor(states[i], r, states[i].seen[r]);
    }
  }

  /** Between updates every replaced object is freed once or still waits, never both; and all objects
      but the current one are accounted for. */
  lemma ReplacedAreFreedOnce(states: seq<State>, steps: seq<Step>, i: nat)
    requires IsRun(states, steps) && i < |states| && states[i].updater.Top?
    ensures var s := states[i];
      && (forall p: Ptr :: p < s.next && p != s.global ==> s.freed[p] == if p in s.waiting then 0 else 1)
      && s.freed[s.global] == 0 && s.global !in s.waiting
      && s.next == |s.freed| + |s.waiting| + 1
  {
    RunInv(states, steps, i);
  }

  // ---- Which version a reader prints ------------------------------------------------------------------------

  lemma StepOf(states: seq<State>, steps: seq<Step>, i: nat)
    requires IsRun(states, steps) && i < |steps|
    ensures Apply(states[i], steps[i]) == Next(states[i + 1])
  {
  }

  lemma GlobalStep(s: State, step: Step)
    requires Numbered(s) && Apply(s, step).Next?
    ensures s.global <= Apply(s, step).s.global
  {
    if step.Update? {} else if step.Reclaim? {} else { ReaderFrame(s, step); }
  }

  lemma GlobalNext(states: seq<State>, steps: seq<Step>, i: nat)
    requires IsRun(states, steps) && i < |steps|
    ensures states[i].global <= states[i + 1].global
  {
    RunInv(states, steps, i);
    StepOf(states, steps, i);
    GlobalStep(states[i], steps[i]);
  }

  lemma {:induction false} GlobalRises(states: seq<State>, steps: seq<Step>, i: nat, j: nat)
    requires IsRun(states, steps) && i <= j < |states|
    ensures states[i].global <= states[j].global
  {
    if i < j {
      GlobalRises(states, steps, i, j - 1);
      GlobalNext(states, steps, j - 1);
    }
  }

  /** At i reader r is in the critical section that it entered at step e. */
  ghost predicate In(steps: seq<Step>, i: nat, r: Rid, e: nat) {
    e < i <= |steps| && steps[e] == Enter(r) && forall k :: e < k < i ==> steps[k] != Enter(r) && steps[k] != Exit(r)
  }

  /** In it r has dereferenced g_pfoo once, at step d. */
  ghost predicate Dereferenced(steps: seq<Step>, i: nat, r: Rid, e: nat, d: nat) {
    In(steps, i, r, e) && e < d < i && steps[d] == Dereference(r) && forall k :: d < k < i ==> steps[k] != Dereference(r)
  }

  /** Where a reader stands, and what it did to come there; p is what g_pfoo was at step d. */
  ghost predicate Story(reader: Option<Reader>, steps: seq<Step>, i: nat, r: Rid, e: nat, d: nat, p: Ptr) {
    reader.Some? ==>
      if reader.value.Entered? then In(steps, i, r, e) else Dereferenced(steps, i, r, e, d) && reader.value.p == p
  }

  function Where(readers: map<Rid, Reader>, r: Rid): Option<Reader> {
    if r in readers then Some(readers[r]) else None
  }

  /** How a step moves reader r, where g_pfoo is p. */
  predicate Moved(before: Option<Reader>, after: Option<Reader>, step: Step, r: Rid, p: Ptr) {
    if step == Enter(r) then after == Some(Entered)
    else if step == Exit(r) then after == None
    else if step == Dereference(r) then before == Some(Entered) && after == Some(Loading(p, NOTHING))
    else if before.Some? && before.value.Loading? then after.Some? && after.value.Loading? && after.value.p == before.value.p
    else after == before
  }

  lemma ReaderMoves(states: seq<State>, steps: seq<Step>, i: nat, r: Rid)
    requires IsRun(states, steps) && i < |steps|
    ensures Moved(Where(states[i].readers, r), Where(states[i + 1].readers, r), steps[i], r, states[i].global)
  {
    StepOf(states, steps, i);
    if steps[i].Update? {} else if steps[i].Reclaim? {} else if steps[i].Exit? {} else {}
  }

  lemma StoryNext(before: Option<Reader>, after: Option<Reader>, steps: seq<Step>, i: nat, r: Rid, e: nat, d: nat, p: Ptr, q: Ptr)
    returns (e': nat, d': nat)
    requires i < |steps| && Story(before, steps, i, r, e, d, p) && Moved(before, after, steps[i], r, q)
    ensures d' == (if steps[i] == Dereference(r) then i else d)
    ensures Story(after, steps, i + 1, r, e', d', if d' == i then q else p)
  {
    e', d' := if steps[i] == Enter(r) then i else e, if steps[i] == Dereference(r) then i else d;
  }

  lemma {:induction false} StoryOf(states: seq<State>, steps: seq<Step>, i: nat, r: Rid) returns (e: nat, d: nat)
    requires IsRun(states, steps) && i < |states|
    ensures d <= i && Story(Where(states[i].readers, r), steps, i, r, e, d, states[d].global)
  {
    e, d := 0, 0;
    if i > 0 {
      e, d := StoryOf(states, steps, i - 1, r);
      ReaderMoves(states, steps, i - 1, r);
      e, d := StoryNext(Where(states[i - 1].readers, r), Where(states[i].readers, r), steps, i - 1, r, e, d,
                        states[d].global, states[i - 1].global);
    }
  }

  /** A critical section prints the object that g_pfoo pointed at when it dereferenced it: one version, whole, and not
      older than the one that was current when it was entered. */
  lemma ExitPrints(states: seq<State>, steps: seq<Step>, i: nat, r: Rid) returns (e: nat, d: nat)
    requires IsRun(states, steps) && i < |steps| && steps[i] == Exit(r)
    ensures Dereferenced(steps, i, r, e, d)
    ensures states[d].global in states[d].heap && states[e].global in states[e].heap
    ensures var printed := states[d].heap[states[d].global];
      && states[i + 1].SeenBy(r) == states[i].SeenBy(r) + [printed]
      && (printed == Foo(0, 0, 0) || (printed.a > 0 && printed == Foo(printed.a, printed.a + 1, printed.a + 2)))
      && printed.a >= states[e].heap[states[e].global].a
  {
    e, d := StoryOf(states, steps, i, r);
    StepOf(states, steps, i);
    RunInv(states, steps, i);
    RunInv(states, steps, d);
    RunInv(states, steps, e);
    GlobalRises(states, steps, e, d);
    GlobalRises(states, steps, d, i);
    assert Protected(states[i], r, states[i].readers[r]);
  }

  /** Nothing else is printed. */
  lemma OnlyExitPrints(states: seq<State>, steps: seq<Step>, i: nat, r: Rid)
    requires IsRun(states, steps) && i < |steps| && steps[i] != Exit(r)
    ensures states[i + 1].SeenBy(r) == states[i].SeenBy(r)
  {
    StepOf(states, steps, i);
    RunInv(states, steps, i);
    if !steps[i].Exit? { FloorRises(states[i], steps[i], r); }
  }

  /** A reader is never held up: it can always enter, dereference once, load the fields of what it dereferenced, and
      leave once it has all three. */
  lemma ReaderGoesOn(states: seq<State>, steps: seq<Step>, i: nat, r: Rid, field: Field)
    requires IsRun(states, steps) && i < |states|
    ensures var s := states[i];
      && (Apply(s, Enter(r)).Next? <==> r !in s.readers)
      && (Apply(s, Dereference(r)).Next? <==> r in s.readers && s.readers[r].Entered?)
      && (Apply(s, Load(r, field)).Next? <==> r in s.readers && s.readers[r].Loading?)
      && (Apply(s, Exit(r)).Next? <==> r in s.readers && s.readers[r].Loading? && s.readers[r].loaded.Complete())
    ensures var s := states[i]; Apply(s, Load(r, field)).Next? ==>
      var before, after := s.readers[r].loaded, Apply(s, Load(r, field)).s.readers[r].loaded;
      && (after.a.Some? <==> before.a.Some? || field.FieldA?)
      && (after.b.Some? <==> before.b.Some? || field.FieldB?)
      && (after.c.Some? <==> before.c.Some? || field.FieldC?)
  {
    RunInv(states, steps, i);
    NoFault(states[i], Load(r, field));
  }

  // ---- The updater and the callbacks --------------------------------------------------------------------------

  /** How far the updater has come: eight accesses a turn. */
  function Progress(s: State): int {
    8 * s.value + match s.updater
                  case Top => 0
                  case Allocated(_) => 1
                  case HasOld(_, _) => 2
                  case Copied(_, _) => 3
                  case WroteA(_, _) => 4
                  case WroteB(_, _) => 5
                  case WroteC(_, _) => 6
                  case Published(_, _) => 7
  }

  /** The updater is never held up: it always goes on to its next access.  Within eight of them it makes its next
      version current, and it ends a turn by giving the object it replaced to call_rcu, which waits for exactly the
      readers there are. */
  lemma UpdaterGoesOn(states: seq<State>, steps: seq<Step>, i: nat)
    requires IsRun(states, steps) && i < |states|
    ensures var s := states[i];
      && Apply(s, Update).Next?
      && var n := Apply(s, Update).s;
         && Progress(n) == Progress(s) + 1
         && (s.updater.WroteC? ==>
               n.global != s.global && n.global in n.heap && n.heap[n.global] == Foo(s.value, s.value + 1, s.value + 2))
         && (s.updater.Published? ==> n.waiting == s.waiting[s.updater.old_ := s.readers.Keys] && s.updater.old_ == s.global - 1)
         && (s.updater.HasOld? ==> s.updater.new_ in n.heap && n.heap[s.updater.new_] == s.heap[s.global])
         && (!s.updater.WroteC? ==> n.global == s.global) && (!s.updater.Published? ==> n.waiting == s.waiting)
  {
    RunInv(states, steps, i);
    NoFault(states[i], Update);
  }

  /** A reader that leaves is waited for no longer, by any callback, and is the only one. */
  lemma ExitReleases(states: seq<State>, steps: seq<Step>, i: nat, r: Rid, p: Ptr)
    requires IsRun(states, steps) && i < |steps| && steps[i] == Exit(r)
    ensures var s, n := states[i], states[i + 1];
      (p in n.waiting <==> p in s.waiting) && (p in s.waiting ==> n.waiting[p] == s.waiting[p] - {r})
  {
    StepOf(states, steps, i);
  }

  /** A callback is due exactly when all the readers it waits for have left; it then frees its object and is gone. */
  lemma ReclaimWhenDue(states: seq<State>, steps: seq<Step>, i: nat, p: Ptr)
    requires IsRun(states, steps) && i < |states|
    ensures var s := states[i];
      if p in s.waiting && s.waiting[p] == {}
      then Apply(s, Reclaim(p)) == Next(s.(heap := s.heap - {p}, waiting := s.waiting - {p}, freed := s.freed + multiset{p}))
      else Apply(s, Reclaim(p)) == Blocked
  {
    RunInv(states, steps, i);
  }
}
