/** The list half of the RCU demo (rcu_demo.c): one updater that replaces the first entry of g_rcu_list,
    waits with synchronize_rcu and frees the old entry, and any number of readers walking the list.

    A step is one access to shared memory; list_replace_rcu is five of them.  synchronize_rcu is
    trusted to return only when every reader that was inside a critical section at its start has left. */
module RcuList {
  import opened Bytes
  import opened Rcu

  /** Where a list pointer leads: the head, an entry, or LIST_POISON2. */
  datatype Link = Head | At(p: Ptr) | Poison

  datatype Node = Node(foo: Foo, next: Link, prev: Link)

  /** A reader inside its critical section.  visited is what this walk has printed. */
  datatype Walker =
    | Begun
    | On(p: Ptr, loaded: Loaded, visited: seq<Foo>)
    | Done(visited: seq<Foo>)

  /** What the updater has done last in this turn of its loop. */
  datatype Stage =
    | Looped | GotFirst | Kzalloced | StructCopied | SetA | SetB | SetC
    | SetNext | SetPrev | Linked | LinkedBack | Poisoned | Synchronizing
  {
    function Rank(): nat {
      match this
      case Looped => 0
      case GotFirst => 1
      case Kzalloced => 2
      case StructCopied => 3
      case SetA => 4
      case SetB => 5
      case SetC => 6
      case SetNext => 7
      case SetPrev => 8
      case Linked => 9
      case LinkedBack => 10
      case Poisoned => 11
      case Synchronizing => 12
    }
  }

  /** p and q are the updater's variables: the entry being replaced and its replacement. */
  datatype State = State(heap: map<Ptr, Node>, headNext: Link, headPrev: Link, fresh_: Ptr,
                                 stage: Stage, p: Ptr, q: Ptr, value: int, waitFor: set<Rid>,
                                 walkers: map<Rid, Walker>, freed: multiset<Ptr>, walks: map<Rid, seq<seq<Foo>>>)
  {
    function WalksOf(r: Rid): seq<seq<Foo>> {
      if r in walks then walks[r] else []
    }
  }

  datatype Step =
    | Enter(r: Rid)
    | First(r: Rid)
    | Load(r: Rid, field: Field)
    | Advance(r: Rid)
    | Exit(r: Rid)
    | Update

  /** After module init: one zeroed entry on the list. */
  predicate Init(s: State) {
    s == State(map[0 := Node(ZEROED, Head, Head)], At(0), At(0), 1, Looped, s.p, s.q, 1000, {}, map[], multiset{}, map[])
  }

  /** list_for_each_entry_rcu goes on to where a next pointer leads. */
  function Follow(link: Link, visited: seq<Foo>): Option<Walker> {
    match link
    case Head => Some(Done(visited))
    case At(p) => Some(On(p, NOTHING, visited))
    case Poison => None
  }

  function WalkerMoves(s: State, r: Rid, w: Option<Walker>): Outcome<State> {
    if w.None? then Fault else Next(s.(walkers := s.walkers[r := w.value]))
  }

  /** rcu_reader_list */
  function WalkerStep(s: State, step: Step): Outcome<State>
    requires !step.Update?
  {
    var r := step.r;
    if step.Enter? then
      if r in s.walkers then Blocked else Next(s.(walkers := s.walkers[r := Begun]))
    else if r !in s.walkers then Blocked
    else
      match (step, s.walkers[r])
      case (First(_), Begun) => WalkerMoves(s, r, Follow(s.headNext, []))
      case (Load(_, field), On(p, loaded, visited)) =>
        if p !in s.heap then Fault
        else WalkerMoves(s, r, Some(On(p, loaded.With(s.heap[p].foo, field), visited)))
      case (Advance(_), On(p, loaded, visited)) =>
        if !loaded.Complete() then Blocked
        else if p !in s.heap then Fault
        else WalkerMoves(s, r, Follow(s.heap[p].next, visited + [loaded.Print()]))
      case (Exit(_), Done(visited)) =>
        Next(s.(walkers := s.walkers - {r}, waitFor := s.waitFor - {r},
                walks := s.walks[r := s.WalksOf(r) + [visited]]))
      case _ => Blocked
  }

  /** Stores a next or a prev pointer into the head or an entry. */
  function StoreNext(s: State, at: Link, link: Link): Outcome<State> {
    match at
    case Head => Next(s.(headNext := link))
    case At(p) => if p in s.heap then Next(s.(heap := s.heap[p := s.heap[p].(next := link)])) else Fault
    case Poison => Fault
  }

  function StorePrev(s: State, at: Link, link: Link): Outcome<State> {
    match at
    case Head => Next(s.(headPrev := link))
    case At(p) => if p in s.heap then Next(s.(heap := s.heap[p := s.heap[p].(prev := link)])) else Fault
    case Poison => Fault
  }

  function StoreFoo(s: State, foo: Foo): Outcome<State>
    requires s.q in s.heap
  {
    Next(s.(heap := s.heap[s.q := s.heap[s.q].(foo := foo)]))
  }

  function Then(o: Outcome<State>, stage: Stage): Outcome<State> {
    if o.Next? then Next(o.s.(stage := stage)) else o
  }

  /** rcu_updater_list; kzalloc is taken to succeed. */
  function UpdaterStep(s: State): Outcome<State> {
    match s.stage
    case Looped =>
      // list_first_or_null_rcu gives NULL for an empty list, which *q = *p then reads
      if s.headNext.At? then Next(s.(p := s.headNext.p, stage := GotFirst)) else Fault
    case GotFirst =>
      Next(s.(heap := s.heap[s.fresh_ := Node(ZEROED, Head, Head)], q := s.fresh_, fresh_ := s.fresh_ + 1, stage := Kzalloced))
    case Synchronizing =>
      // kfree(p) once synchronize_rcu has returned
      if s.waitFor != {} then Blocked
      else if s.p !in s.heap then Fault
      else Next(s.(heap := s.heap - {s.p}, freed := s.freed + multiset{s.p}, value := s.value + 1, stage := Looped))
    case Poisoned =>
      // prints the new entry, then synchronize_rcu
      if s.q !in s.heap then Fault else Next(s.(waitFor := s.walkers.Keys, stage := Synchronizing))
    case _ =>
      if s.p !in s.heap || s.q !in s.heap then Fault else Replace(s, s.heap[s.p], s.heap[s.q])
  }

  /** From *q = *p to the end of list_replace_rcu. */
  function Replace(s: State, old_: Node, new_: Node): Outcome<State>
    requires s.q in s.heap
  {
    match s.stage
    case Kzalloced => Next(s.(heap := s.heap[s.q := old_], stage := StructCopied))
    case StructCopied => Then(StoreFoo(s, new_.foo.(a := s.value)), SetA)
    case SetA => Then(StoreFoo(s, new_.foo.(b := s.value + 1)), SetB)
    case SetB => Then(StoreFoo(s, new_.foo.(c := s.value + 2)), SetC)
    case SetC => Then(StoreNext(s, At(s.q), old_.next), SetNext)
    case SetNext => Then(StorePrev(s, At(s.q), old_.prev), SetPrev)
    case SetPrev => Then(StoreNext(s, new_.prev, At(s.q)), Linked)
    case Linked => Then(StorePrev(s, new_.next, At(s.q)), LinkedBack)
    case LinkedBack => Then(StorePrev(s, At(s.p), Poison), Poisoned)
    case _ => Blocked
  }

  function Apply(s: State, step: Step): Outcome<State> {
    if step.Update? then UpdaterStep(s) else WalkerStep(s, step)
  }

  // ---- What every step keeps -------------------------------------------------------------------------

  /** The entry of turn k of the loop, once filled; entry 0 is the one from module init. */
  function Entry(k: int): Foo {
    if k == 0 then ZEROED else Foo(999 + k, 1000 + k, 1001 + k)
  }

  /** The turn of the loop the updater is in, from 1. */
  function Turn(s: State): int {
    s.value - 999
  }

  function Current(s: State): int {
    if s.stage.Rank() >= Linked.Rank() then Turn(s) else Turn(s) - 1
  }

  predicate Placed(s: State) {
    var k, rank := Turn(s), s.stage.Rank();
    && k >= 1
    && s.fresh_ == (if rank < Kzalloced.Rank() then k else k + 1)
    && (rank >= GotFirst.Rank() ==> s.p == k - 1)
    && (rank >= Kzalloced.Rank() ==> s.q == k)
    && s.headNext == At(Current(s))
    && s.headPrev == At(if rank >= LinkedBack.Rank() then k else k - 1)
    && s.heap.Keys == (if rank < Kzalloced.Rank() then {k - 1} else {k - 1, k})
    && (rank < Synchronizing.Rank() ==> s.waitFor == {})
  }

  /** The entry on its way out: readers on it still find their way to the end. */
  predicate OldEntry(s: State)
    requires Placed(s)
  {
    s.heap[Turn(s) - 1] == Node(Entry(Turn(s) - 1), Head, if s.stage.Rank() >= Poisoned.Rank() then Poison else Head)
  }

  predicate NewEntry(s: State)
    requires Placed(s)
  {
    var k, rank := Turn(s), s.stage.Rank();
    rank >= Kzalloced.Rank() ==>
      && s.heap[k].next == Head && s.heap[k].prev == Head
      && (rank >= SetA.Rank() ==> s.heap[k].foo.a == Entry(k).a)
      && (rank >= SetB.Rank() ==> s.heap[k].foo.b == Entry(k).b)
      && (rank >= SetC.Rank() ==> s.heap[k].foo == Entry(k))
  }

  predicate Shape(s: State) {
    Placed(s) && OldEntry(s) && NewEntry(s)
  }

  ghost predicate FreedOnce(s: State) {
    forall p: Ptr :: s.freed[p] == if p < Turn(s) - 1 then 1 else 0
  }

  lemma ShapeFill(s: State)
    requires Shape(s) && Kzalloced.Rank() <= s.stage.Rank() < SetC.Rank()
    ensures UpdaterStep(s).Next? && Shape(UpdaterStep(s).s)
  {
    if s.stage.Kzalloced? {} else if s.stage.StructCopied? {} else if s.stage.SetA? {} else {}
  }

  lemma ShapeLinkNew(s: State)
    requires Shape(s) && (s.stage.SetC? || s.stage.SetNext?)
    ensures UpdaterStep(s).Next? && Shape(UpdaterStep(s).s)
  {
    if s.stage.SetC? {} else {}
  }

  lemma ShapeLinkOld(s: State)
    requires Shape(s) && (s.stage.SetPrev? || s.stage.Linked? || s.stage.LinkedBack?)
    ensures UpdaterStep(s).Next? && Shape(UpdaterStep(s).s)
  {
    if s.stage.SetPrev? {} else if s.stage.Linked? {} else {}
  }

  lemma ShapeLink(s: State)
    requires Shape(s) && SetC.Rank() <= s.stage.Rank() < Poisoned.Rank()
    ensures UpdaterStep(s).Next? && Shape(UpdaterStep(s).s)
  {
    if s.stage.SetC? || s.stage.SetNext? { ShapeLinkNew(s); } else { ShapeLinkOld(s); }
  }

  lemma ShapeUpdate(s: State)
    requires Shape(s) && UpdaterStep(s).Next?
    ensures Shape(UpdaterStep(s).s)
  {
    if Kzalloced.Rank() <= s.stage.Rank() < SetC.Rank() { ShapeFill(s); }
    else if SetC.Rank() <= s.stage.Rank() < Poisoned.Rank() { ShapeLink(s); }
    else {}
  }

  lemma FreedUpdate(s: State)
    requires Shape(s) && FreedOnce(s) && UpdaterStep(s).Next?
    ensures FreedOnce(UpdaterStep(s).s)
  {
  }

  /** Which turn an entry is from. */
  function Index(foo: Foo): int {
    if foo.a == 0 then 0 else foo.a - 999
  }

  /** All zero, or v, v + 1, v + 2 from one update. */
  predicate Whole(foo: Foo) {
    Index(foo) >= 0 && foo == Entry(Index(foo))
  }

  /** A reader is on an entry that is still allocated, and that synchronize_rcu waits for it to leave. */
  predicate WalkerOk(s: State, r: Rid, w: Walker)
    requires Shape(s)
  {
    match w
    case Begun => true
    case On(p, loaded, visited) =>
      && visited == [] && Turn(s) - 1 <= p <= Current(s) && loaded.Agrees(Entry(p))
      && (s.stage.Synchronizing? && p == Turn(s) - 1 ==> r in s.waitFor)
    case Done(visited) =>
      |visited| == 1 && Whole(visited[0]) && Index(visited[0]) <= Current(s)
  }

  ghost predicate Grace(s: State)
    requires Shape(s)
  {
    forall r :: r in s.walkers ==> WalkerOk(s, r, s.walkers[r])
  }

  ghost predicate Inv(s: State) {
    Shape(s) && FreedOnce(s) && Grace(s)
  }

  /** The current entry and the one on its way out are filled, and lead back to the head. */
  lemma EntryAt(s: State, p: Ptr)
    requires Shape(s) && Turn(s) - 1 <= p <= Current(s)
    ensures p in s.heap && s.heap[p].foo == Entry(p) && s.heap[p].next == Head
  {
  }

  lemma IndexOfEntry(k: nat)
    ensures Index(Entry(k)) == k && Whole(Entry(k))
  {
  }

  lemma ReplaceFrame(s: State, old_: Node, new_: Node)
    requires s.q in s.heap && Replace(s, old_, new_).Next?
    ensures var n := Replace(s, old_, new_).s;
      && n.walkers == s.walkers && n.walks == s.walks && n.value == s.value && n.waitFor == s.waitFor
      && n.stage.Rank() == s.stage.Rank() + 1
  {
  }

  lemma UpdateFrame(s: State)
    requires Shape(s) && UpdaterStep(s).Next?
    ensures var n := UpdaterStep(s).s;
      && n.walkers == s.walkers && n.walks == s.walks && Current(n) >= Current(s)
      && (if s.stage.Synchronizing? then Turn(n) == Turn(s) + 1 && s.waitFor == {} else Turn(n) == Turn(s))
      && (n.stage.Synchronizing? ==> n.waitFor == s.walkers.Keys)
  {
    if Kzalloced.Rank() <= s.stage.Rank() < Poisoned.Rank() { ReplaceFrame(s, s.heap[s.p], s.heap[s.q]); } else {}
  }

  lemma GraceUpdate(s: State)
    requires Inv(s) && UpdaterStep(s).Next?
    ensures Inv(UpdaterStep(s).s)
  {
    ShapeUpdate(s);
    FreedUpdate(s);
    UpdateFrame(s);
    var n := UpdaterStep(s).s;
    forall r | r in n.walkers ensures WalkerOk(n, r, n.walkers[r]) {
      assert WalkerOk(s, r, s.walkers[r]);
    }
  }

  lemma WalkerFrame(s: State, step: Step)
    requires !step.Update? && WalkerStep(s, step).Next?
    ensures var n := WalkerStep(s, step).s;
      && n == s.(walkers := n.walkers, waitFor := n.waitFor, walks := n.walks)
      && (forall r :: r != step.r ==> (r in n.walkers <==> r in s.walkers) && (r in n.walkers ==> n.walkers[r] == s.walkers[r]))
      && (forall r :: r != step.r ==> (r in n.waitFor <==> r in s.waitFor))
      && n.waitFor <= s.waitFor
  {
  }

  lemma ShapeSame(s: State, step: Step)
    requires !step.Update? && Shape(s) && WalkerStep(s, step).Next?
    ensures var n := WalkerStep(s, step).s; Shape(n) && Turn(n) == Turn(s) && Current(n) == Current(s)
  {
    WalkerFrame(s, step);
  }

  lemma WalkerStarted(s: State, r: Rid)
    requires Inv(s) && WalkerStep(s, First(r)).Next?
    ensures var n := WalkerStep(s, First(r)).s; Shape(n) && r in n.walkers && WalkerOk(n, r, n.walkers[r])
  {
    ShapeSame(s, First(r));
  }

  lemma WalkerLoaded(s: State, r: Rid, field: Field)
    requires Inv(s) && WalkerStep(s, Load(r, field)).Next?
    ensures var n := WalkerStep(s, Load(r, field)).s; Shape(n) && r in n.walkers && WalkerOk(n, r, n.walkers[r])
  {
    ShapeSame(s, Load(r, field));
    assert WalkerOk(s, r, s.walkers[r]);
    EntryAt(s, s.walkers[r].p);
  }

  lemma WalkerAdvanced(s: State, r: Rid)
    requires Inv(s) && WalkerStep(s, Advance(r)).Next?
    ensures var n := WalkerStep(s, Advance(r)).s; Shape(n) && r in n.walkers && WalkerOk(n, r, n.walkers[r])
  {
    ShapeSame(s, Advance(r));
    assert WalkerOk(s, r, s.walkers[r]);
    EntryAt(s, s.walkers[r].p);
    IndexOfEntry(s.walkers[r].p);
  }

  lemma WalkerMoved(s: State, step: Step)
    requires !step.Update? && Inv(s) && WalkerStep(s, step).Next? && step.r in WalkerStep(s, step).s.walkers
    ensures var n := WalkerStep(s, step).s; Shape(n) && WalkerOk(n, step.r, n.walkers[step.r])
  {
    match step
    case First(r) => WalkerStarted(s, r);
    case Load(r, field) => WalkerLoaded(s, r, field);
    case Advance(r) => WalkerAdvanced(s, r);
    case _ => ShapeSame(s, step);
  }

  lemma GraceWalker(s: State, step: Step)
    requires !step.Update? && Inv(s) && WalkerStep(s, step).Next?
    ensures Inv(WalkerStep(s, step).s)
  {
    var n := WalkerStep(s, step).s;
    WalkerFrame(s, step);
    forall r | r in n.walkers ensures WalkerOk(n, r, n.walkers[r]) {
      if r == step.r {
        WalkerMoved(s, step);
      } else {
        assert WalkerOk(s, r, s.walkers[r]);
      }
    }
  }

  lemma NoFault(s: State, step: Step)
    requires Inv(s)
    ensures Apply(s, step) != Fault
  {
    if step.Update? {
    } else if step.r in s.walkers && s.walkers[step.r].On? {
      assert WalkerOk(s, step.r, s.walkers[step.r]);
      EntryAt(s, s.walkers[step.r].p);
    }
  }

  // ---- What readers see ---------------------------------------------------------------------------------

  predicate OneWhole(walk: seq<Foo>) {
    |walk| == 1 && Whole(walk[0])
  }

  /** Every walk printed one whole entry, never an older one than the walk before, and none newer than `floor`. */
  predicate Fits(log: seq<seq<Foo>>, floor: int) {
    && (forall i :: 0 <= i < |log| ==> OneWhole(log[i]) && Index(log[i][0]) <= floor)
    && (forall i, j :: 0 <= i < j < |log| ==> Index(log[i][0]) <= Index(log[j][0]))
  }

  /** The entry reader r prints next is at least this one. */
  function FloorOf(s: State, r: Rid): int {
    if r !in s.walkers then Current(s)
    else
      match s.walkers[r]
      case Begun => Current(s)
      case On(p, _, _) => p
      case Done(visited) => if |visited| == 1 then Index(visited[0]) else 0
  }

  ghost predicate Logs(s: State) {
    forall r :: r in s.walks ==> Fits(s.walks[r], FloorOf(s, r))
  }

  lemma LogSnoc(log: seq<seq<Foo>>, walk: seq<Foo>, floor: int)
    requires Fits(log, floor) && OneWhole(walk) && Index(walk[0]) == floor
    ensures forall higher :: floor <= higher ==> Fits(log + [walk], higher)
  {
  }

  lemma FloorRises(s: State, step: Step, r: Rid)
    requires Inv(s) && Apply(s, step).Next? && !step.Exit?
    ensures FloorOf(Apply(s, step).s, r) >= FloorOf(s, r) && Apply(s, step).s.walks == s.walks
  {
    if step.Update? {
      UpdateFrame(s);
    } else {
      WalkerFrame(s, step);
      if step.r in s.walkers {
        assert WalkerOk(s, step.r, s.walkers[step.r]);
        if step.Advance? { EntryAt(s, s.walkers[step.r].p); IndexOfEntry(s.walkers[step.r].p); }
      }
    }
  }

  lemma LogsExit(s: State, r: Rid)
    requires Inv(s) && Logs(s) && WalkerStep(s, Exit(r)).Next?
    ensures Logs(WalkerStep(s, Exit(r)).s)
  {
    var visited, n := s.walkers[r].visited, WalkerStep(s, Exit(r)).s;
    assert WalkerOk(s, r, s.walkers[r]);
    assert Fits(s.WalksOf(r), FloorOf(s, r));
    LogSnoc(s.WalksOf(r), visited, FloorOf(s, r));
    forall u | u in n.walks ensures Fits(n.walks[u], FloorOf(n, u)) {
      if u != r { assert FloorOf(n, u) == FloorOf(s, u); }
    }
  }

  lemma LogsKept(s: State, step: Step)
    requires Inv(s) && Logs(s) && Apply(s, step).Next?
    ensures Logs(Apply(s, step).s)
  {
    if step.Exit? {
      LogsExit(s, step.r);
    } else {
      var n := Apply(s, step).s;
      FloorRises(s, step, 0);
      forall r | r in n.walks ensures Fits(n.walks[r], FloorOf(n, r)) {
        FloorRises(s, step, r);
      }
    }
  }

  lemma InvKept(s: State, step: Step)
    requires Inv(s) && Apply(s, step).Next?
    ensures Inv(Apply(s, step).s)
  {
    if step.Update? { GraceUpdate(s); } else { GraceWalker(s, step); }
  }

  // ---- Runs -----------------------------------------------------------------------------------------------

  /** Any interleaving of any number of readers and updates, from the end of module init. */
  ghost predicate IsRun(states: seq<State>, steps: seq<Step>) {
    && |states| == |steps| + 1 && Init(states[0])
    && forall i :: 0 <= i < |steps| ==> Apply(states[i], steps[i]) == Next(states[i + 1])
  }

  lemma {:induction false} RunInv(states: seq<State>, steps: seq<Step>, i: nat)
    requires IsRun(states, steps) && i < |states|
    ensures Inv(states[i]) && Logs(states[i])
  {
    if i > 0 {
      var k := i - 1;
      RunInv(states, steps, k);
      assert Apply(states[k], steps[k]) == Next(states[k + 1]);
      InvKept(states[k], steps[k]);
      LogsKept(states[k], steps[k]);
    }
  }

  /** No step of a run, by reader or updater, touches a freed entry or follows a poisoned pointer. */
  lemma NoUseAfterFree(states: seq<State>, steps: seq<Step>, i: nat, step: Step)
    requires IsRun(states, steps) && i < |states|
    ensures Apply(states[i], step) != Fault
  {
    RunInv(states, steps, i);
    NoFault(states[i], step);
  }

  /** Each walk meets exactly one entry, sees one whole version of it, and no reader ever goes back. */
  lemma OneEntryAWalk(states: seq<State>, steps: seq<Step>, i: nat, r: Rid)
    requires IsRun(states, steps) && i < |states|
    ensures var log := states[i].WalksOf(r);
      && (forall k :: 0 <= k < |log| ==> OneWhole(log[k]))
      && (forall j, k :: 0 <= j < k < |log| ==> Index(log[j][0]) <= Index(log[k][0]))
  {
    RunInv(states, steps, i);
  }

  /** At most one entry is retired and not yet freed; every entry before it was freed once.  Between
      updates there is just the current entry, and it and the head point at each other. */
  lemma OneRetired(states: seq<State>, steps: seq<Step>, i: nat)
    requires IsRun(states, steps) && i < |states|
    ensures var s := states[i]; var k := Turn(s);
      && k >= 1 && |s.heap| <= 2
      && (forall p: Ptr :: s.freed[p] == if p < k - 1 then 1 else 0)
      && (s.stage.Looped? ==> s.heap == map[k - 1 := Node(Entry(k - 1), Head, Head)]
                              && s.headNext == At(k - 1) && s.headPrev == At(k - 1) && s.fresh_ == k)
  {
    RunInv(states, steps, i);
    var s := states[i];
    assert |s.heap| == |s.heap.Keys|;
  }

  // ---- Which entry a walk prints --------------------------------------------------------------------------------

  lemma StepOf(states: seq<State>, steps: seq<Step>, i: nat)
    requires IsRun(states, steps) && i < |steps|
    ensures Apply(states[i], steps[i]) == Next(states[i + 1])
  {
  }

  lemma CurrentStep(s: State, step: Step)
    requires Inv(s) && Apply(s, step).Next?
    ensures Current(s) <= Current(Apply(s, step).s)
  {
    if step.Update? { UpdateFrame(s); } else { WalkerFrame(s, step); }
  }

  lemma CurrentNext(states: seq<State>, steps: seq<Step>, i: nat)
    requires IsRun(states, steps) && i < |steps|
    ensures Current(states[i]) <= Current(states[i + 1])
  {
    RunInv(states, steps, i);
    StepOf(states, steps, i);
    CurrentStep(states[i], steps[i]);
  }

  lemma {:induction false} CurrentRises(states: seq<State>, steps: seq<Step>, i: nat, j: nat)
    requires IsRun(states, steps) && i <= j < |states|
    ensures Current(states[i]) <= Current(states[j])
  {
    if i < j {
      CurrentRises(states, steps, i, j - 1);
      CurrentNext(states, steps, j - 1);
    }
  }

  /** At i reader r is in the critical section that it entered at step e. */
  ghost predicate In(steps: seq<Step>, i: nat, r: Rid, e: nat) {
    e < i <= |steps| && steps[e] == Enter(r) && forall k :: e < k < i ==> steps[k] != Enter(r) && steps[k] != Exit(r)
  }

  /** In it r has taken the first entry of the list once, at step f. */
  ghost predicate Started(steps: seq<Step>, i: nat, r: Rid, e: nat, f: nat) {
    In(steps, i, r, e) && e < f < i && steps[f] == First(r) && forall k :: f < k < i ==> steps[k] != First(r)
  }

  /** Where a reader stands, and what it did to come there; p was the first entry at step f. */
  ghost predicate Story(w: Option<Walker>, steps: seq<Step>, i: nat, r: Rid, e: nat, f: nat, p: int) {
    w.Some? ==>
      if w.value.Begun? then In(steps, i, r, e)
      else Started(steps, i, r, e, f) && (if w.value.On? then w.value.p == p else w.value.visited == [Entry(p)])
  }

  function Where(walkers: map<Rid, Walker>, r: Rid): Option<Walker> {
    if r in walkers then Some(walkers[r]) else None
  }

  /** How a step moves reader r, where p is the current entry. */
  predicate Moved(before: Option<Walker>, after: Option<Walker>, step: Step, r: Rid, p: int) {
    if step == Enter(r) then after == Some(Begun)
    else if step == Exit(r) then after == None
    else if step == First(r) then before == Some(Begun) && p >= 0 && after == Some(On(p, NOTHING, []))
    else if before.Some? && before.value.On? then
      after.Some? && (if after.value.On? then after.value.p == before.value.p
                      else after.value == Done([Entry(before.value.p)]))
    else after == before
  }

  lemma ReaderMoves(states: seq<State>, steps: seq<Step>, i: nat, r: Rid)
    requires IsRun(states, steps) && i < |steps|
    ensures Moved(Where(states[i].walkers, r), Where(states[i + 1].walkers, r), steps[i], r, Current(states[i]))
  {
    RunInv(states, steps, i);
    StepOf(states, steps, i);
    if steps[i].Update? {
      UpdateFrame(states[i]);
    } else {
      WalkerFrame(states[i], steps[i]);
      if r in states[i].walkers && states[i].walkers[r].On? {
        assert WalkerOk(states[i], r, states[i].walkers[r]);
        EntryAt(states[i], states[i].walkers[r].p);
      }
    }
  }

  lemma StoryNext(before: Option<Walker>, after: Option<Walker>, steps: seq<Step>, i: nat, r: Rid, e: nat, f: nat, p: int, q: int)
    returns (e': nat, f': nat)
    requires i < |steps| && Story(before, steps, i, r, e, f, p) && Moved(before, after, steps[i], r, q)
    ensures f' == (if steps[i] == First(r) then i else f)
    ensures Story(after, steps, i + 1, r, e', f', if f' == i then q else p)
  {
    e', f' := if steps[i] == Enter(r) then i else e, if steps[i] == First(r) then i else f;
  }

  lemma StoryMore(states: seq<State>, steps: seq<Step>, i: nat, r: Rid, e: nat, f: nat) returns (e': nat, f': nat)
    requires IsRun(states, steps) && i < |steps| && f <= i
    requires Story(Where(states[i].walkers, r), steps, i, r, e, f, Current(states[f]))
    ensures f' <= i && Story(Where(states[i + 1].walkers, r), steps, i + 1, r, e', f', Current(states[f']))
  {
    ReaderMoves(states, steps, i, r);
    e', f' := StoryNext(Where(states[i].walkers, r), Where(states[i + 1].walkers, r), steps, i, r, e, f,
                        Current(states[f]), Current(states[i]));
  }

  lemma {:induction false} StoryOf(states: seq<State>, steps: seq<Step>, i: nat, r: Rid) returns (e: nat, f: nat)
    requires IsRun(states, steps) && i < |states|
    ensures f <= i && Story(Where(states[i].walkers, r), steps, i, r, e, f, Current(states[f]))
  {
    e, f := 0, 0;
    if i > 0 {
      e, f := StoryOf(states, steps, i - 1, r);
      e, f := StoryMore(states, steps, i - 1, r, e, f);
    }
  }

  /** A walk prints the entry that was the first of the list when it took it, and that one only: whole, and not older
      than the one that was first when the critical section was entered. */
  lemma ExitPrints(states: seq<State>, steps: seq<Step>, i: nat, r: Rid) returns (e: nat, f: nat)
    requires IsRun(states, steps) && i < |steps| && steps[i] == Exit(r)
    ensures Started(steps, i, r, e, f)
    ensures states[f].headNext.At? && states[f].headNext.p in states[f].heap
    ensures states[e].headNext.At? && states[e].headNext.p in states[e].heap
    ensures var printed := states[f].heap[states[f].headNext.p].foo;
      && states[i + 1].WalksOf(r) == states[i].WalksOf(r) + [[printed]]
      && (printed == Foo(0, 0, 0) || (printed.a >= 1000 && printed == Foo(printed.a, printed.a + 1, printed.a + 2)))
      && printed.a >= states[e].heap[states[e].headNext.p].foo.a
  {
    e, f := StoryOf(states, steps, i, r);
    StepOf(states, steps, i);
    RunInv(states, steps, f);
    RunInv(states, steps, e);
    CurrentRises(states, steps, e, f);
    EntryAt(states[f], Current(states[f]));
    EntryAt(states[e], Current(states[e]));
  }

  /** Nothing else is added to what a reader has printed. */
  lemma OnlyExitPrints(states: seq<State>, steps: seq<Step>, i: nat, r: Rid)
    requires IsRun(states, steps) && i < |steps| && steps[i] != Exit(r)
    ensures states[i + 1].WalksOf(r) == states[i].WalksOf(r)
  {
    StepOf(states, steps, i);
    RunInv(states, steps, i);
    if !steps[i].Exit? { FloorRises(states[i], steps[i], r); }
  }

  /** A reader that leaves is waited for no longer, and is the only one. */
  lemma ExitReleases(states: seq<State>, steps: seq<Step>, i: nat, r: Rid)
    requires IsRun(states, steps) && i < |steps| && steps[i] == Exit(r)
    ensures states[i + 1].waitFor == states[i].waitFor - {r}
    ensures states[i + 1].walkers == states[i].walkers - {r}
  {
    StepOf(states, steps, i);
  }

  /** A reader is never held up: it can always enter, take the first entry, load its fields, go on once it has all
      three, and leave at the end of the list. */
  lemma ReaderGoesOn(states: seq<State>, steps: seq<Step>, i: nat, r: Rid, field: Field)
    requires IsRun(states, steps) && i < |states|
    ensures var s := states[i];
      && (Apply(s, Enter(r)).Next? <==> r !in s.walkers)
      && (Apply(s, First(r)).Next? <==> r in s.walkers && s.walkers[r].Begun?)
      && (Apply(s, Load(r, field)).Next? <==> r in s.walkers && s.walkers[r].On?)
      && (Apply(s, Advance(r)).Next? <==> r in s.walkers && s.walkers[r].On? && s.walkers[r].loaded.Complete())
      && (Apply(s, Exit(r)).Next? <==> r in s.walkers && s.walkers[r].Done?)
    ensures var s := states[i]; Apply(s, Load(r, field)).Next? ==>
      var n := Apply(s, Load(r, field)).s.walkers[r]; var before := s.walkers[r].loaded;
      && n.On? && (n.loaded.a.Some? <==> before.a.Some? || field.FieldA?)
      && (n.loaded.b.Some? <==> before.b.Some? || field.FieldB?)
      && (n.loaded.c.Some? <==> before.c.Some? || field.FieldC?)
    ensures var s := states[i]; Apply(s, Advance(r)).Next? ==> Apply(s, Advance(r)).s.walkers[r].Done?
  {
    RunInv(states, steps, i);
    NoFault(states[i], First(r));
    NoFault(states[i], Load(r, field));
    NoFault(states[i], Advance(r));
    if r in states[i].walkers && states[i].walkers[r].On? {
      assert WalkerOk(states[i], r, states[i].walkers[r]);
      EntryAt(states[i], states[i].walkers[r].p);
    }
  }

  lemma UpdaterMoves(s: State)
    requires Inv(s) && !(s.stage.Synchronizing? && s.waitFor != {})
    ensures UpdaterStep(s).Next?
    ensures var n := UpdaterStep(s).s; 13 * n.value + n.stage.Rank() == 13 * s.value + s.stage.Rank() + 1
  {
    if Kzalloced.Rank() <= s.stage.Rank() < SetC.Rank() { ShapeFill(s); ReplaceFrame(s, s.heap[s.p], s.heap[s.q]); }
    else if SetC.Rank() <= s.stage.Rank() < Poisoned.Rank() { ShapeLink(s); ReplaceFrame(s, s.heap[s.p], s.heap[s.q]); }
    else {}
  }

  lemma NewFirst(s: State)
    requires Inv(s) && UpdaterStep(s).Next? && s.stage.SetPrev?
    ensures var n := UpdaterStep(s).s;
      n.headNext.At? && n.headNext.p in n.heap && n.heap[n.headNext.p].foo == Foo(s.value, s.value + 1, s.value + 2)
  {
    ShapeLink(s);
    UpdateFrame(s);
  }

  lemma SameFirst(s: State)
    requires Inv(s) && UpdaterStep(s).Next? && !s.stage.SetPrev?
    ensures UpdaterStep(s).s.headNext == s.headNext
  {
    ShapeUpdate(s);
    UpdateFrame(s);
    if Kzalloced.Rank() <= s.stage.Rank() < Poisoned.Rank() { ReplaceFrame(s, s.heap[s.p], s.heap[s.q]); } else {}
  }

  /** The updater goes on to its next access, unless it waits in synchronize_rcu for a reader that was inside when it
      began to.  With the eighth store of a turn its next entry is first on the list, and with the last access the old
      entry is freed. */
  lemma UpdaterGoesOn(states: seq<State>, steps: seq<Step>, i: nat)
    requires IsRun(states, steps) && i < |states|
    ensures var s := states[i];
      if s.stage.Synchronizing? && s.waitFor != {} then Apply(s, Update) == Blocked
      else
        && Apply(s, Update).Next?
        && var n := Apply(s, Update).s;
           && 13 * n.value + n.stage.Rank() == 13 * s.value + s.stage.Rank() + 1
           && (s.stage.SetPrev? ==> n.headNext.At? && n.headNext.p in n.heap
                                    && n.heap[n.headNext.p].foo == Foo(s.value, s.value + 1, s.value + 2))
           && (!s.stage.SetPrev? ==> n.headNext == s.headNext)
           && (s.stage.Kzalloced? ==> s.p in s.heap && s.q in n.heap && n.heap[s.q] == s.heap[s.p])
           && (s.stage.Poisoned? ==> n.waitFor == s.walkers.Keys)
           && (s.stage.Synchronizing? ==> n.freed == s.freed + multiset{s.p} && n.heap == s.heap - {s.p})
  {
    RunInv(states, steps, i);
    var s := states[i];
    if !(s.stage.Synchronizing? && s.waitFor != {}) {
      UpdaterMoves(s);
      if s.stage.SetPrev? { NewFirst(s); } else { SameFirst(s); }
    }
  }
}
