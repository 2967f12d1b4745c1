/** The address and PEC cache of the Python SMBus object (py-smbus/smbusmodule.c), against an object
    that issues the ioctl before every transfer. */
module SmbusCache {

  /** What the kernel keeps for an open file: the slave address and the PEC flag. */
  datatype Client = Client(addr: int, pec: int)

  const UNSET := Client(0, 0)

  /** The object's fields, and the kernel's client behind fd. */
  datatype Obj = Obj(fd: int, addr: int, pec: int, client: Client) {
    predicate Closed() {
      fd == -1
    }
  }

  const FRESH := Obj(-1, -1, 0, UNSET)

  /** A call, with what the kernel answers if it is asked: the new file or -1 for open, and whether
      close, I2C_PEC or I2C_SLAVE succeeds.  A transfer is any of the read and write methods. */
  datatype Call =
    | Open(file: int)
    | Close(ok: bool)
    | SetPec(value: int, ok: bool)
    | Transfer(slave: int, ok: bool)

  /** What the caller, or the bus, sees of a call. */
  datatype Seen = Done | Error | Sent(addr: int, pec: int)

  // ---- The object -----------------------------------------------------------------------------------

  /** SMBus_set_addr: the address is cached even if the ioctl fails. */
  function SetAddr(o: Obj, slave: int, ok: bool): (r: (Obj, bool)) {
    if o.addr == slave then (o, true)
    else if ok && !o.Closed() then (o.(addr := slave, client := o.client.(addr := slave)), true)
    else (o.(addr := slave), false)
  }

  function Cached(o: Obj, call: Call): (Obj, Seen) {
    match call
    case Open(file) =>
      // the cache is not reset
      if file == -1 then (o.(fd := -1, client := UNSET), Error) else (o.(fd := file, client := UNSET), Done)
    case Close(ok) =>
      if !o.Closed() && !ok then (o, Error) else (FRESH, Done)
    case SetPec(value, ok) =>
      if o.pec == value then (o, Done)
      else if ok && !o.Closed() then (o.(pec := value, client := o.client.(pec := value)), Done)
      else (o, Error)
    case Transfer(slave, ok) =>
      var (r, set_) := SetAddr(o, slave, ok);
      if !set_ then (r, Error)
      else if r.Closed() then (r, Error)
      else (r, Sent(r.client.addr, r.client.pec))
  }

  // ---- The object without a cache ---------------------------------------------------------------------

  datatype Plain = Plain(open: bool, pec: int)

  function Uncached(p: Plain, call: Call): (Plain, Seen) {
    match call
    case Open(file) => if file == -1 then (Plain(false, 0), Error) else (Plain(true, 0), Done)
    case Close(ok) => if p.open && !ok then (p, Error) else (Plain(false, 0), Done)
    case SetPec(value, ok) => if p.open && ok then (p.(pec := value), Done) else (p, Error)
    case Transfer(slave, ok) => (p, if p.open && ok then Sent(slave, p.pec) else Error)
  }

  /** Without a file, or with an ioctl that fails, nothing is sent and nothing changes. */
  lemma UncachedSends(p: Plain, call: Call)
    requires call.SetPec? || call.Transfer?
    ensures Uncached(p, call).1.Sent? <==> call.Transfer? && p.open && call.ok
    ensures !(p.open && call.ok) ==> Uncached(p, call) == (p, Error)
  {
  }

  // ---- Refinement ------------------------------------------------------------------------------------

  /** open is called on a fresh or closed object, and ioctls on an open one succeed.  I2C_SLAVE accepts
      no negative address. */
  predicate Proper(open: bool, call: Call) {
    match call
    case Open(file) => !open
    case Close(ok) => true
    case SetPec(value, ok) => open && ok
    case Transfer(slave, ok) => open && ok && slave >= 0
  }

  /** What both objects show over a run of calls. */
  function SeenCached(o: Obj, calls: seq<Call>): seq<Seen>
    decreases |calls|
  {
    if calls == [] then [] else
      var (r, seen) := Cached(o, calls[0]);
      [seen] + SeenCached(r, calls[1..])
  }

  function SeenUncached(p: Plain, calls: seq<Call>): seq<Seen>
    decreases |calls|
  {
    if calls == [] then [] else
      var (r, seen) := Uncached(p, calls[0]);
      [seen] + SeenUncached(r, calls[1..])
  }

  predicate AllProper(p: Plain, calls: seq<Call>)
    decreases |calls|
  {
    calls != [] ==> Proper(p.open, calls[0]) && AllProper(Uncached(p, calls[0]).0, calls[1..])
  }

  /** The uncached object in the same position. */
  function PlainOf(o: Obj): Plain {
    Plain(!o.Closed(), o.client.pec)
  }

  /** Without a file there is no client. */
  predicate Possible(o: Obj) {
    o.Closed() ==> o.client == UNSET
  }

  /** What is cached is what the kernel has, or will have for the next file.  It starts with address 0. */
  predicate Coherent(o: Obj) {
    if o.Closed() then o.addr <= 0 && o.pec == 0 && o.client == UNSET
    else (o.addr < 0 || o.addr == o.client.addr) && o.pec == o.client.pec
  }

  lemma CoherentStep(o: Obj, call: Call)
    requires Coherent(o) && Proper(!o.Closed(), call)
    ensures Cached(o, call).1 == Uncached(PlainOf(o), call).1
    ensures Coherent(Cached(o, call).0) && PlainOf(Cached(o, call).0) == Uncached(PlainOf(o), call).0
  {
  }

  lemma {:induction false} CoherentRun(o: Obj, calls: seq<Call>)
    requires Coherent(o) && AllProper(PlainOf(o), calls)
    ensures SeenCached(o, calls) == SeenUncached(PlainOf(o), calls)
    decreases |calls|
  {
    if calls != [] {
      CoherentStep(o, calls[0]);
      CoherentRun(Cached(o, calls[0]).0, calls[1..]);
    }
  }

  /** From a fresh object, no caller and no device can tell that there is a cache. */
  lemma CacheIsInvisible(calls: seq<Call>)
    requires AllProper(Plain(false, 0), calls)
    ensures SeenCached(FRESH, calls) == SeenUncached(Plain(false, 0), calls)
  {
    CoherentRun(FRESH, calls);
  }

  ghost predicate Agrees(o: Obj, calls: seq<Call>) {
    AllProper(PlainOf(o), calls) ==> SeenCached(o, calls) == SeenUncached(PlainOf(o), calls)
  }

  /** Every proper continuation agrees if and only if the cache is coherent. */
  lemma WhenInvisible(o: Obj)
    requires Possible(o)
    ensures (forall calls :: Agrees(o, calls)) <==> Coherent(o)
  {
    if Coherent(o) {
      forall calls ensures Agrees(o, calls) {
        if AllProper(PlainOf(o), calls) { CoherentRun(o, calls); }
      }
    } else if o.Closed() {
      if o.addr > 0 { StaleNext(o); } else { StaleNextPec(o); }
    } else if o.addr >= 0 && o.addr != o.client.addr {
      StaleAddress(o);
    } else {
      StalePec(o);
    }
  }

  lemma StaleAddress(o: Obj)
    requires !o.Closed() && o.addr >= 0 && o.addr != o.client.addr
    ensures exists calls :: !Agrees(o, calls)
  {
    var call := Transfer(o.addr, true);
    First(o, PlainOf(o), call, []);
    assert SeenCached(o, [call] + [])[0] != SeenUncached(PlainOf(o), [call] + [])[0];
    assert !Agrees(o, [call] + []);
  }

  /** A stale PEC flag shows when it is set to the value that is cached and then used. */
  lemma StalePec(o: Obj)
    requires !o.Closed() && o.pec != o.client.pec
    ensures exists calls :: !Agrees(o, calls)
  {
    var set_, use := SetPec(o.pec, true), Transfer(0, true);
    First(o, PlainOf(o), set_, [use]);
    First(o, Uncached(PlainOf(o), set_).0, use, []);
    assert [use] == [use] + [];
    assert SeenCached(o, [set_] + [use])[1] != SeenUncached(PlainOf(o), [set_] + [use])[1];
    assert !Agrees(o, [set_] + [use]);
  }

  /** What a closed object has cached shows with the next file. */
  lemma StaleNext(o: Obj)
    requires o.Closed() && o.client == UNSET && o.addr > 0
    ensures exists calls :: !Agrees(o, calls)
  {
    var open, use := Open(0), Transfer(o.addr, true);
    First(o, PlainOf(o), open, [use]);
    First(Cached(o, open).0, Uncached(PlainOf(o), open).0, use, []);
    assert [use] == [use] + [];
    assert SeenCached(o, [open] + [use])[1] != SeenUncached(PlainOf(o), [open] + [use])[1];
    assert !Agrees(o, [open] + [use]);
  }

  lemma StaleNextPec(o: Obj)
    requires o.Closed() && o.client == UNSET && o.pec != 0 && o.addr <= 0
    ensures exists calls :: !Agrees(o, calls)
  {
    var open, set_, use := Open(0), SetPec(o.pec, true), Transfer(0, true);
    var p := PlainOf(o);
    ThreeCalls(o, p, open, set_, use);
    ThreeProper(p, open, set_, use);
    assert SeenCached(o, [open, set_, use])[2] != SeenUncached(p, [open, set_, use])[2];
    assert !Agrees(o, [open, set_, use]);
  }

  lemma ThreeProper(p: Plain, a: Call, b: Call, c: Call)
    requires Proper(p.open, a) && Proper(Uncached(p, a).0.open, b) && Proper(Uncached(Uncached(p, a).0, b).0.open, c)
    ensures AllProper(p, [a, b, c])
  {
    First(FRESH, p, a, [b, c]);
    First(FRESH, Uncached(p, a).0, b, [c]);
    First(FRESH, Uncached(Uncached(p, a).0, b).0, c, []);
    assert [a, b, c] == [a] + [b, c] && [b, c] == [b] + [c] && [c] == [c] + [];
  }

  /** What keeps the cache right.  Close and SetPec always do.  Open does on a closed object, or if neither an
      address nor the PEC flag was ever set.  A transfer does if its address is the cached one, if the file is
      open and I2C_SLAVE succeeds, or if what is cached in spite of the failure does no harm: a negative address,
      which no transfer can have, or the address the kernel has, or without a file will start with. */
  predicate Guard(o: Obj, call: Call) {
    match call
    case Open(file) => o.Closed() || (o.addr <= 0 && o.pec == 0)
    case Close(ok) => true
    case SetPec(value, ok) => true
    case Transfer(slave, ok) =>
      || slave == o.addr
      || (if o.Closed() then slave <= 0 else ok || slave < 0 || slave == o.client.addr)
  }

  lemma GuardKeeps(o: Obj, call: Call)
    requires Coherent(o)
    ensures Coherent(Cached(o, call).0) <==> Guard(o, call)
    ensures Possible(Cached(o, call).0)
  {
  }

  /** After any call on a coherent object, proper or not, every proper continuation agrees if and only if the call
      met its guard. */
  lemma WhenHarmless(o: Obj, call: Call)
    requires Coherent(o)
    ensures (forall calls :: Agrees(Cached(o, call).0, calls)) <==> Guard(o, call)
  {
    GuardKeeps(o, call);
    WhenInvisible(Cached(o, call).0);
  }

  /** The object after a run of calls. */
  function After(o: Obj, calls: seq<Call>): Obj
    decreases |calls|
  {
    if calls == [] then o else After(Cached(o, calls[0]).0, calls[1..])
  }

  predicate Guarded(o: Obj, calls: seq<Call>)
    decreases |calls|
  {
    calls != [] ==> Guard(o, calls[0]) && Guarded(Cached(o, calls[0]).0, calls[1..])
  }

  /** After any run of calls that met their guards, proper or not, every proper continuation agrees. */
  lemma {:induction false} GuardedRun(o: Obj, calls: seq<Call>, more: seq<Call>)
    requires Coherent(o) && Guarded(o, calls)
    ensures Agrees(After(o, calls), more)
    decreases |calls|
  {
    if calls == [] {
      WhenInvisible(o);
    } else {
      GuardKeeps(o, calls[0]);
      GuardedRun(Cached(o, calls[0]).0, calls[1..], more);
    }
  }

  lemma First(o: Obj, p: Plain, call: Call, rest: seq<Call>)
    ensures SeenCached(o, [call] + rest) == [Cached(o, call).1] + SeenCached(Cached(o, call).0, rest)
    ensures SeenUncached(p, [call] + rest) == [Uncached(p, call).1] + SeenUncached(Uncached(p, call).0, rest)
    ensures AllProper(p, [call] + rest) <==> Proper(p.open, call) && AllProper(Uncached(p, call).0, rest)
  {
    assert ([call] + rest)[1..] == rest;
  }

  lemma ThreeCalls(o: Obj, p: Plain, a: Call, b: Call, c: Call)
    ensures var (o1, s1) := Cached(o, a); var (o2, s2) := Cached(o1, b);
      SeenCached(o, [a, b, c]) == [s1, s2, Cached(o2, c).1]
    ensures var (p1, s1) := Uncached(p, a); var (p2, s2) := Uncached(p1, b);
      SeenUncached(p, [a, b, c]) == [s1, s2, Uncached(p2, c).1]
  {
    First(o, p, a, [b, c]);
    First(Cached(o, a).0, Uncached(p, a).0, b, [c]);
    assert [a, b, c] == [a] + [b, c] && [b, c] == [b] + [c] && [c] == [c] + [];
  }

  /** An I2C_SLAVE that failed leaves the address in the cache: the next transfer to it goes elsewhere. */
  lemma FailureIsCached(file: int, slave: int)
    requires file >= 0 && slave > 0
    ensures SeenCached(FRESH, [Open(file), Transfer(slave, false), Transfer(slave, true)]) == [Done, Error, Sent(0, 0)]
    ensures SeenUncached(Plain(false, 0), [Open(file), Transfer(slave, false), Transfer(slave, true)]) == [Done, Error, Sent(slave, 0)]
  {
    ThreeCalls(FRESH, Plain(false, 0), Open(file), Transfer(slave, false), Transfer(slave, true));
  }

  /** Opening an object again keeps the address of the old file in the cache. */
  lemma ReopenKeepsCache(o: Obj, file: int)
    requires Coherent(o) && !o.Closed() && o.addr > 0 && file >= 0
    ensures SeenCached(o, [Open(file), Transfer(o.addr, true)] ) == [Done, Sent(0, 0)]
    ensures SeenUncached(PlainOf(o), [Open(file), Transfer(o.addr, true)]) == [Done, Sent(o.addr, 0)]
  {
    var open, use := Open(file), Transfer(o.addr, true);
    First(o, PlainOf(o), open, [use]);
    assert [open, use] == [open] + [use] && [use] == [use] + [];
  }

  // ---- The object's methods ---------------------------------------------------------------------------

  class SMBus {
    var fd: int
    var addr: int
    var pec: int
    /** The kernel's side of fd. */
    var client: Client

    function Abs(): Obj
      reads this
    {
      Obj(fd, addr, pec, client)
    }

    /** SMBus_new */
    constructor ()
      ensures Abs() == FRESH
    {
      fd, addr, pec, client := -1, -1, 0, UNSET;
    }

    method OpenBus(file: int) returns (seen: Seen)
      modifies this
      ensures (Abs(), seen) == Cached(old(Abs()), Open(file))
      ensures fd == file && addr == old(addr) && pec == old(pec) && seen == if file == -1 then Error else Done
    {
      fd, client := file, UNSET;
      seen := if fd == -1 then Error else Done;
    }

    method CloseBus(ok: bool) returns (seen: Seen)
      modifies this
      ensures (Abs(), seen) == Cached(old(Abs()), Close(ok))
      ensures seen == if old(fd) == -1 || ok then Done else Error
      ensures if seen == Done then fd == -1 && addr == -1 && pec == 0 else Abs() == old(Abs())
    {
      if fd != -1 && !ok { return Error; }
      fd, addr, pec, client := -1, -1, 0, UNSET;
      seen := Done;
    }

    /** 0, or -1 if the ioctl fails. */
    method SetSlave(slave: int, ok: bool) returns (ret: int)
      modifies `addr, `client
      ensures (Abs(), ret == 0) == SetAddr(old(Abs()), slave, ok)
      ensures addr == slave && ret == if old(addr) == slave || (ok && fd != -1) then 0 else -1
    {
      ret := 0;
      if addr != slave {
        if ok && fd != -1 {
          client := client.(addr := slave);
        } else {
          ret := -1;
        }
        addr := slave;
      }
    }

    method SetPecFlag(value: int, ok: bool) returns (seen: Seen)
      modifies `pec, `client
      ensures (Abs(), seen) == Cached(old(Abs()), SetPec(value, ok))
      ensures seen == if old(pec) == value || (ok && fd != -1) then Done else Error
    {
      if pec != value {
        if !ok || fd == -1 { return Error; }
        client := client.(pec := value);
        pec := value;
      }
      seen := Done;
    }

    /** The pattern of all transfer methods: set the address, then go to the bus. */
    method Access(slave: int, ok: bool) returns (seen: Seen)
      modifies `addr, `client
      ensures (Abs(), seen) == Cached(old(Abs()), Transfer(slave, ok))
      ensures seen == if fd != -1 && (old(addr) == slave || ok) then Sent(client.addr, client.pec) else Error
      ensures client.addr == if old(addr) != slave && ok && fd != -1 then slave else old(client.addr)
    {
      var ret := SetSlave(slave, ok);
      if ret != 0 || fd == -1 { return Error; }
      seen := Sent(client.addr, client.pec);
    }
  }
}
