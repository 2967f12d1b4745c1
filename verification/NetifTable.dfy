/** What the interface registry means: events about interfaces, the record kept for each interface
    (NETIF_ATTR in include/netif_list.h), and the table that a run of events leaves behind. */
module NetifTable {
  import opened Bytes
  import opened NetlinkWalk

  const IF_DOWN := 1
  const IF_UP := 2
  const IF_DELADDR := 3
  const IF_NEWADDR := 4

  /** The registry's record of one interface; mtu, hwaddr and ipaddr are the raw bytes stored. */
  datatype Attr = Attr(ifname: seq<Byte>, up: bool, portLink: bool, mtu: seq<Byte>, currentState: int,
                       hwaddr: seq<Byte>, ipaddr: seq<Byte>)

  type NetifAttr = a: Attr | |a.mtu| == 4 && |a.hwaddr| == 6 && |a.ipaddr| == 4
    witness Attr([], false, false, Pad(4), 0, Pad(6), Pad(4))

  /** What one message says.  An attribute that is missing, or present without data, is []. */
  datatype RawEvent =
    | Link(ifname: seq<Byte>, deleted: bool, up: bool, portLink: bool, mtu: seq<Byte>, hwaddr: seq<Byte>)
    | Addr(ifname: seq<Byte>, deleted: bool, address: seq<Byte>)
  {
    /** The state the event announces (NETIF_EVENT_TYPE). */
    function State(): int {
      match this
      case Link(_, deleted, up, _, _, _) => if !deleted && up then IF_UP else IF_DOWN
      case Addr(_, deleted, _) => if deleted then IF_DELADDR else IF_NEWADDR
    }

    /** The name is a C string that fits its 16 bytes, and every copy fits the field it goes to. */
    predicate Fits() {
      && 1 <= |ifname| <= 15
      && (forall i :: 0 <= i < |ifname| ==> ifname[i] != 0)
      && match this
         case Link(_, _, _, _, mtu, hwaddr) => |mtu| <= 4 && |hwaddr| <= 6
         case Addr(_, _, address) => |address| <= 4
    }
  }

  type NetEvent = e: RawEvent | e.Fits() witness Addr([1], false, [])

  /** A record as netif_node_add leaves it: zeroed but for the name. */
  function Fresh(ifname: seq<Byte>): (a: NetifAttr)
    ensures a.ifname == ifname
  {
    Attr(ifname, false, false, Pad(4), 0, Pad(6), Pad(4))
  }

  /** memcpy(buf, data, |data|) */
  function Overlay(buf: seq<Byte>, data: seq<Byte>): (r: seq<Byte>)
    requires |data| <= |buf|
    ensures |r| == |buf|
  {
    data + buf[|data|..]
  }

  /** The record after an event about its interface.  A deleted address is stored first, and wiped
      only if the previous event was not itself a deleted address. */
  function Update(a: NetifAttr, e: NetEvent): (r: NetifAttr)
    ensures r.ifname == a.ifname
  {
    match e
    case Link(_, _, up, portLink, mtu, hwaddr) =>
      a.(up := up, portLink := portLink, mtu := Overlay(a.mtu, mtu), hwaddr := Overlay(a.hwaddr, hwaddr),
         currentState := e.State())
    case Addr(_, deleted, address) =>
      a.(ipaddr := if deleted && a.currentState != IF_DELADDR then Pad(4) else Overlay(a.ipaddr, address),
         currentState := e.State())
  }

  /** The table, newest interface first. */
  type Table = seq<NetifAttr>

  ghost predicate NamesDistinct(t: Table) {
    forall i, j :: 0 <= i < j < |t| ==> t[i].ifname != t[j].ifname
  }

  predicate Has(t: Table, ifname: seq<Byte>) {
    exists i :: 0 <= i < |t| && t[i].ifname == ifname
  }

  /** netif_node_find, and netif_node_add when that finds nothing. */
  function FindOrAdd(t: Table, ifname: seq<Byte>): (r: Table)
  {
    if Has(t, ifname) then t else [Fresh(ifname)] + t
  }

  /** Updates the record of the event's interface and no other. */
  function UpdateIn(t: Table, e: NetEvent): (r: Table)
    ensures |r| == |t|
    ensures forall i :: 0 <= i < |t| ==> r[i].ifname == t[i].ifname
  {
    seq(|t|, i requires 0 <= i < |t| => if t[i].ifname == e.ifname then Update(t[i], e) else t[i])
  }

  function Step(t: Table, e: NetEvent): (r: Table)
  {
    UpdateIn(FindOrAdd(t, e.ifname), e)
  }

  /** The table after a run of events. */
  ghost function Run(t: Table, es: seq<NetEvent>): (r: Table)
  {
    if es == [] then t else Step(Run(t, es[..|es| - 1]), es[|es| - 1])
  }

  lemma SplitLast<T>(a: seq<T>, b: seq<T>)
    requires b != []
    ensures b == b[..|b| - 1] + [b[|b| - 1]]
    ensures a + b == (a + b[..|b| - 1]) + [b[|b| - 1]]
  {
  }

  lemma RemoveOne<T>(s: seq<T>, at: nat)
    requires at < |s|
    ensures var r := s[..at] + s[at + 1..];
            |r| == |s| - 1 && forall i :: 0 <= i < |r| ==> r[i] == s[if i < at then i else i + 1]
  {
  }

  lemma RunSnoc(t: Table, es: seq<NetEvent>, e: NetEvent)
    ensures Run(t, es + [e]) == Step(Run(t, es), e)
  {
    assert (es + [e])[..|es|] == es;
  }

  /** Events may be delivered in any number of buffers. */
  lemma {:induction false} RunConcat(t: Table, a: seq<NetEvent>, b: seq<NetEvent>)
    ensures Run(t, a + b) == Run(Run(t, a), b)
    decreases |b|
  {
    if b == [] {
      assert a + b == a;
    } else {
      var init, e := b[..|b| - 1], b[|b| - 1];
      RunConcat(t, a, init);
      RunSnoc(t, a + init, e);
      RunSnoc(Run(t, a), init, e);
      SplitLast(a, b);
    }
  }

  // ---- The table is a map, and each entry the fold of its own events -------------------------------

  ghost function Own(es: seq<NetEvent>, ifname: seq<Byte>): (r: seq<NetEvent>)
    ensures forall e :: e in r ==> e in es && e.ifname == ifname
  {
    if es == [] then [] else
      var n := |es| - 1;
      Own(es[..n], ifname) + if es[n].ifname == ifname then [es[n]] else []
  }

  /** One interface's record, computed from that interface's events alone. */
  ghost function Fold(a: NetifAttr, es: seq<NetEvent>): (r: NetifAttr)
    ensures r.ifname == a.ifname
  {
    if es == [] then a else Update(Fold(a, es[..|es| - 1]), es[|es| - 1])
  }

  lemma StepLookup(t: Table, e: NetEvent, i: nat)
    requires NamesDistinct(t) && i < |Step(t, e)|
    ensures var r := Step(t, e);
            if r[i].ifname != e.ifname then r[i] in t
            else if Has(t, e.ifname) then exists a :: a in t && a.ifname == e.ifname && r[i] == Update(a, e)
            else r[i] == Update(Fresh(e.ifname), e)
  {
    var f := FindOrAdd(t, e.ifname);
    assert f[i] in f;
    if !Has(t, e.ifname) && i > 0 { assert f[i] == t[i - 1]; }
  }

  lemma StepNames(t: Table, e: NetEvent)
    requires NamesDistinct(t)
    ensures NamesDistinct(Step(t, e))
    ensures forall ifname :: Has(Step(t, e), ifname) <==> Has(t, ifname) || ifname == e.ifname
  {
    var f, r := FindOrAdd(t, e.ifname), Step(t, e);
    assert NamesDistinct(f);
    forall ifname ensures Has(r, ifname) <==> Has(t, ifname) || ifname == e.ifname {
      if i :| 0 <= i < |t| && t[i].ifname == ifname {
        assert r[i + |f| - |t|].ifname == ifname;
      }
      if i :| 0 <= i < |r| && r[i].ifname == ifname {
        assert f[i].ifname == ifname;
        if |f| > |t| && i > 0 { assert f[i] == t[i - 1]; }
      }
      if ifname == e.ifname && !Has(t, ifname) { assert r[0].ifname == ifname; }
    }
  }

  // What a record says, in terms of the interface's own events.

  /** What an event announces is the state of the record. */
  predicate Announced(state: int, e: NetEvent) {
    && (state == IF_UP <==> e.Link? && !e.deleted && e.up)
    && (state == IF_DOWN <==> e.Link? && (e.deleted || !e.up))
    && (state == IF_DELADDR <==> e.Addr? && e.deleted)
    && (state == IF_NEWADDR <==> e.Addr? && !e.deleted)
  }

  /** The flags and the single bytes of a record. */
  datatype Field = Up | PortLink | Mtu(k: nat) | Hwaddr(k: nat) | Ipaddr(k: nat) {
    predicate Exists() {
      (Mtu? ==> k < 4) && (Hwaddr? ==> k < 6) && (Ipaddr? ==> k < 4)
    }
  }

  function Value(a: NetifAttr, f: Field): int
    requires f.Exists()
  {
    match f
    case Up => if a.up then 1 else 0
    case PortLink => if a.portLink then 1 else 0
    case Mtu(k) => a.mtu[k]
    case Hwaddr(k) => a.hwaddr[k]
    case Ipaddr(k) => a.ipaddr[k]
  }

  /** Event i deletes an address, and does not directly follow another event that does. */
  predicate Wipes(own: seq<NetEvent>, i: nat)
    requires i < |own|
  {
    own[i].Addr? && own[i].deleted && !(i > 0 && own[i - 1].Addr? && own[i - 1].deleted)
  }

  /** What event i says about a field, if anything: an attribute says something about the bytes it has. */
  function Says(own: seq<NetEvent>, i: nat, f: Field): Option<int>
    requires i < |own|
  {
    var e := own[i];
    if e.Addr? then
      if !f.Ipaddr? then None
      else if Wipes(own, i) then Some(0)
      else if f.k < |e.address| then Some(e.address[f.k])
      else None
    else
      match f
      case Up => Some(if e.up then 1 else 0)
      case PortLink => Some(if e.portLink then 1 else 0)
      case Mtu(k) => if k < |e.mtu| then Some(e.mtu[k]) else None
      case Hwaddr(k) => if k < |e.hwaddr| then Some(e.hwaddr[k]) else None
      case Ipaddr(_) => None
  }

  /** The field has what the last event said that said anything about it, or is zero. */
  ghost predicate LastSaid(own: seq<NetEvent>, f: Field, v: int) {
    || (v == 0 && forall i :: 0 <= i < |own| ==> Says(own, i, f) == None)
    || (exists i :: 0 <= i < |own| && Says(own, i, f) == Some(v) && forall j :: i < j < |own| ==> Says(own, j, f) == None)
  }

  lemma FreshIsZero(ifname: seq<Byte>, f: Field)
    requires f.Exists()
    ensures Fresh(ifname).currentState == 0 && Value(Fresh(ifname), f) == 0
  {
  }

  /** The record that these events about its interface leave. */
  ghost predicate Records(a: NetifAttr, own: seq<NetEvent>) {
    && own != [] && Announced(a.currentState, own[|own| - 1])
    && forall f: Field :: f.Exists() ==> LastSaid(own, f, Value(a, f))
  }

  lemma LastSaidNext(own: seq<NetEvent>, e: NetEvent, f: Field, v: int, w: int)
    requires LastSaid(own, f, v)
    requires var says := Says(own + [e], |own|, f); w == if says.Some? then says.value else v
    ensures LastSaid(own + [e], f, w)
  {
    var more, n := own + [e], |own|;
    assert forall i :: 0 <= i < n ==> more[i] == own[i] && Says(more, i, f) == Says(own, i, f);
    if Says(more, n, f).Some? {
    } else if i :| 0 <= i < n && Says(own, i, f) == Some(v) && forall j :: i < j < n ==> Says(own, j, f) == None {
      assert Says(more, i, f) == Some(w);
    }
  }

  /** One event more changes what it says something about, and nothing else. */
  lemma ValueNext(a: NetifAttr, own: seq<NetEvent>, e: NetEvent, f: Field)
    requires e.ifname == a.ifname && f.Exists()
    requires if own == [] then a == Fresh(a.ifname) else Announced(a.currentState, own[|own| - 1])
    ensures var says := Says(own + [e], |own|, f);
      Value(Update(a, e), f) == if says.Some? then says.value else Value(a, f)
  {
  }

  lemma RecordsNext(a: NetifAttr, own: seq<NetEvent>, e: NetEvent)
    requires e.ifname == a.ifname && (if own == [] then a == Fresh(a.ifname) else Records(a, own))
    ensures Records(Update(a, e), own + [e])
  {
    forall f: Field | f.Exists() ensures LastSaid(own + [e], f, Value(Update(a, e), f)) {
      ValueNext(a, own, e, f);
      LastSaidNext(own, e, f, Value(a, f), Value(Update(a, e), f));
    }
  }

  /** The record of an interface is the fold of its own events, and says what they said last. */
  ghost predicate IsEntryOf(a: NetifAttr, own: seq<NetEvent>) {
    a == Fold(Fresh(a.ifname), own) && Records(a, own)
  }

  /** One record per interface ever named, made by that interface's own events. */
  ghost predicate IsMapOf(t: Table, es: seq<NetEvent>) {
    && NamesDistinct(t)
    && (forall ifname :: Has(t, ifname) <==> Own(es, ifname) != [])
    && (forall a :: a in t ==> IsEntryOf(a, Own(es, a.ifname)))
  }

  lemma OwnSnoc(before: seq<NetEvent>, e: NetEvent, ifname: seq<Byte>)
    ensures Own(before + [e], ifname) == if e.ifname == ifname then Own(before, ifname) + [e] else Own(before, ifname)
  {
    assert (before + [e])[..|before|] == before;
  }

  lemma EntryUpdated(a: NetifAttr, own: seq<NetEvent>, e: NetEvent)
    requires e.ifname == a.ifname && (if own == [] then a == Fresh(a.ifname) else IsEntryOf(a, own))
    ensures IsEntryOf(Update(a, e), own + [e])
  {
    assert (own + [e])[..|own|] == own;
    RecordsNext(a, own, e);
  }

  lemma EntryStep(before: seq<NetEvent>, e: NetEvent, t: Table, i: nat)
    requires IsMapOf(t, before) && i < |Step(t, e)|
    ensures IsEntryOf(Step(t, e)[i], Own(before + [e], Step(t, e)[i].ifname))
  {
    var a := Step(t, e)[i];
    StepLookup(t, e, i);
    OwnSnoc(before, e, a.ifname);
    if a.ifname != e.ifname {
      assert IsEntryOf(a, Own(before, a.ifname));
    } else if Has(t, e.ifname) {
      var old_ :| old_ in t && old_.ifname == e.ifname && a == Update(old_, e);
      EntryUpdated(old_, Own(before, e.ifname), e);
    } else {
      assert Own(before, e.ifname) == [];
      EntryUpdated(Fresh(e.ifname), [], e);
    }
  }

  lemma MapStep(before: seq<NetEvent>, e: NetEvent, t: Table)
    requires IsMapOf(t, before)
    ensures IsMapOf(Step(t, e), before + [e])
  {
    StepNames(t, e);
    var r := Step(t, e);
    forall ifname ensures Has(r, ifname) <==> Own(before + [e], ifname) != [] {
      OwnSnoc(before, e, ifname);
    }
    forall a | a in r ensures IsEntryOf(a, Own(before + [e], a.ifname)) {
      var i :| 0 <= i < |r| && r[i] == a;
      EntryStep(before, e, t, i);
    }
  }

  lemma EmptyIsMap()
    ensures IsMapOf([], [])
  {
  }

  lemma RunLast(es: seq<NetEvent>)
    requires es != []
    ensures Run([], es) == Step(Run([], es[..|es| - 1]), es[|es| - 1])
    ensures es == es[..|es| - 1] + [es[|es| - 1]]
  {
    SplitLast([], es);
  }

  /** Any run from the empty table leaves the map of its events. */
  lemma {:induction false} TableIsMap(es: seq<NetEvent>)
    ensures IsMapOf(Run([], es), es)
  {
    if es == [] {
      EmptyIsMap();
    } else {
      var n := |es| - 1;
      TableIsMap(es[..n]);
      RunLast(es);
      MapStep(es[..n], es[n], Run([], es[..n]));
    }
  }

  /** The same for a table that was empty before the run. */
  lemma RunIsMap(before: Table, after: Table, es: seq<NetEvent>)
    requires after == Run(before, es)
    ensures before == [] ==> IsMapOf(after, es)
  {
    if before == [] { TableIsMap(es); }
  }

  // ---- The parts of a step that the program performs separately ------------------------------------

  /** netif_node_del */
  function Without(t: Table, ifname: seq<Byte>): Table {
    if t == [] then [] else if t[0].ifname == ifname then t[1..] else [t[0]] + Without(t[1..], ifname)
  }

  lemma {:induction false} WithoutNone(t: Table, ifname: seq<Byte>)
    requires !Has(t, ifname)
    ensures Without(t, ifname) == t
  {
    if t != [] {
      assert t[0].ifname != ifname;
      assert forall i :: 0 <= i < |t[1..]| ==> t[1..][i] == t[i + 1];
      WithoutNone(t[1..], ifname);
    }
  }

  lemma {:induction false} WithoutAt(t: Table, at: nat)
    requires NamesDistinct(t) && at < |t|
    ensures Without(t, t[at].ifname) == t[..at] + t[at + 1..]
  {
    if at > 0 {
      assert t[0].ifname != t[at].ifname;
      assert t[1..][at - 1] == t[at];
      WithoutAt(t[1..], at - 1);
      assert t[..at] + t[at + 1..] == [t[0]] + (t[1..][..at - 1] + t[1..][at..]);
    }
  }

  lemma RemovedNames(t: Table, at: nat)
    requires NamesDistinct(t) && at < |t|
    ensures NamesDistinct(t[..at] + t[at + 1..])
  {
    RemoveOne(t, at);
  }

  /** Deleting an interface removes its record and no other. */
  lemma WithoutMeaning(t: Table, ifname: seq<Byte>)
    requires NamesDistinct(t)
    ensures NamesDistinct(Without(t, ifname)) && !Has(Without(t, ifname), ifname)
    ensures forall a :: a in Without(t, ifname) <==> a in t && a.ifname != ifname
    ensures |Without(t, ifname)| == |t| - if Has(t, ifname) then 1 else 0
  {
    if at: nat :| at < |t| && t[at].ifname == ifname {
      WithoutAt(t, at);
      RemovedNames(t, at);
      var r := t[..at] + t[at + 1..];
      RemoveOne(t, at);
      forall a | a in t && a.ifname != ifname ensures a in r {
        var i :| 0 <= i < |t| && t[i] == a;
        assert r[if i < at then i else i - 1] == a;
      }
    } else {
      WithoutNone(t, ifname);
    }
  }

  /** net_event_notify on one record. */
  function Notify(a: NetifAttr, state: int): (r: NetifAttr)
    ensures r.ifname == a.ifname
  {
    a.(ipaddr := if a.currentState != state && state == IF_DELADDR then Pad(4) else a.ipaddr, currentState := state)
  }

  function Notified(t: Table, ifname: seq<Byte>, state: int): (r: Table)
    ensures |r| == |t|
  {
    seq(|t|, i requires 0 <= i < |t| => if t[i].ifname == ifname then Notify(t[i], state) else t[i])
  }

  lemma NotifiedAt(t: Table, at: nat, state: int)
    requires NamesDistinct(t) && at < |t|
    ensures Notified(t, t[at].ifname, state) == t[at := Notify(t[at], state)]
  {
  }

  lemma NotifiedNone(t: Table, ifname: seq<Byte>, state: int)
    requires NamesDistinct(t) && !Has(t, ifname)
    ensures Notified(t, ifname, state) == t
  {
  }

  lemma StoreNames(t: Table, at: nat, a: NetifAttr)
    requires NamesDistinct(t) && at < |t| && a.ifname == t[at].ifname
    ensures NamesDistinct(t[at := a])
  {
  }

  /** What the handlers write before they notify. */
  function Stored(a: NetifAttr, e: NetEvent): (r: NetifAttr)
    ensures r.ifname == a.ifname
  {
    match e
    case Link(_, _, up, portLink, mtu, hwaddr) =>
      a.(up := up, portLink := portLink, mtu := Overlay(a.mtu, mtu), hwaddr := Overlay(a.hwaddr, hwaddr))
    case Addr(_, _, address) =>
      a.(ipaddr := Overlay(a.ipaddr, address))
  }

  /** Storing, then notifying, is the step. */
  lemma StoreThenNotify(t: Table, e: NetEvent, at: nat)
    requires NamesDistinct(t)
    requires var f := FindOrAdd(t, e.ifname); NamesDistinct(f) && at < |f| && f[at].ifname == e.ifname
    ensures var f := FindOrAdd(t, e.ifname);
            Step(t, e) == Notified(f[at := Stored(f[at], e)], e.ifname, e.State())
  {
    var f := FindOrAdd(t, e.ifname);
    StoreNames(f, at, Stored(f[at], e));
    assert Notify(Stored(f[at], e), e.State()) == Update(f[at], e);
  }

  /** A message that names no interface changes nothing. */
  function StepBy(t: Table, o: Option<NetEvent>): Table
  {
    if o.Some? then Step(t, o.value) else t
  }
}
