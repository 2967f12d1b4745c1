/** Reading an interface event out of a netlink message (ifinfomsg_handle and ifaddrmsg_handle in
    src/netif_event.c), and laying one out as the kernel does. */
module NetifMessage {
  import opened Bytes
  import opened NetlinkWalk
  import opened NetifTable

  // Message and attribute types of the routing family.
  const RTM_NEWLINK := 16
  const RTM_DELLINK := 17
  const RTM_NEWADDR := 20
  const RTM_DELADDR := 21
  const IFLA_ADDRESS := 1
  const IFLA_IFNAME := 3
  const IFLA_MTU := 4
  const IFA_ADDRESS := 1
  const IFA_LABEL := 3

  /** sizeof(struct ifinfomsg) and sizeof(struct ifaddrmsg), after the 16-byte message header. */
  const IFINFO_SPACE := 32
  const IFADDR_SPACE := 24

  predicate IsLink(m: Record) {
    m.kind == RTM_NEWLINK || m.kind == RTM_DELLINK
  }

  predicate IsAddr(m: Record) {
    m.kind == RTM_NEWADDR || m.kind == RTM_DELADDR
  }

  /** The offset of the attributes in a message. */
  function Space(m: Record): nat {
    if IsLink(m) then IFINFO_SPACE else IFADDR_SPACE
  }

  function NameType(m: Record): nat {
    if IsLink(m) then IFLA_IFNAME else IFA_LABEL
  }

  /** A message of the buffer, as the walk delivers it. */
  ghost predicate IsMessage(b: seq<Byte>, m: Record) {
    16 <= m.size && m.pos + m.size <= |b|
  }

  /** The attributes of a message; a message shorter than its fixed part has none. */
  function Attributes(b: seq<Byte>, m: Record): seq<Record>
    requires IsMessage(b, m)
  {
    Walk(Attribute, b, m.pos + Space(m), m.pos + m.size)
  }

  lemma {:induction false} LastOfInside(b: seq<Byte>, at: nat, end: int, rs: seq<Record>, t: nat)
    requires end <= |b| && forall i :: 0 <= i < |rs| ==> Inside(Attribute, b, at, end, rs[i])
    ensures LastOf(rs, t).Some? ==> Inside(Attribute, b, at, end, LastOf(rs, t).value)
  {
    if rs != [] {
      assert Inside(Attribute, b, at, end, rs[|rs| - 1]);
      LastOfInside(b, at, end, rs[..|rs| - 1], t);
    }
  }

  /** Nothing that dispatch_rta copies lies outside the message. */
  lemma SlotInside(b: seq<Byte>, m: Record, t: nat)
    requires IsMessage(b, m)
    ensures var o := LastOf(Attributes(b, m), t);
            o.Some? ==> Inside(Attribute, b, m.pos + Space(m), m.pos + m.size, o.value)
  {
    var at, end := m.pos + Space(m), m.pos + m.size;
    WalkExact(Attribute, b, at, end, Attributes(b, m));
    LastOfInside(b, at, end, Attributes(b, m), t);
  }

  /** The data of the last attribute of type t. */
  function AttrData(b: seq<Byte>, m: Record, t: nat): seq<Byte>
    requires IsMessage(b, m)
  {
    var o := LastOf(Attributes(b, m), t);
    if o.None? then [] else
      SlotInside(b, m, t);
      PayloadOf(Attribute, b, o.value)
  }

  /** The bytes before the first NUL. */
  function CString(s: seq<Byte>): (r: seq<Byte>)
    ensures |r| <= |s| && r == s[..|r|] && forall i :: 0 <= i < |r| ==> r[i] != 0
  {
    if s == [] || s[0] == 0 then [] else [s[0]] + CString(s[1..])
  }

  lemma {:induction false} CStringPadded(s: seq<Byte>, n: nat)
    ensures CString(s + Pad(n)) == CString(s)
  {
    if s == [] {
      assert s + Pad(n) == Pad(n);
    } else {
      assert (s + Pad(n))[1..] == s[1..] + Pad(n);
      CStringPadded(s[1..], n);
    }
  }

  /** The interface a message names; "" if it names none. */
  function NameOf(b: seq<Byte>, m: Record): seq<Byte>
    requires IsMessage(b, m)
  {
    CString(AttrData(b, m, NameType(m)))
  }

  lemma NamedHasFixedPart(b: seq<Byte>, m: Record)
    requires IsMessage(b, m) && NameOf(b, m) != []
    ensures m.pos + Space(m) < |b|
  {
    SlotInside(b, m, NameType(m));
  }

  function FlagsOf(b: seq<Byte>, m: Record): nat
    requires IsMessage(b, m) && IsLink(m) && NameOf(b, m) != []
  {
    NamedHasFixedPart(b, m);
    U32(b, m.pos + 24)
  }

  /** IFF_UP and IFF_LOWER_UP */
  predicate UpFlag(flags: nat) {
    flags % 2 == 1
  }

  predicate LowerUpFlag(flags: nat) {
    flags / 0x10000 % 2 == 1
  }

  /** What a message says, if it is about an interface it names. */
  function RawEventOf(b: seq<Byte>, m: Record): Option<RawEvent>
    requires IsMessage(b, m)
  {
    if !(IsLink(m) || IsAddr(m)) || NameOf(b, m) == [] then None
    else if IsLink(m) then
      var flags := FlagsOf(b, m);
      Some(Link(NameOf(b, m), m.kind == RTM_DELLINK, UpFlag(flags), LowerUpFlag(flags),
                AttrData(b, m, IFLA_MTU), AttrData(b, m, IFLA_ADDRESS)))
    else
      Some(Addr(NameOf(b, m), m.kind == RTM_DELADDR, AttrData(b, m, IFA_ADDRESS)))
  }

  /** dispatch_rta copies without looking at the size of the destination: a sender must keep the
      name within its 16 bytes, NUL included, and each value within its field. */
  predicate Copyable(b: seq<Byte>, m: Record) {
    && 16 <= m.size && m.pos + m.size <= |b|
    && (IsLink(m) || IsAddr(m) ==>
          var data := AttrData(b, m, NameType(m)); |data| <= 16 && |CString(data)| <= 15)
    && (RawEventOf(b, m).Some? ==> RawEventOf(b, m).value.Fits())
  }

  function EventOf(b: seq<Byte>, m: Record): Option<NetEvent>
    requires Copyable(b, m)
  {
    RawEventOf(b, m)
  }

  function EventsOf(b: seq<Byte>, ms: seq<Record>): (es: seq<NetEvent>)
    requires forall m :: m in ms ==> Copyable(b, m)
  {
    if ms == [] then [] else
      EventsOf(b, ms[..|ms| - 1]) + Listed(EventOf(b, ms[|ms| - 1]))
  }

  function Listed(o: Option<NetEvent>): seq<NetEvent> {
    if o.Some? then [o.value] else []
  }

  /** The first `size` bytes of a buffer as messages. */
  function Messages(b: seq<Byte>, size: int): (ms: seq<Record>)
    requires size <= |b|
    ensures forall m :: m in ms ==> IsMessage(b, m)
  {
    var ms := Walk(Message, b, 0, size);
    WalkExact(Message, b, 0, size, ms);
    assert forall i :: 0 <= i < |ms| ==> Inside(Message, b, 0, size, ms[i]);
    ms
  }

  /** The events in the first `size` bytes of a buffer. */
  function Events(b: seq<Byte>, size: int): seq<NetEvent>
    requires size <= |b| && forall m :: m in Messages(b, size) ==> Copyable(b, m)
  {
    EventsOf(b, Messages(b, size))
  }

  // ---- Laying an event out ----------------------------------------------------------------------------

  function AttributeItem(kind: nat, data: seq<Byte>): Item {
    Item(kind, [], data)
  }

  function EventAttributes(e: NetEvent): (xs: seq<Item>)
    ensures forall x :: x in xs ==> Fits(Attribute, x)
  {
    match e
    case Link(ifname, _, _, _, mtu, hwaddr) =>
      [AttributeItem(IFLA_IFNAME, ifname + [0]), AttributeItem(IFLA_MTU, mtu), AttributeItem(IFLA_ADDRESS, hwaddr)]
    case Addr(ifname, _, address) =>
      [AttributeItem(IFA_ADDRESS, address), AttributeItem(IFA_LABEL, ifname + [0])]
  }

  /** The bits of ifi_flags at byte 8 of an ifinfomsg: IFF_UP is the lowest of its first byte, IFF_LOWER_UP of its third. */
  predicate FlagsSay(fixed: seq<Byte>, e: NetEvent)
    requires e.Link? && |fixed| == 16
  {
    (e.up <==> fixed[8] % 2 == 1) && (e.portLink <==> fixed[10] % 2 == 1)
  }

  /** An event as a sender may put it: anything in the header and in the rest of the fixed part, any attributes in front,
      and behind any of other types. */
  datatype Sent = Sent(event: NetEvent, head: seq<Byte>, fixed: seq<Byte>, front: seq<Item>, back: seq<Item>) {
    function Attributes(): seq<Item> {
      front + EventAttributes(event) + back
    }

    predicate Attributed() {
      forall x :: x in Attributes() ==> Fits(Attribute, x)
    }

    ghost predicate Proper() {
      && |head| == 10
      && |fixed| == (if event.Link? then 16 else 8)
      && (event.Link? ==> FlagsSay(fixed, event))
      && Attributed()
      && (forall x :: x in back ==> forall y :: y in EventAttributes(event) ==> x.kind != y.kind)
      && Fits(Message, EventItem(this))
    }
  }

  function EventItem(w: Sent): (x: Item)
    requires w.Attributed()
  {
    Item(match w.event
         case Link(_, deleted, _, _, _, _) => if deleted then RTM_DELLINK else RTM_NEWLINK
         case Addr(_, deleted, _) => if deleted then RTM_DELADDR else RTM_NEWADDR,
         w.head,
         w.fixed + LayOutAll(Attribute, w.Attributes()))
  }

  /** Every event can be sent. */
  lemma EventsCanBeSent(e: NetEvent)
    ensures exists w: Sent :: w.Proper() && w.event == e
  {
    var flags := [if e.Link? && e.up then 1 else 0, 0, if e.Link? && e.portLink then 1 else 0, 0];
    var w := Sent(e, Pad(10), if e.Link? then Pad(8) + flags + Pad(4) else Pad(8), [], []);
    assert w.Attributes() == EventAttributes(e);
    ShortEvent(e);
    assert w.Proper();
  }

  lemma ShortEvent(e: NetEvent)
    ensures |LayOutAll(Attribute, EventAttributes(e))| <= 72
  {
    var xs := EventAttributes(e);
    assert |LayOut(Attribute, xs[0])| <= 24 && |LayOut(Attribute, xs[1])| <= 24;
    var rest := xs[1..][1..];
    if e.Link? {
      assert |LayOut(Attribute, xs[2])| <= 24;
      assert LayOutAll(Attribute, rest) == LayOut(Attribute, xs[2]) + LayOutAll(Attribute, rest[1..]);
    }
    assert LayOutAll(Attribute, xs[1..]) == LayOut(Attribute, xs[1]) + LayOutAll(Attribute, rest);
  }

  lemma SlotOf(b: seq<Byte>, m: Record, xs: seq<Item>, i: nat)
    requires IsMessage(b, m) && CarriesAll(Attribute, b, Attributes(b, m), xs)
    requires i < |xs| && forall j :: i < j < |xs| ==> xs[j].kind != xs[i].kind
    ensures AttrData(b, m, xs[i].kind) == xs[i].payload
  {
    var rs := Attributes(b, m);
    LastOfMeaning(rs, xs[i].kind);
    assert forall j :: 0 <= j < |xs| ==> Carries(Attribute, b, rs[j], xs[j]);
    assert rs[i].kind == xs[i].kind;
  }

  lemma {:induction false} CStringOf(s: seq<Byte>)
    requires forall i :: 0 <= i < |s| ==> s[i] != 0
    ensures CString(s + [0]) == s
  {
    if s != [] {
      CStringOf(s[1..]);
      assert (s + [0])[1..] == s[1..] + [0];
    }
  }

  lemma FlagsReadBack(b: seq<Byte>, at: nat)
    requires at + 4 <= |b|
    ensures UpFlag(U32(b, at)) <==> b[at] % 2 == 1
    ensures LowerUpFlag(U32(b, at)) <==> b[at + 2] % 2 == 1
  {
    assert U32(b, at) / 0x10000 == U16(b, at + 2);
  }

  lemma EventKind(b: seq<Byte>, m: Record, w: Sent)
    requires w.Proper() && Carries(Message, b, m, EventItem(w))
    ensures (w.event.Link? <==> IsLink(m)) && (w.event.Addr? <==> IsAddr(m))
    ensures Space(m) == 16 + |w.fixed|
  {
    assert m.kind == EventItem(w).kind;
  }

  lemma DropFront<T>(a: seq<T>, b: seq<T>)
    ensures (a + b)[|a|..|a + b|] == b
  {
  }

  lemma EventParts(b: seq<Byte>, m: Record, w: Sent)
    requires w.Proper() && Carries(Message, b, m, EventItem(w))
    ensures m.pos + Space(m) <= m.pos + m.size <= |b|
    ensures b[m.pos + Space(m)..m.pos + m.size] == LayOutAll(Attribute, w.Attributes())
  {
    EventKind(b, m, w);
    var xs := LayOutAll(Attribute, w.Attributes());
    var p := w.fixed + xs;
    assert PayloadOf(Message, b, m) == p;
    DropFront(w.fixed, xs);
    SliceInPlace(b, m.pos + 16, p, |w.fixed|, |p|);
  }

  lemma FlagsInPlace(b: seq<Byte>, m: Record, w: Sent)
    requires w.Proper() && Carries(Message, b, m, EventItem(w)) && w.event.Link?
    ensures m.pos + 28 <= |b| && b[m.pos + 24] == w.fixed[8] && b[m.pos + 26] == w.fixed[10]
  {
    var p := EventItem(w).payload;
    assert PayloadOf(Message, b, m) == p;
    assert b[m.pos + 24] == p[8] && b[m.pos + 26] == p[10];
  }

  lemma AttributesAre(b: seq<Byte>, m: Record, xs: seq<Item>)
    requires forall x :: x in xs ==> Fits(Attribute, x)
    requires IsMessage(b, m) && Space(m) <= m.size
    requires b[m.pos + Space(m)..m.pos + m.size] == LayOutAll(Attribute, xs)
    ensures CarriesAll(Attribute, b, Attributes(b, m), xs)
  {
    WalkLaidOut(Attribute, b, m.pos + Space(m), m.pos + m.size, xs);
  }

  lemma AttributesOfLaidOut(b: seq<Byte>, m: Record, w: Sent)
    requires w.Proper() && Carries(Message, b, m, EventItem(w))
    ensures IsMessage(b, m) && (w.event.Link? <==> IsLink(m)) && (w.event.Addr? <==> IsAddr(m))
    ensures CarriesAll(Attribute, b, Attributes(b, m), w.Attributes())
  {
    EventKind(b, m, w);
    EventParts(b, m, w);
    AttributesAre(b, m, w.Attributes());
  }

  lemma Middle<T>(a: seq<T>, b: seq<T>, c: seq<T>)
    ensures forall i :: 0 <= i < |b| ==> (a + b + c)[|a| + i] == b[i]
    ensures forall i :: 0 <= i < |c| ==> (a + b + c)[|a| + |b| + i] == c[i]
  {
  }

  /** No attribute behind attribute i of the event has its type. */
  lemma NoneLater(w: Sent, i: nat, j: nat)
    requires w.Proper() && i < |EventAttributes(w.event)| && |w.front| + i < j < |w.Attributes()|
    ensures w.Attributes()[j].kind != EventAttributes(w.event)[i].kind
  {
    var own, k := EventAttributes(w.event), j - |w.front|;
    Middle(w.front, own, w.back);
    if k < |own| {
      assert w.Attributes()[|w.front| + k] == own[k];
    } else {
      assert w.Attributes()[|w.front| + |own| + (k - |own|)] == w.back[k - |own|];
      assert own[i] in own && w.back[k - |own|] in w.back;
    }
  }

  /** Attribute i of the event is the last of its type. */
  lemma OwnSlot(b: seq<Byte>, m: Record, w: Sent, i: nat)
    requires w.Proper() && IsMessage(b, m) && CarriesAll(Attribute, b, Attributes(b, m), w.Attributes())
    requires i < |EventAttributes(w.event)|
    ensures var x := EventAttributes(w.event)[i]; AttrData(b, m, x.kind) == x.payload
  {
    var xs, at := w.Attributes(), |w.front| + i;
    Middle(w.front, EventAttributes(w.event), w.back);
    forall j | at < j < |xs| ensures xs[j].kind != xs[at].kind {
      NoneLater(w, i, j);
    }
    SlotOf(b, m, xs, at);
  }

  /** The slots that parse_rtattr fills from a laid-out event. */
  lemma EventSlots(b: seq<Byte>, m: Record, w: Sent)
    requires w.Proper() && Carries(Message, b, m, EventItem(w))
    ensures IsMessage(b, m) && (w.event.Link? <==> IsLink(m)) && (w.event.Addr? <==> IsAddr(m))
    ensures AttrData(b, m, NameType(m)) == w.event.ifname + [0]
    ensures w.event.Link? ==> AttrData(b, m, IFLA_MTU) == w.event.mtu && AttrData(b, m, IFLA_ADDRESS) == w.event.hwaddr
    ensures w.event.Addr? ==> AttrData(b, m, IFA_ADDRESS) == w.event.address
  {
    AttributesOfLaidOut(b, m, w);
    OwnSlot(b, m, w, 0);
    OwnSlot(b, m, w, 1);
    if w.event.Link? { OwnSlot(b, m, w, 2); }
  }

  lemma EventIs(b: seq<Byte>, m: Record, e: NetEvent)
    requires IsMessage(b, m) && (e.Link? <==> IsLink(m)) && (e.Addr? <==> IsAddr(m))
    requires NameOf(b, m) == e.ifname
    requires e.deleted == (m.kind == RTM_DELLINK || m.kind == RTM_DELADDR)
    requires e.Link? ==> AttrData(b, m, IFLA_MTU) == e.mtu && AttrData(b, m, IFLA_ADDRESS) == e.hwaddr
    requires e.Link? ==> UpFlag(FlagsOf(b, m)) == e.up && LowerUpFlag(FlagsOf(b, m)) == e.portLink
    requires e.Addr? ==> AttrData(b, m, IFA_ADDRESS) == e.address
    ensures RawEventOf(b, m) == Some(e)
  {
  }

  /** A laid-out event reads back as the event it was, whatever else the message carries. */
  lemma EventReadsBack(b: seq<Byte>, m: Record, w: Sent)
    requires w.Proper() && Carries(Message, b, m, EventItem(w))
    ensures Copyable(b, m) && EventOf(b, m) == Some(w.event)
  {
    EventSlots(b, m, w);
    CStringOf(w.event.ifname);
    if w.event.Link? {
      FlagsInPlace(b, m, w);
      FlagsReadBack(b, m.pos + 24);
    }
    EventIs(b, m, w.event);
  }

  function EventItems(ws: seq<Sent>): (xs: seq<Item>)
    requires forall i :: 0 <= i < |ws| ==> ws[i].Proper()
    ensures |xs| == |ws| && forall x :: x in xs ==> Fits(Message, x)
  {
    seq(|ws|, i requires 0 <= i < |ws| && ws[i].Proper() => EventItem(ws[i]))
  }

  /** What was sent. */
  function EventsIn(ws: seq<Sent>): (es: seq<NetEvent>)
    ensures |es| == |ws|
  {
    seq(|ws|, i requires 0 <= i < |ws| => ws[i].event)
  }

  lemma {:induction false} EventsInOrder(b: seq<Byte>, ms: seq<Record>, es: seq<NetEvent>)
    requires forall m :: m in ms ==> Copyable(b, m)
    requires |ms| == |es| && forall i :: 0 <= i < |ms| ==> EventOf(b, ms[i]) == Some(es[i])
    ensures EventsOf(b, ms) == es
  {
    if es != [] {
      var n := |es| - 1;
      EventsInOrder(b, ms[..n], es[..n]);
      assert Listed(EventOf(b, ms[n])) == [es[n]];
      SplitLast([], es);
    }
  }

  /** A buffer of laid-out events, received whole, delivers exactly those events in order. */
  lemma EventsReadBack(b: seq<Byte>, size: nat, ws: seq<Sent>)
    requires size <= |b| && forall i :: 0 <= i < |ws| ==> ws[i].Proper()
    requires b[..size] == LayOutAll(Message, EventItems(ws))
    ensures forall m :: m in Messages(b, size) ==> Copyable(b, m)
    ensures Events(b, size) == EventsIn(ws)
  {
    assert b[0..size] == b[..size];
    WalkLaidOut(Message, b, 0, size, EventItems(ws));
    var ms := Messages(b, size);
    forall i | 0 <= i < |ws| ensures Copyable(b, ms[i]) && EventOf(b, ms[i]) == Some(EventsIn(ws)[i]) {
      assert Carries(Message, b, ms[i], EventItems(ws)[i]);
      EventReadsBack(b, ms[i], ws[i]);
    }
    EventsInOrder(b, ms, EventsIn(ws));
  }
}
