/** The registry itself: a linked list of interface records on the heap, kept by src/netif_list.c
    and driven by the receive loop of src/netif_event.c. */
module NetifRegistry {
  import opened ListOp
  import opened Bytes
  import opened NetlinkWalk
  import opened NetifTable
  import opened NetifMessage

  type Node = ListHead<NetifAttr>

  /** A count held in a 32-bit unsigned field. */
  function Counter(n: int): (c: nat) {
    n % 0x1_0000_0000
  }

  /** Counting up and down in the field is counting the nodes. */
  lemma CountUp(n: nat)
    ensures Counter(n) < 0x1_0000_0000 && (n < 0x1_0000_0000 ==> Counter(n) == n)
    ensures Counter(Counter(n) + 1) == Counter(n + 1) && Counter(Counter(n + 1) - 1) == Counter(n)
  {
  }

  lemma FreshNamed(t: Table, ifname: seq<Byte>)
    ensures NamesDistinct([Fresh(ifname)] + t) <==> NamesDistinct(t) && !Has(t, ifname)
  {
    var u := [Fresh(ifname)] + t;
    assert u[0].ifname == ifname && forall i :: 0 <= i < |t| ==> u[i + 1] == t[i];
  }

  /** What recvfrom returned: the buffer, and a size that is negative on error. */
  datatype Received = Received(bytes: seq<Byte>, size: int) {
    predicate Deliverable() {
      size <= |bytes| && forall m :: m in Messages(bytes, size) ==> Copyable(bytes, m)
    }
  }

  function Delivered(rs: seq<Received>): seq<NetEvent>
    requires forall i :: 0 <= i < |rs| ==> rs[i].Deliverable()
  {
    if rs == [] then [] else
      var r := rs[|rs| - 1];
      assert r.Deliverable();
      Delivered(rs[..|rs| - 1]) + Events(r.bytes, r.size)
  }

  lemma DeliveredNext(t: Table, rs: seq<Received>, i: nat)
    requires i < |rs| && forall k :: 0 <= k < |rs| ==> rs[k].Deliverable()
    ensures Run(t, Delivered(rs[..i + 1])) == Run(Run(t, Delivered(rs[..i])), Events(rs[i].bytes, rs[i].size))
  {
    assert rs[..i + 1][..i] == rs[..i];
    RunConcat(t, Delivered(rs[..i]), Events(rs[i].bytes, rs[i].size));
  }

  /** NET_MANAGE_HEAD.  The mutex is not modelled: one thread handles all events. */
  class Registry {
    const listHead: Node
    var listSum: nat
    /** IFLA_MAX and IFA_MAX of the kernel headers. */
    const iflaMax: nat
    const ifaMax: nat
    /** The nodes on the list, in list order, and the records they hold. */
    ghost var nodes: seq<Node>
    ghost var table: Table
    ghost var Repr: set<Node>

    /** List, table and count belong together. */
    ghost predicate Linked()
      reads this, Repr
    {
      && listHead in Repr && (forall i :: 0 <= i < |nodes| ==> nodes[i] in Repr)
      && IsList(listHead, nodes)
      && |table| == |nodes| && (forall i :: 0 <= i < |nodes| ==> nodes[i].data == table[i])
      && listSum == Counter(|nodes|)
      && IFLA_MTU <= iflaMax && IFA_LABEL <= ifaMax
    }

    ghost predicate Valid()
      reads this, Repr
    {
      Linked() && NamesDistinct(table)
    }

    constructor (iflaMax: nat, ifaMax: nat)
      requires IFLA_MTU <= iflaMax && IFA_LABEL <= ifaMax
      ensures Valid() && table == [] && fresh(Repr)
    {
      var head := new ListHead(Fresh([]));
      listHead, listSum, nodes, table, Repr := head, 0, [], [], {head};
      this.iflaMax, this.ifaMax := iflaMax, ifaMax;
      new;
      InitListHead(listHead);
    }

    /** netif_node_find: the node with this name, if there is one. */
    method NodeFind(ifname: seq<Byte>) returns (node: ListHead?<NetifAttr>, ghost at: nat)
      requires Valid()
      ensures node == null <==> !Has(table, ifname)
      ensures node != null ==> at < |nodes| && node == nodes[at] && table[at].ifname == ifname
    {
      ghost var ring := [listHead] + nodes;
      NodesApart(listHead, nodes);
      at := 0;
      assert ring[0].next == if nodes == [] then listHead else ring[1];
      var pos := listHead.next;
      while pos != listHead
        invariant at <= |nodes|
        invariant pos == if at < |nodes| then nodes[at] else listHead
        invariant forall i :: 0 <= i < at ==> table[i].ifname != ifname
        decreases |nodes| - at
      {
        assert ring[at + 1] == nodes[at];
        if pos.data.ifname == ifname {
          return pos, at;
        }
        assert ring[at + 1].next == if at + 1 < |nodes| then ring[at + 2] else listHead;
        pos := pos.next;
        at := at + 1;
      }
      node := null;
    }

    /** Links a node in at the front and counts it. */
    method LinkFirst(node: Node)
      requires IsList(listHead, nodes) && node != listHead && node !in nodes
      requires node in Repr && listHead in Repr && forall i :: 0 <= i < |nodes| ==> nodes[i] in Repr
      modifies `nodes, `listSum, Repr`next, Repr`prev
      ensures IsList(listHead, nodes) && nodes == [node] + old(nodes)
      ensures old(listSum == Counter(|nodes|)) ==> listSum == Counter(|nodes|)
    {
      CountUp(|nodes|);
      CommonListAdd(node, listHead, nodes);
      nodes := [node] + nodes;
      listSum := Counter(listSum + 1);
    }

    /** netif_node_add: a zeroed record with this name, at the front, whether or not there is one already. */
    method NodeAdd(ifname: seq<Byte>) returns (node: Node)
      requires Linked()
      modifies this, Repr
      ensures Linked() && fresh(Repr - old(Repr)) && nodes == [node] + old(nodes)
      ensures table == [Fresh(ifname)] + old(table)
      ensures NamesDistinct(table) <==> old(NamesDistinct(table) && !Has(table, ifname))
    {
      ghost var t := table;
      node := new ListHead(Fresh(ifname));
      Repr := Repr + {node};
      LinkFirst(node);
      table := [Fresh(ifname)] + t;
      FreshNamed(t, ifname);
    }

    /** Unlinks node `at` and counts it out. */
    method UnlinkAt(node: Node, ghost at: nat)
      requires IsList(listHead, nodes) && at < |nodes| && node == nodes[at]
      requires listHead in Repr && forall i :: 0 <= i < |nodes| ==> nodes[i] in Repr
      modifies `nodes, `listSum, Repr`next, Repr`prev
      ensures IsList(listHead, nodes) && nodes == old(nodes[..at] + nodes[at + 1..])
      ensures old(listSum == Counter(|nodes|)) ==> listSum == Counter(|nodes|)
    {
      CountUp(|nodes| - 1);
      CommonListDel(node, listHead, nodes, at);
      nodes := nodes[..at] + nodes[at + 1..];
      listSum := Counter(listSum - 1);
    }

    /** Removes node `at` with its record. */
    method RemoveAt(node: Node, ghost at: nat)
      requires Valid() && at < |nodes| && node == nodes[at]
      modifies `nodes, `table, `listSum, Repr`next, Repr`prev
      ensures Valid() && table == old(table[..at] + table[at + 1..])
    {
      ghost var s, t := nodes, table;
      RemovedNames(t, at);
      UnlinkAt(node, at);
      table := t[..at] + t[at + 1..];
      RemoveOne(s, at);
      RemoveOne(t, at);
    }

    /** netif_node_del: removes the record with this name; -1 if there is none. */
    method NodeDel(ifname: seq<Byte>) returns (result: int)
      requires Valid()
      modifies `nodes, `listSum, `table, Repr`next, Repr`prev
      ensures Valid()
      ensures result == if old(Has(table, ifname)) then 0 else -1
      ensures table == Without(old(table), ifname)
    {
      var node;
      ghost var at;
      node, at := NodeFind(ifname);
      if node == null {
        WithoutNone(table, ifname);
        result := -1;
        return;
      }
      WithoutAt(table, at);
      RemoveAt(node, at);
      result := 0;
    }

    /** Writes the record of one node. */
    method StoreAt(node: Node, ghost at: nat, attr: NetifAttr)
      requires Valid() && at < |nodes| && node == nodes[at]
      requires attr.ifname == node.data.ifname
      modifies node`data, `table
      ensures Valid() && table == old(table)[at := attr]
    {
      NodesApart(listHead, nodes);
      StoreNames(table, at, attr);
      node.data := attr;
      table := table[at := attr];
    }

    /** net_event_notify: on a change of state to IF_DELADDR the address is wiped; the state of the
        record is then set.  Does nothing for an unknown interface. */
    method EventNotify(ifname: seq<Byte>, state: int)
      requires Valid()
      modifies `table, Repr`data
      ensures Valid() && table == Notified(old(table), ifname, state)
    {
      var node;
      ghost var at;
      node, at := NodeFind(ifname);
      if node == null {
        NotifiedNone(table, ifname, state);
        return;
      }
      var attr := node.data;
      if attr.currentState != state && state == IF_DELADDR {
        attr := attr.(ipaddr := Pad(4));
      }
      attr := attr.(currentState := state);
      NotifiedAt(table, at, state);
      StoreAt(node, at, attr);
    }

    /** netif_node_find, and netif_node_add when that finds nothing. */
    method FindOrAddNode(ifname: seq<Byte>) returns (node: Node, ghost at: nat)
      requires Valid()
      modifies this, Repr
      ensures Valid() && table == FindOrAdd(old(table), ifname)
      ensures at < |nodes| && node == nodes[at] && table[at].ifname == ifname
      ensures fresh(Repr - old(Repr))
    {
      var found;
      found, at := NodeFind(ifname);
      if found == null {
        node := NodeAdd(ifname);
        at := 0;
      } else {
        node := found;
      }
    }

    /** dispatch_rta: copies the data of one slot over the front of a field. */
    method DispatchRta(b: seq<Byte>, m: Record, slot: Option<Record>, ghost t: nat, field: seq<Byte>)
      returns (r: seq<Byte>)
      requires IsMessage(b, m) && slot == LastOf(Attributes(b, m), t)
      requires |AttrData(b, m, t)| <= |field|
      ensures r == Overlay(field, AttrData(b, m, t))
    {
      r := field;
      if slot.Some? {
        SlotInside(b, m, t);
        var data := b[slot.value.pos + 4..slot.value.pos + slot.value.size];
        if |data| > 0 {
          r := data + field[|data|..];
        }
      }
    }

    /** The attribute table of a message, every slot cleared and then parsed. */
    method ParseMessage(b: seq<Byte>, m: Record, max: nat) returns (tb: array<Option<Record>>)
      requires IsMessage(b, m)
      ensures fresh(tb) && tb.Length == max + 1
      ensures forall t: nat :: t <= max ==> tb[t] == LastOf(Attributes(b, m), t)
    {
      tb := new Option<Record>[max + 1](_ => None);
      ParseRtattr(tb, max, b, m.pos + Space(m), m.size - Space(m));
    }

    /** The interface name, copied into a zeroed 16-byte buffer and read as a C string. */
    method MessageName(b: seq<Byte>, m: Record, slot: Option<Record>) returns (ifname: seq<Byte>)
      requires (IsLink(m) || IsAddr(m)) && Copyable(b, m)
      requires slot == LastOf(Attributes(b, m), NameType(m))
      ensures ifname == NameOf(b, m)
    {
      var buffer := DispatchRta(b, m, slot, NameType(m), Pad(16));
      NameInBuffer(b, m, buffer);
      ifname := CString(buffer);
    }

    /** The end of both handlers: the new record is stored, then the event is notified. */
    method StoreAndNotify(node: Node, ghost at: nat, attr: NetifAttr, state: int, ghost t: Table, ghost e: NetEvent)
      requires Valid() && at < |nodes| && node == nodes[at] && NamesDistinct(t)
      requires table == FindOrAdd(t, e.ifname) && table[at].ifname == e.ifname
      requires attr == Stored(table[at], e) && state == e.State()
      modifies `table, Repr`data
      ensures Valid() && table == Step(t, e)
    {
      StoreThenNotify(t, e, at);
      StoreAt(node, at, attr);
      EventNotify(attr.ifname, state);
    }

    /** ifinfomsg_handle: a message that names no interface is ignored. */
    method IfinfomsgHandle(b: seq<Byte>, m: Record)
      requires Valid() && IsLink(m) && Copyable(b, m)
      modifies this, Repr
      ensures Valid() && fresh(Repr - old(Repr))
      ensures table == StepBy(old(table), EventOf(b, m))
    {
      var tb := ParseMessage(b, m, iflaMax);
      var ifname := MessageName(b, m, tb[IFLA_IFNAME]);
      if |ifname| == 0 {
        return;
      }
      ghost var t := table;
      var flags := FlagsOf(b, m);
      ghost var e := Link(ifname, m.kind == RTM_DELLINK, UpFlag(flags), LowerUpFlag(flags),
                          AttrData(b, m, IFLA_MTU), AttrData(b, m, IFLA_ADDRESS));
      assert EventOf(b, m) == Some(e);
      var node;
      ghost var at;
      var mtuSlot, hwaddrSlot := tb[IFLA_MTU], tb[IFLA_ADDRESS];
      node, at := FindOrAddNode(ifname);
      StoreLink(b, m, node, at, flags, mtuSlot, hwaddrSlot, t, e);
    }

    /** The second half of ifinfomsg_handle: the values of a link message go into the record. */
    method StoreLink(b: seq<Byte>, m: Record, node: Node, ghost at: nat, flags: nat,
                     mtuSlot: Option<Record>, hwaddrSlot: Option<Record>, ghost t: Table, ghost e: NetEvent)
      requires Valid() && at < |nodes| && node == nodes[at] && NamesDistinct(t)
      requires table == FindOrAdd(t, e.ifname) && table[at].ifname == e.ifname && IsMessage(b, m)
      requires e.Link? && e.deleted == (m.kind == RTM_DELLINK) && IsLink(m)
      requires e.up == UpFlag(flags) && e.portLink == LowerUpFlag(flags)
      requires mtuSlot == LastOf(Attributes(b, m), IFLA_MTU) && e.mtu == AttrData(b, m, IFLA_MTU)
      requires hwaddrSlot == LastOf(Attributes(b, m), IFLA_ADDRESS) && e.hwaddr == AttrData(b, m, IFLA_ADDRESS)
      modifies `table, Repr`data
      ensures Valid() && table == Step(t, e)
    {
      var mtu := DispatchRta(b, m, mtuSlot, IFLA_MTU, node.data.mtu);
      var hwaddr := DispatchRta(b, m, hwaddrSlot, IFLA_ADDRESS, node.data.hwaddr);
      var attr := node.data.(up := UpFlag(flags), portLink := LowerUpFlag(flags), mtu := mtu, hwaddr := hwaddr);
      var state := if m.kind == RTM_NEWLINK && attr.up then IF_UP else IF_DOWN;
      assert attr == Stored(table[at], e) && state == e.State();
      StoreAndNotify(node, at, attr, state, t, e);
    }

    /** ifaddrmsg_handle */
    method IfaddrmsgHandle(b: seq<Byte>, m: Record)
      requires Valid() && IsAddr(m) && Copyable(b, m)
      modifies this, Repr
      ensures Valid() && fresh(Repr - old(Repr))
      ensures table == StepBy(old(table), EventOf(b, m))
    {
      var tb := ParseMessage(b, m, ifaMax);
      var ifname := MessageName(b, m, tb[IFA_LABEL]);
      if |ifname| == 0 {
        return;
      }
      ghost var t := table;
      ghost var e := Addr(ifname, m.kind == RTM_DELADDR, AttrData(b, m, IFA_ADDRESS));
      assert EventOf(b, m) == Some(e);
      var state := if m.kind == RTM_NEWADDR then IF_NEWADDR else IF_DELADDR;
      assert state == e.State();
      var node;
      ghost var at;
      var addressSlot := tb[IFA_ADDRESS];
      node, at := FindOrAddNode(ifname);
      assert node.data == table[at];
      var ipaddr := DispatchRta(b, m, addressSlot, IFA_ADDRESS, node.data.ipaddr);
      var attr := node.data.(ipaddr := ipaddr);
      assert attr == Stored(table[at], e);
      assert NamesDistinct(t) && table == FindOrAdd(t, e.ifname) && table[at].ifname == e.ifname;
      StoreAndNotify(node, at, attr, state, t, e);
    }

    /** The switch of the receive loop. */
    method MessageHandle(b: seq<Byte>, m: Record)
      requires Valid() && Copyable(b, m)
      modifies this, Repr
      ensures Valid() && fresh(Repr - old(Repr))
      ensures table == StepBy(old(table), EventOf(b, m))
    {
      if m.kind == RTM_NEWLINK || m.kind == RTM_DELLINK {
        IfinfomsgHandle(b, m);
      } else if m.kind == RTM_NEWADDR || m.kind == RTM_DELADDR {
        IfaddrmsgHandle(b, m);
      }
    }

    /** One received buffer: every well-formed message before the first malformed one is handled
        once, in order.  A negative size, the error return of recvfrom, delivers nothing. */
    method EventHandle(b: seq<Byte>, rSize: int)
      requires Valid() && rSize <= |b|
      requires forall m :: m in Messages(b, rSize) ==> Copyable(b, m)
      modifies this, Repr
      ensures Valid() && fresh(Repr - old(Repr)) && table == Run(old(table), Events(b, rSize))
    {
      var pos: nat, len: int := 0, rSize;
      ghost var all, done := Messages(b, rSize), [];
      while Ok(Message, b, pos, pos + len)
        invariant pos + len == rSize && all == done + Walk(Message, b, pos, rSize)
        invariant Valid() && fresh(Repr - old(Repr))
        invariant Handled(b, done, old(table), table)
        decreases len
      {
        var m := RecordAt(Message, b, pos);
        assert all == (done + [m]) + Walk(Message, b, Next(m), rSize);
        assert m in all;
        HandledSnoc(b, done, m, old(table), table);
        MessageHandle(b, m);
        done := done + [m];
        pos, len := Next(m), len - Align(m.size);
      }
      assert all == done;
    }

    /** The receive loop over a run of buffers: the table is the fold of everything delivered, and, if it was
        empty at first, the map of it. */
    method Serve(rs: seq<Received>)
      requires Valid() && forall i :: 0 <= i < |rs| ==> rs[i].Deliverable()
      modifies this, Repr
      ensures Valid() && fresh(Repr - old(Repr))
      ensures table == Run(old(table), Delivered(rs))
      ensures old(table) == [] ==> IsMapOf(table, Delivered(rs))
    {
      var i := 0;
      assert rs[..0] == [];
      while i < |rs|
        invariant 0 <= i <= |rs| && Valid() && fresh(Repr - old(Repr))
        invariant table == Run(old(table), Delivered(rs[..i]))
      {
        DeliveredNext(old(table), rs, i);
        EventHandle(rs[i].bytes, rs[i].size);
        i := i + 1;
      }
      assert rs[..i] == rs;
      RunIsMap(old(table), table, Delivered(rs));
    }
  }

  /** t1 is what the messages ms make of t0. */
  ghost predicate Handled(b: seq<Byte>, ms: seq<Record>, t0: Table, t1: Table) {
    && (forall m :: m in ms ==> Copyable(b, m))
    && t1 == Run(t0, EventsOf(b, ms))
  }

  lemma HandledSnoc(b: seq<Byte>, ms: seq<Record>, m: Record, t0: Table, t1: Table)
    requires Handled(b, ms, t0, t1) && Copyable(b, m)
    ensures Handled(b, ms + [m], t0, StepBy(t1, EventOf(b, m)))
  {
    var all := ms + [m];
    assert all[..|all| - 1] == ms;
    var before, after := EventsOf(b, ms), EventsOf(b, all);
    if EventOf(b, m).Some? {
      assert after[..|after| - 1] == before;
    } else {
      assert after == before;
    }
  }

  lemma NameInBuffer(b: seq<Byte>, m: Record, buffer: seq<Byte>)
    requires IsMessage(b, m) && |AttrData(b, m, NameType(m))| <= 16
    requires buffer == Overlay(Pad(16), AttrData(b, m, NameType(m)))
    ensures CString(buffer) == NameOf(b, m)
  {
    var data := AttrData(b, m, NameType(m));
    assert Pad(16)[|data|..] == Pad(16 - |data|);
    CStringPadded(data, 16 - |data|);
  }
}
