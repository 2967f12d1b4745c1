/** The walks over length-prefixed records in src/netif_event.c: netlink messages in a received
    buffer (header as in section 2.3.2 of RFC 3549), and route attributes inside a message.
    Multi-byte fields are in host order, taken as little endian. */
module NetlinkWalk {
  import opened Bytes

  /** The two record formats: NLMSG_OK / NLMSG_NEXT and RTA_OK / RTA_NEXT. */
  datatype Format = Message | Attribute {
    /** sizeof the header, which counts in the length field. */
    function Header(): (n: nat)
      ensures 4 <= n && n % 4 == 0
    {
      match this case Message => 16 case Attribute => 4
    }

    /** Width of the length field, which comes first; the 16-bit type follows it. */
    function LengthWidth(): (n: nat)
      ensures n + 2 <= Header()
    {
      match this case Message => 4 case Attribute => 2
    }
  }

  /** A record found by a walk: its type, where its header starts, and its length field. */
  datatype Record = Record(kind: nat, pos: nat, size: nat)

  function Align(n: nat): (a: nat)
    ensures n <= a < n + 4 && a % 4 == 0
  {
    (n + 3) / 4 * 4
  }

  function LengthAt(f: Format, b: seq<Byte>, at: nat): nat
    requires at + f.Header() <= |b|
  {
    if f.Message? then U32(b, at) else U16(b, at)
  }

  function RecordAt(f: Format, b: seq<Byte>, at: nat): Record
    requires at + f.Header() <= |b|
  {
    Record(U16(b, at + f.LengthWidth()), at, LengthAt(f, b, at))
  }

  /** NLMSG_OK and RTA_OK, with end - at bytes left, which may be negative. */
  predicate Ok(f: Format, b: seq<Byte>, at: nat, end: int)
    requires end <= |b|
  {
    at + f.Header() <= end && f.Header() <= LengthAt(f, b, at) <= end - at
  }

  /** NLMSG_NEXT and RTA_NEXT. */
  function Next(r: Record): nat {
    r.pos + Align(r.size)
  }

  // ---- What a walk finds ------------------------------------------------------------------------

  /** The records from `at` on, up to the first malformed one. */
  function Walk(f: Format, b: seq<Byte>, at: nat, end: int): (rs: seq<Record>)
    requires end <= |b|
    decreases end - at
  {
    if !Ok(f, b, at, end) then [] else
      var r := RecordAt(f, b, at);
      [r] + Walk(f, b, Next(r), end)
  }

  /** r is a record of the buffer, wholly before `end`. */
  ghost predicate Inside(f: Format, b: seq<Byte>, at: nat, end: int, r: Record)
    requires end <= |b|
  {
    && at <= r.pos
    && f.Header() <= r.size
    && r.pos + r.size <= end
    && r == RecordAt(f, b, r.pos)
  }

  /** Where the record after rs would start. */
  function Past(at: nat, rs: seq<Record>): nat {
    if rs == [] then at else Next(rs[|rs| - 1])
  }

  /** rs stand back to back, aligned, and inside the given bytes ... */
  ghost predicate Chain(f: Format, b: seq<Byte>, at: nat, end: int, rs: seq<Record>)
    requires end <= |b|
  {
    && (forall i :: 0 <= i < |rs| ==> Inside(f, b, at, end, rs[i]))
    && (forall i :: 0 <= i < |rs| ==> rs[i].pos == Past(at, rs[..i]))
  }

  /** ... and the bytes after them do not start another one. */
  ghost predicate Stops(f: Format, b: seq<Byte>, at: nat, end: int, rs: seq<Record>)
    requires end <= |b|
  {
    !Ok(f, b, Past(at, rs), end)
  }

  lemma PrefixSnoc<T>(s: seq<T>, i: nat)
    requires 0 < i <= |s|
    ensures s[..i] == s[..i - 1] + [s[i - 1]]
  {
  }

  lemma {:induction false} WalkSplits(f: Format, b: seq<Byte>, at: nat, end: int, i: nat)
    requires end <= |b| && i <= |Walk(f, b, at, end)|
    ensures var rs := Walk(f, b, at, end); rs == rs[..i] + Walk(f, b, Past(at, rs[..i]), end)
    decreases i
  {
    var rs := Walk(f, b, at, end);
    if i > 0 {
      WalkSplits(f, b, at, end, i - 1);
      PrefixSnoc(rs, i);
    }
  }

  lemma {:induction false} WalkInside(f: Format, b: seq<Byte>, at: nat, end: int, i: nat)
    requires end <= |b| && i < |Walk(f, b, at, end)|
    ensures var rs := Walk(f, b, at, end); Inside(f, b, at, end, rs[i]) && rs[i].pos == Past(at, rs[..i])
    decreases i
  {
    var rs := Walk(f, b, at, end);
    WalkSplits(f, b, at, end, i);
    if i > 0 {
      WalkInside(f, b, at, end, i - 1);
    }
  }

  /** Whatever chain there is, the walk starts with it. */
  lemma {:induction false} ChainIsPrefix(f: Format, b: seq<Byte>, at: nat, end: int, rs: seq<Record>, i: nat)
    requires end <= |b| && Chain(f, b, at, end, rs) && i <= |rs|
    ensures Walk(f, b, at, end) == rs[..i] + Walk(f, b, Past(at, rs[..i]), end)
    decreases i
  {
    if i > 0 {
      ChainIsPrefix(f, b, at, end, rs, i - 1);
      assert Inside(f, b, at, end, rs[i - 1]);
      PrefixSnoc(rs, i);
    }
  }

  /** The walk is exact: it finds the one maximal chain of well-formed records. */
  lemma WalkExact(f: Format, b: seq<Byte>, at: nat, end: int, rs: seq<Record>)
    requires end <= |b|
    ensures rs == Walk(f, b, at, end) <==> Chain(f, b, at, end, rs) && Stops(f, b, at, end, rs)
  {
    if rs == Walk(f, b, at, end) {
      forall i | 0 <= i < |rs| ensures Inside(f, b, at, end, rs[i]) && rs[i].pos == Past(at, rs[..i]) {
        WalkInside(f, b, at, end, i);
      }
      WalkSplits(f, b, at, end, |rs|);
      assert rs[..|rs|] == rs;
    }
    if Chain(f, b, at, end, rs) && Stops(f, b, at, end, rs) {
      ChainIsPrefix(f, b, at, end, rs, |rs|);
      assert rs[..|rs|] == rs;
    }
  }

  // ---- Reading back what was laid out ---------------------------------------------------------------

  /** A record to be laid out: its type, the header bytes after the type, and its payload. */
  datatype Item = Item(kind: nat, head: seq<Byte>, payload: seq<Byte>)

  predicate Fits(f: Format, x: Item) {
    && x.kind < 0x10000
    && f.LengthWidth() + 2 + |x.head| == f.Header()
    && f.Header() + |x.payload| < if f.Message? then 0x1_0000_0000 else 0x10000
  }

  /** RTA_LENGTH / NLMSG_LENGTH in the length field, RTA_SPACE / NLMSG_SPACE bytes in all. */
  function LayOut(f: Format, x: Item): (b: seq<Byte>)
    requires Fits(f, x)
    ensures |b| == Align(f.Header() + |x.payload|)
  {
    var n := f.Header() + |x.payload|;
    LengthField(f, n) + Le16(x.kind) + x.head + x.payload + Pad(Align(n) - n)
  }

  function LayOutAll(f: Format, xs: seq<Item>): (b: seq<Byte>)
    requires forall x :: x in xs ==> Fits(f, x)
  {
    if xs == [] then [] else LayOut(f, xs[0]) + LayOutAll(f, xs[1..])
  }

  function HeadOf(f: Format, b: seq<Byte>, r: Record): seq<Byte>
    requires r.pos + f.Header() <= |b|
  {
    b[r.pos + f.LengthWidth() + 2..r.pos + f.Header()]
  }

  function PayloadOf(f: Format, b: seq<Byte>, r: Record): seq<Byte>
    requires f.Header() <= r.size && r.pos + r.size <= |b|
  {
    b[r.pos + f.Header()..r.pos + r.size]
  }

  function ItemOf(f: Format, b: seq<Byte>, r: Record): Item
    requires f.Header() <= r.size && r.pos + r.size <= |b|
  {
    Item(r.kind, HeadOf(f, b, r), PayloadOf(f, b, r))
  }

  function LengthField(f: Format, n: nat): (b: seq<Byte>)
    requires n < if f.Message? then 0x1_0000_0000 else 0x10000
    ensures |b| == f.LengthWidth()
  {
    if f.Message? then Le32(n) else Le16(n)
  }

  lemma LengthReadsBack(f: Format, b: seq<Byte>, at: nat, n: nat)
    requires n < if f.Message? then 0x1_0000_0000 else 0x10000
    requires at + f.Header() <= |b|
    requires b[at..at + f.LengthWidth()] == LengthField(f, n)
    ensures LengthAt(f, b, at) == n
  {
    if f.Message? {
      Le32ReadsBack(b, at, n);
    } else {
      Le16ReadsBack(b, at, n);
    }
  }

  /** Where the parts of a laid-out record stand. */
  lemma LayOutParts(f: Format, x: Item)
    requires Fits(f, x)
    ensures var y, n, w := LayOut(f, x), f.Header() + |x.payload|, f.LengthWidth();
            && y[..w] == LengthField(f, n)
            && y[w..w + 2] == Le16(x.kind)
            && y[w + 2..f.Header()] == x.head
            && y[f.Header()..n] == x.payload
  {
  }

  /** One laid-out record reads back, wherever it stands in the buffer. */
  lemma LayOutReadsBack(f: Format, b: seq<Byte>, at: nat, x: Item)
    requires Fits(f, x) && at + |LayOut(f, x)| <= |b|
    requires b[at..at + |LayOut(f, x)|] == LayOut(f, x)
    ensures LengthAt(f, b, at) == f.Header() + |x.payload|
    ensures ItemOf(f, b, RecordAt(f, b, at)) == x
  {
    var y, n, w := LayOut(f, x), f.Header() + |x.payload|, f.LengthWidth();
    LayOutParts(f, x);
    SliceInPlace(b, at, y, 0, w);
    SliceInPlace(b, at, y, w, w + 2);
    SliceInPlace(b, at, y, w + 2, f.Header());
    SliceInPlace(b, at, y, f.Header(), n);
    LengthReadsBack(f, b, at, n);
    Le16ReadsBack(b, at + w, x.kind);
  }

  /** Record i of a walk carries item x. */
  ghost predicate Carries(f: Format, b: seq<Byte>, r: Record, x: Item) {
    f.Header() <= r.size && r.pos + r.size <= |b| && ItemOf(f, b, r) == x
  }

  ghost predicate CarriesAll(f: Format, b: seq<Byte>, rs: seq<Record>, xs: seq<Item>) {
    |rs| == |xs| && forall i :: 0 <= i < |xs| ==> Carries(f, b, rs[i], xs[i])
  }

  lemma CarriesCons(f: Format, b: seq<Byte>, at: nat, end: nat, xs: seq<Item>)
    requires end <= |b| && Ok(f, b, at, end) && xs != []
    requires Carries(f, b, RecordAt(f, b, at), xs[0])
    requires CarriesAll(f, b, Walk(f, b, Next(RecordAt(f, b, at)), end), xs[1..])
    ensures CarriesAll(f, b, Walk(f, b, at, end), xs)
  {
    var r := RecordAt(f, b, at);
    var rest := Walk(f, b, Next(r), end);
    assert Walk(f, b, at, end) == [r] + rest;
    forall i | 0 < i < |xs| ensures Carries(f, b, ([r] + rest)[i], xs[i]) {
      assert Carries(f, b, rest[i - 1], xs[1..][i - 1]);
    }
  }

  lemma SplitSlice(b: seq<Byte>, at: nat, end: nat, y: seq<Byte>, z: seq<Byte>)
    requires at <= end <= |b| && b[at..end] == y + z
    ensures at + |y| <= end && b[at..at + |y|] == y && b[at + |y|..end] == z
  {
    assert b[at..at + |y|] == b[at..end][..|y|];
    assert b[at + |y|..end] == b[at..end][|y|..];
  }

  lemma FirstLaidOut(f: Format, b: seq<Byte>, at: nat, end: nat, x: Item, rest: seq<Byte>)
    requires Fits(f, x) && at <= end <= |b| && b[at..end] == LayOut(f, x) + rest
    ensures Ok(f, b, at, end) && Carries(f, b, RecordAt(f, b, at), x)
    ensures Next(RecordAt(f, b, at)) <= end && b[Next(RecordAt(f, b, at))..end] == rest
  {
    SplitSlice(b, at, end, LayOut(f, x), rest);
    LayOutReadsBack(f, b, at, x);
  }

  /** Everything laid out back to back is walked once, in order, and nothing else is. */
  lemma {:induction false} WalkLaidOut(f: Format, b: seq<Byte>, at: nat, end: nat, xs: seq<Item>)
    requires forall x :: x in xs ==> Fits(f, x)
    requires at <= end <= |b| && b[at..end] == LayOutAll(f, xs)
    ensures CarriesAll(f, b, Walk(f, b, at, end), xs)
    decreases |xs|
  {
    if xs != [] {
      FirstLaidOut(f, b, at, end, xs[0], LayOutAll(f, xs[1..]));
      WalkLaidOut(f, b, Next(RecordAt(f, b, at)), end, xs[1..]);
      CarriesCons(f, b, at, end, xs);
    }
  }

  // ---- parse_rtattr ----------------------------------------------------------------------------------

  /** The last record of type t. */
  function LastOf(rs: seq<Record>, t: nat): Option<Record> {
    if rs == [] then None
    else if rs[|rs| - 1].kind == t then Some(rs[|rs| - 1])
    else LastOf(rs[..|rs| - 1], t)
  }

  lemma {:induction false} LastOfMeaning(rs: seq<Record>, t: nat)
    ensures LastOf(rs, t).None? <==> forall i :: 0 <= i < |rs| ==> rs[i].kind != t
    ensures LastOf(rs, t).Some? ==>
              exists i :: 0 <= i < |rs| && LastOf(rs, t) == Some(rs[i]) && rs[i].kind == t
                     && forall j :: i < j < |rs| ==> rs[j].kind != t
  {
    if rs != [] && rs[|rs| - 1].kind != t {
      LastOfMeaning(rs[..|rs| - 1], t);
    }
  }

  /** Stores every attribute of type at most max in its slot; a later one replaces an earlier one. */
  method ParseRtattr(tb: array<Option<Record>>, max: nat, b: seq<Byte>, start: nat, length: int)
    requires tb.Length == max + 1
    requires start + length <= |b|
    modifies tb
    ensures forall t: nat :: 0 <= t <= max ==>
              tb[t] == match LastOf(Walk(Attribute, b, start, start + length), t) case Some(r) => Some(r) case None => old(tb[t])
  {
    var attr: nat, len: int := start, length;
    ghost var all, done := Walk(Attribute, b, start, start + length), [];
    while Ok(Attribute, b, attr, attr + len)
      invariant attr + len == start + length
      invariant all == done + Walk(Attribute, b, attr, attr + len)
      invariant forall t: nat :: 0 <= t <= max ==>
                  tb[t] == match LastOf(done, t) case Some(r) => Some(r) case None => old(tb[t])
      decreases len
    {
      var r := RecordAt(Attribute, b, attr);
      ghost var before := done;
      done := done + [r];
      assert done[..|done| - 1] == before;
      if r.kind <= max {
        tb[r.kind] := Some(r);
      }
      attr, len := Next(r), len - Align(r.size);
    }
    assert all == done;
  }
}
