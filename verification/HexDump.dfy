/** The hexdump reader of eeprom/decode-dimms, and the squeezed dumps it is for.

    Lines are text; the two patterns at the head of the loop, which take them apart, are in HexText. */
module HexDump {
  import opened Bytes
  import opened HexText
  import Parts

  // ---- The reader --------------------------------------------------------------------------------------

  /** Whether 16-bit cells have their low byte first. */
  datatype Order = LittleEndian | BigEndian

  datatype Outcome = Running | Stopped | Died

  /** The variables of read_hexdump.  An array element that was never set is None. */
  datatype State = State(addr: nat, repstart: nat, bytes: seq<Option<nat>>, header: bool, outcome: Outcome)

  const START := State(0, 0, [], true, Running)

  /** Sets one array element, which may lie past the end. */
  function Put(bytes: seq<Option<nat>>, at: nat, value: nat): (r: seq<Option<nat>>) {
    if at < |bytes| then bytes[at := Some(value)]
    else bytes + seq(at - |bytes|, _ => None) + [Some(value)]
  }

  function PutCell(order: Order, bytes: seq<Option<nat>>, at: nat, cell: string): seq<Option<nat>> {
    if |cell| == 4 then
      var first, second := Hex(cell[..2]), Hex(cell[2..]);
      if order.LittleEndian? then Put(Put(bytes, at, second), at + 1, first)
      else Put(Put(bytes, at, first), at + 1, second)
    else Put(bytes, at, Hex(cell))
  }

  function CellWidth(cell: string): nat {
    if |cell| == 4 then 2 else 1
  }

  function PutCells(order: Order, bytes: seq<Option<nat>>, at: nat, cells: seq<string>): (r: (seq<Option<nat>>, nat))
    decreases |cells|
  {
    if cells == [] then (bytes, at)
    else PutCells(order, PutCell(order, bytes, at, cells[0]), at + CellWidth(cells[0]), cells[1..])
  }

  /** Element i of the row before repstart, over and over. */
  function Repeated(bytes: seq<Option<nat>>, repstart: nat, i: nat): Option<nat> {
    // an index below zero counts from the end
    var j := repstart - 16 + i % 16;
    var k := if j < 0 then |bytes| + j else j;
    if 0 <= k < |bytes| then bytes[k] else None
  }

  /** The slice assignment that undoes a `*`: whole copies of the row before it, up to addr. */
  function Expand(bytes: seq<Option<nat>>, repstart: nat, addr: nat): (r: seq<Option<nat>>) {
    if addr <= repstart then bytes
    else
      var copies := (addr - repstart) / 16 * 16;
      var size := if addr < |bytes| then |bytes| else addr;
      seq(size, i requires 0 <= i =>
        if repstart <= i < addr then
          (if i - repstart < copies then Repeated(bytes, repstart, i - repstart) else None)
        else if i < |bytes| then bytes[i] else None)
  }

  /** The element at an index, or nothing. */
  function Element(bytes: seq<Option<nat>>, i: nat): Option<nat> {
    if i < |bytes| then bytes[i] else None
  }

  /** With n whole rows between repstart and addr, each of them becomes the row before repstart; what is left up to addr is
      cleared, and nothing else changes. */
  lemma ExpandDecided(bytes: seq<Option<nat>>, repstart: nat, addr: nat, n: nat, i: nat)
    requires repstart + 16 * n <= addr < repstart + 16 * n + 16
    ensures var r := Expand(bytes, repstart, addr);
      && (addr == repstart ==> r == bytes)
      && (repstart < addr ==> |r| == if addr < |bytes| then |bytes| else addr)
      && (i < repstart || addr <= i ==> Element(r, i) == Element(bytes, i))
      && (repstart + 16 * n <= i < addr ==> Element(r, i) == None)
      && (i < 16 * n && repstart >= 16 ==> Element(r, repstart + i) == Element(bytes, repstart - 16 + i % 16))
  {
    assert (addr - repstart) / 16 == n;
    if i < 16 * n {
      assert Expand(bytes, repstart, addr)[repstart + i] == Repeated(bytes, repstart, repstart + i - repstart);
    }
  }

  /** An address that is not above repstart leaves all as it is. */
  lemma NothingToExpand(bytes: seq<Option<nat>>, repstart: nat, addr: nat)
    requires addr <= repstart
    ensures Expand(bytes, repstart, addr) == bytes
  {
  }

  /** What the patterns find in a line: in a row the address, and what is between the blanks in the cells. */
  datatype Line = Star | Row(addr: string, cells: seq<string>) | Closing(addr: string) | Other

  function Recognise(s: string): Line {
    if s == "*" then Star
    else
      match RowPattern(s)
      case Some(m) => Row(s[m.from..m.addressEnd], Tokens(s, m.cells, m.end))
      case None =>
        match ClosingPattern(s)
        case Some(addr) => Closing(addr)
        case None => Other
  }

  /** One turn of the loop. */
  function Turn(order: Order, s: State, line: Line): State {
    if !s.outcome.Running? then s
    else
      match line
      case Star => s.(repstart := s.addr)
      case Other => if s.header then s else s.(outcome := Died)
      case Closing(a) => At(s, Hex(a)).(outcome := Stopped)
      case Row(a, cells) =>
        var t := At(s, Hex(a));
        var (bytes, addr) := PutCells(order, t.bytes, t.addr, cells);
        t.(bytes := bytes, addr := addr)
  }

  /** A line with an address: the header is over, and a pending `*` is expanded. */
  function At(s: State, addr: nat): State {
    if s.repstart != 0 then State(addr, 0, Expand(s.bytes, s.repstart, addr), false, Running)
    else s.(addr := addr, header := false)
  }

  function Turns(order: Order, s: State, lines: seq<string>): State {
    if lines == [] then s
    else Turn(order, Turns(order, s, lines[..|lines| - 1]), Recognise(lines[|lines| - 1]))
  }

  /** The bytes, or None if the script dies. */
  function Result(s: State): Option<seq<Option<nat>>> {
    if s.outcome.Died? || s.header then None else Some(s.bytes)
  }

  method PutRow(order: Order, bytes0: seq<Option<nat>>, at0: nat, cells: seq<string>) returns (bytes: seq<Option<nat>>, at: nat)
    ensures (bytes, at) == PutCells(order, bytes0, at0, cells)
  {
    bytes, at := bytes0, at0;
    var i := 0;
    while i < |cells|
      invariant 0 <= i <= |cells|
      invariant PutCells(order, bytes0, at0, cells) == PutCells(order, bytes, at, cells[i..])
    {
      var cell := cells[i];
      assert cells[i..][0] == cell && cells[i..][1..] == cells[i + 1..];
      if |cell| == 4 {
        var first, second := Hex(cell[..2]), Hex(cell[2..]);
        if order == LittleEndian {
          bytes := Put(bytes, at, second);
          at := at + 1;
          bytes := Put(bytes, at, first);
          at := at + 1;
        } else {
          bytes := Put(bytes, at, first);
          at := at + 1;
          bytes := Put(bytes, at, second);
          at := at + 1;
        }
      } else {
        bytes := Put(bytes, at, Hex(cell));
        at := at + 1;
      }
      i := i + 1;
    }
  }

  lemma TurnsSnoc(order: Order, lines: seq<string>, i: nat)
    requires i < |lines|
    ensures Turns(order, START, lines[..i + 1]) == Turn(order, Turns(order, START, lines[..i]), Recognise(lines[i]))
  {
    assert lines[..i + 1][..i] == lines[..i];
  }

  lemma {:induction false} Ended(order: Order, lines: seq<string>, i: nat, j: nat)
    requires i <= j <= |lines| && !Turns(order, START, lines[..i]).outcome.Running?
    ensures Turns(order, START, lines[..j]) == Turns(order, START, lines[..i])
  {
    if i < j {
      Ended(order, lines, i, j - 1);
      TurnsSnoc(order, lines, j - 1);
    }
  }

  /** read_hexdump, without its cache. */
  method ReadHexdump(order: Order, lines: seq<string>) returns (r: Option<seq<Option<nat>>>)
    ensures r == Result(Turns(order, START, lines))
  {
    var addr, repstart, bytes, header := 0, 0, [], true;
    var i := 0;
    assert lines[..|lines|] == lines;
    while i < |lines|
      invariant 0 <= i <= |lines|
      invariant Turns(order, START, lines[..i]) == State(addr, repstart, bytes, header, Running)
    {
      var line := Recognise(lines[i]);
      TurnsSnoc(order, lines, i);
      i := i + 1;
      if line.Star? {
        repstart := addr;
        continue;
      }
      if line.Other? {
        if header { continue; }
        Ended(order, lines, i, |lines|);
        return None;
      }
      header := false;
      addr := Hex(line.addr);
      if repstart != 0 {
        bytes := Expand(bytes, repstart, addr);
        repstart := 0;
      }
      if line.Closing? {
        Ended(order, lines, i, |lines|);
        return Some(bytes);
      }
      bytes, addr := PutRow(order, bytes, addr, line.cells);
    }
    r := if header then None else Some(bytes);
  }

  // ---- Squeezed dumps -----------------------------------------------------------------------------------

  /** An image of whole rows. */
  predicate Image(image: seq<Byte>) {
    image != [] && |image| % 16 == 0
  }

  function RowAt(image: seq<Byte>, k: nat): (row: seq<Byte>)
    requires 16 * k + 16 <= |image|
    ensures |row| == 16
  {
    image[16 * k..16 * k + 16]
  }

  /** Row k repeats the row before it. */
  predicate Repeats(image: seq<Byte>, k: nat)
    requires 16 * k + 16 <= |image|
  {
    k > 0 && RowAt(image, k) == RowAt(image, k - 1)
  }

  /** How a row is printed: as bytes, or as 16-bit words of either order. */
  datatype Style = ByteCells | WordCells(order: Order)

  /** Two bytes as one number, "%04x". */
  function Word(order: Order, first: Byte, second: Byte): (cell: string)
    ensures |cell| == 4
  {
    Digits(if order.LittleEndian? then first + 0x100 * second else 0x100 * first + second, 4)
  }

  function Bytewise(row: seq<Byte>): (cells: seq<string>)
    ensures |cells| == |row|
  {
    seq(|row|, i requires 0 <= i < |row| => Digits(row[i], 2))
  }

  function Wordwise(order: Order, row: seq<Byte>): (cells: seq<string>)
    requires |row| % 2 == 0
    ensures |cells| == |row| / 2
  {
    seq(|row| / 2, i requires 0 <= i < |row| / 2 => Word(order, row[2 * i], row[2 * i + 1]))
  }

  function Cells(style: Style, row: seq<Byte>): seq<string>
    requires |row| % 2 == 0
  {
    if style.ByteCells? then Bytewise(row) else Wordwise(style.order, row)
  }

  /** How a dump looks: the digits of an address, the cells, a colon behind the address or not, the blanks before and between the cells, and what
      follows them, such as a column of characters. */
  datatype Layout = Layout(digits: nat, style: Style, colon: bool, margin: string, gap: nat -> string, tail: seq<Byte> -> string)

  predicate Blanks(s: string) {
    s != "" && All(IsBlank, s, 0, |s|)
  }

  ghost predicate Spaced(layout: Layout) {
    && 2 <= layout.digits <= 8 && Blanks(layout.margin) && Gaps(layout.gap)
    // four digits and a space are what the patterns allow before an address
    && (layout.digits == 4 ==> layout.colon || layout.margin[0] != ' ')
  }

  ghost predicate Gaps(gap: nat -> string) {
    forall i: nat :: Blanks(gap(i))
  }

  /** The cells, of which the first has number i, with the gaps between them. */
  function CellsText(cells: seq<string>, gap: nat -> string, i: nat, tail: string): string {
    if cells == [] then tail
    else if |cells| == 1 then cells[0] + tail
    else cells[0] + (gap(i) + CellsText(cells[1..], gap, i + 1, tail))
  }

  function RowText(layout: Layout, addr: nat, row: seq<Byte>): string
    requires |row| % 2 == 0
  {
    Digits(addr, layout.digits) + (if layout.colon then ":" else "") + layout.margin
    + CellsText(Cells(layout.style, row), layout.gap, 0, layout.tail(row))
  }

  /** The lines for the first k rows: a run of equal rows is the row and one `*`. */
  function Dumped(layout: Layout, image: seq<Byte>, k: nat): seq<string>
    requires 16 * k <= |image|
  {
    if k == 0 then []
    else if !Repeats(image, k - 1) then
      Dumped(layout, image, k - 1) + [RowText(layout, 16 * (k - 1), RowAt(image, k - 1))]
    else if Repeats(image, k - 2) then Dumped(layout, image, k - 1)
    else Dumped(layout, image, k - 1) + ["*"]
  }

  function Dump(layout: Layout, image: seq<Byte>): seq<string>
    requires Image(image)
  {
    Dumped(layout, image, |image| / 16) + [Digits(|image|, layout.digits)]
  }

  // ---- A printed line is recognised as what it is ------------------------------------------------------------

  predicate HexCell(cell: string, width: nat) {
    |cell| == width && All(IsHex, cell, 0, width)
  }

  predicate HexCells(cells: seq<string>, width: nat) {
    forall i :: 0 <= i < |cells| ==> HexCell(cells[i], width)
  }

  /** What s has from `at` on. */
  predicate Follows(s: string, at: nat, cell: string, rest: string) {
    at + |cell| <= |s| && s[at..at + |cell|] == cell && s[at + |cell|..] == rest
  }

  lemma Following(s: string, at: nat, a: string, b: string)
    requires at <= |s| && s[at..] == a + b
    ensures Follows(s, at, a, b) && forall k :: 0 <= k < |a| ==> s[at + k] == a[k]
  {
    assert s[at..][..|a|] == a && s[at..][|a|..] == b;
    forall k | 0 <= k < |a| ensures s[at + k] == a[k] {
      assert s[at..][k] == (a + b)[k];
    }
  }

  lemma {:induction false} TokensSkip(s: string, from: nat, at: nat, end: nat)
    requires from <= at <= end <= |s| && All(IsBlank, s, from, at)
    ensures Tokens(s, from, end) == Tokens(s, at, end)
    decreases at - from
  {
    if from < at {
      TokensSkip(s, from + 1, at, end);
    }
  }

  lemma CellScanned(s: string, at: nat, cell: string, next: nat, width: nat)
    requires at + width <= next <= |s| && width > 0 && HexCell(cell, width) && s[at..at + width] == cell
    requires All(IsBlank, s, at + width, next) && (next < |s| ==> !IsBlank(s[next]))
    ensures Group(s, at, width) == Some(next)
  {
    forall k | at <= k < at + width ensures IsHex(s[k]) { assert s[k] == cell[k - at]; }
    RunIs(IsBlank, s, at + width, |s|, next);
  }

  lemma CellToken(s: string, at: nat, cell: string, next: nat, end: nat, width: nat)
    requires at + width <= next <= end <= |s| && width > 0 && HexCell(cell, width) && s[at..at + width] == cell
    requires All(IsBlank, s, at + width, next) && (at + width < next || next == end)
    ensures Tokens(s, at, end) == [cell] + Tokens(s, next, end)
  {
    forall k | at <= k < at + width ensures IsHex(s[k]) { assert s[k] == cell[k - at]; }
    RunIs(IsInk, s, at, end, at + width);
    TokensSkip(s, at + width, next, end);
  }

  /** The patterns find the cells at `at`, with the blanks that follow them. */
  predicate Scanned(s: string, at: nat, cells: seq<string>, width: nat, end: nat)
    requires width > 0
  {
    && at < end <= |s| && IsHex(s[at])
    && Groups(s, at, width, |cells|) == Some(end) && Tokens(s, at, end) == cells
  }

  lemma LastCell(s: string, at: nat, cell: string, tail: string, width: nat) returns (end: nat)
    requires width > 0 && HexCell(cell, width) && at <= |s| && s[at..] == cell + tail
    ensures Scanned(s, at, [cell], width, end)
  {
    Following(s, at, cell, tail);
    end := Run(IsBlank, s, at + width, |s|);
    CellScanned(s, at, cell, end, width);
    CellToken(s, at, cell, end, end, width);
  }

  lemma CellAndGap(s: string, at: nat, cell: string, gap: string, more: string)
    requires cell != "" && All(IsHex, cell, 0, |cell|) && Blanks(gap) && at <= |s| && s[at..] == cell + (gap + more)
    ensures var c := at + |cell|;
      c < c + |gap| <= |s| && s[at..c] == cell && IsHex(s[at]) && All(IsBlank, s, c, c + |gap|) && s[c + |gap|..] == more
  {
    Following(s, at, cell, gap + more);
    Following(s, at + |cell|, gap, more);
  }

  /** A cell that more cells follow. */
  lemma CellBefore(s: string, at: nat, cell: string, next: nat, rest: seq<string>, width: nat, end: nat)
    requires width > 0 && HexCell(cell, width) && at + width < next <= |s| && s[at..at + width] == cell && IsHex(s[at])
    requires All(IsBlank, s, at + width, next) && Scanned(s, next, rest, width, end)
    ensures Scanned(s, at, [cell] + rest, width, end)
  {
    CellScanned(s, at, cell, next, width);
    CellToken(s, at, cell, next, end, width);
  }

  lemma FirstCell(cells: seq<string>, width: nat)
    requires cells != [] && HexCells(cells, width)
    ensures HexCell(cells[0], width) && HexCells(cells[1..], width) && cells == [cells[0]] + cells[1..]
  {
  }

  /** Behind the cells and the blanks that follow them. */
  lemma {:induction false} CellsScanned(s: string, at: nat, cells: seq<string>, gap: nat -> string, i: nat, tail: string, width: nat)
    returns (end: nat)
    requires Gaps(gap) && width > 0 && cells != [] && HexCells(cells, width)
    requires at <= |s| && s[at..] == CellsText(cells, gap, i, tail)
    ensures Scanned(s, at, cells, width, end)
    decreases |cells|
  {
    var cell, rest := cells[0], cells[1..];
    FirstCell(cells, width);
    assert Blanks(gap(i));
    if rest == [] {
      end := LastCell(s, at, cell, tail, width);
    } else {
      var more := CellsText(rest, gap, i + 1, tail);
      var next := at + width + |gap(i)|;
      CellAndGap(s, at, cell, gap(i), more);
      end := CellsScanned(s, next, rest, gap, i + 1, tail, width);
      CellBefore(s, at, cell, next, rest, width, end);
    }
  }

  /** Bytes with blanks between them are not taken for words. */
  lemma NoWords(s: string, at: nat, cells: seq<string>, gap: nat -> string, tail: string)
    requires Gaps(gap) && |cells| > 1 && HexCells(cells, 2)
    requires at <= |s| && s[at..] == CellsText(cells, gap, 0, tail)
    ensures Groups(s, at, 4, 8) == None
  {
    var cell := cells[0];
    assert HexCell(cell, 2) && Blanks(gap(0));
    Following(s, at, cell, gap(0) + CellsText(cells[1..], gap, 1, tail));
    Following(s, at + 2, gap(0), CellsText(cells[1..], gap, 1, tail));
    assert s[at] == cell[0] && s[at + 2] == gap(0)[0];
  }

  lemma CellsAreHex(style: Style, row: seq<Byte>)
    requires |row| == 16
    ensures HexCells(Cells(style, row), if style.ByteCells? then 2 else 4)
    ensures |Cells(style, row)| == if style.ByteCells? then 16 else 8
  {
  }

  lemma PrintedCells(s: string, at: nat, style: Style, row: seq<Byte>, gap: nat -> string, tail: string) returns (end: nat)
    requires |row| == 16 && Gaps(gap) && at <= |s| && s[at..] == CellsText(Cells(style, row), gap, 0, tail)
    ensures at < end <= |s| && CellsEnd(s, at) == Some(end) && Tokens(s, at, end) == Cells(style, row) && IsHex(s[at])
  {
    var cells := Cells(style, row);
    CellsAreHex(style, row);
    end := CellsScanned(s, at, cells, gap, 0, tail, if style.ByteCells? then 2 else 4);
    if style.ByteCells? {
      NoWords(s, at, cells, gap, tail);
    }
  }

  lemma Concat4<T>(a: seq<T>, b: seq<T>, c: seq<T>, d: seq<T>)
    ensures var s := a + b + c + d;
      s[..|a|] == a && s[|a|..|a + b|] == b && s[|a + b|..|a + b + c|] == c && s[|a + b + c|..] == d
  {
  }

  lemma NoStart(s: string, k: nat)
    requires k < 5 && k < |s| && s[k] != if k == 4 then ' ' else '0'
    ensures !HasStart(s)
  {
    assert "0000 "[k] == if k == 4 then ' ' else '0';
  }

  /** The address, and where the cells start. */
  lemma HeadScanned(s: string, addr: string, colon: string, margin: string, cells: string)
    requires 2 <= |addr| <= 8 && All(IsHex, addr, 0, |addr|) && (colon == "" || colon == ":") && Blanks(margin)
    requires |addr| == 4 ==> colon != "" || margin[0] != ' '
    requires s == addr + colon + margin + cells && cells != "" && IsHex(cells[0])
    ensures var c, at := |addr| + |colon|, |addr| + |colon| + |margin|;
      Run(IsHex, s, 0, |s|) == |addr| && Colon(s, |addr|) == c < at && Run(IsBlank, s, c, |s|) == at
    ensures s[..|addr|] == addr && !HasStart(s) && s != "*"
  {
    var c, at := |addr| + |colon|, |addr| + |colon| + |margin|;
    Concat4(addr, colon, margin, cells);
    assert forall k :: 0 <= k < |addr| ==> s[k] == addr[k];
    assert forall k :: c <= k < at ==> s[k] == margin[k - c];
    AddressEnds(s, 0, |addr|, c, at);
    assert colon == ":" ==> s[|addr|] == ':';
    NoStart(s, if |addr| < 5 then |addr| else 4);
  }

  lemma RowRecognised(layout: Layout, addr: nat, row: seq<Byte>)
    requires Spaced(layout) && |row| == 16
    ensures Recognise(RowText(layout, addr, row)) == Row(Digits(addr, layout.digits), Cells(layout.style, row))
  {
    var digits, colon, margin := Digits(addr, layout.digits), if layout.colon then ":" else "", layout.margin;
    var cells := CellsText(Cells(layout.style, row), layout.gap, 0, layout.tail(row));
    var s := RowText(layout, addr, row);
    Concat4(digits, colon, margin, cells);
    var at := layout.digits + |colon| + |margin|;
    var end := PrintedCells(s, at, layout.style, row, layout.gap, layout.tail(row));
    assert cells[0] == s[at];
    HeadScanned(s, digits, colon, margin, cells);
    RowFound(s, layout.digits, at, end);
  }

  lemma RowFound(s: string, n: nat, at: nat, end: nat)
    requires s != "*" && !HasStart(s) && at <= end <= |s| && 2 <= n <= 8 && Run(IsHex, s, 0, |s|) == n
    requires Colon(s, n) < at && Run(IsBlank, s, Colon(s, n), |s|) == at && CellsEnd(s, at) == Some(end)
    ensures Recognise(s) == Row(s[..n], Tokens(s, at, end))
  {
  }

  lemma ClosingRecognised(n: nat, width: nat)
    requires 2 <= width <= 8
    ensures Recognise(Digits(n, width)) == Closing(Digits(n, width))
  {
    var s := Digits(n, width);
    RunIs(IsHex, s, 0, width, width);
    if width >= 5 { NoStart(s, 4); }
    assert s[..width] == s;
  }

  // ---- Reading a dump back ---------------------------------------------------------------------------------

  function Known(b: seq<Byte>): (r: seq<Option<nat>>)
    ensures |r| == |b|
  {
    seq(|b|, i requires 0 <= i < |b| => Some(b[i] as nat))
  }

  /** How many rows a dump of k rows shows before its last run of repeats. */
  function Shown(image: seq<Byte>, k: nat): (p: nat)
    requires 16 * k <= |image|
    ensures p <= k && (k > 0 ==> p > 0)
  {
    if k == 0 then 0 else if Repeats(image, k - 1) then Shown(image, k - 1) else k
  }

  lemma {:induction false} RunOfRows(image: seq<Byte>, k: nat, j: nat)
    requires 16 * k <= |image| && Shown(image, k) <= j < k
    ensures Shown(image, k) > 0 && RowAt(image, j) == RowAt(image, Shown(image, k) - 1)
  {
    if j < k - 1 {
      RunOfRows(image, k - 1, j);
    } else if Shown(image, k - 1) <= k - 2 {
      RunOfRows(image, k - 1, k - 2);
    }
  }

  lemma InRow(image: seq<Byte>, i: nat)
    requires |image| % 16 == 0 && i < |image|
    ensures 16 * (i / 16) + 16 <= |image| && image[i] == RowAt(image, i / 16)[i % 16]
  {
  }

  lemma WholeCopies(p: nat, k: nat, i: nat)
    requires 0 < p && 16 * p <= i < 16 * k
    ensures (16 * k - 16 * p) / 16 * 16 == 16 * k - 16 * p
    ensures (i - 16 * p) % 16 == i % 16
    ensures p <= i / 16 < k
  {
  }

  /** Byte i of the rows left out is the byte above it in the last row shown. */
  lemma ByteAbove(image: seq<Byte>, k: nat, i: nat)
    requires |image| % 16 == 0 && 16 * k <= |image| && 16 * Shown(image, k) <= i < 16 * k
    ensures Shown(image, k) > 0 && image[i] == image[16 * (Shown(image, k) - 1) + i % 16]
  {
    var p := Shown(image, k);
    WholeCopies(p, k, i);
    InRow(image, i);
    RunOfRows(image, k, i / 16);
    assert image[16 * (p - 1) + i % 16] == RowAt(image, p - 1)[i % 16];
  }

  lemma ExpandAt(bytes: seq<Option<nat>>, p: nat, k: nat, i: nat)
    requires |bytes| == 16 * p && 0 < p <= k && i < 16 * k
    ensures |Expand(bytes, 16 * p, 16 * k)| == 16 * k
    ensures Expand(bytes, 16 * p, 16 * k)[i] == if i < 16 * p then bytes[i] else bytes[16 * (p - 1) + i % 16]
  {
    if i >= 16 * p {
      WholeCopies(p, k, i);
      assert Expand(bytes, 16 * p, 16 * k)[i] == Repeated(bytes, 16 * p, i - 16 * p);
    }
  }

  /** Expanding a run puts back the rows that were left out. */
  lemma ExpandRun(image: seq<Byte>, k: nat)
    requires |image| % 16 == 0 && 16 * k <= |image| && k > 0
    ensures var p := Shown(image, k); Expand(Known(image[..16 * p]), 16 * p, 16 * k) == Known(image[..16 * k])
  {
    var p := Shown(image, k);
    var bytes := Known(image[..16 * p]);
    ExpandAt(bytes, p, k, 0);
    forall i | 0 <= i < 16 * k ensures Expand(bytes, 16 * p, 16 * k)[i] == Known(image[..16 * k])[i] {
      ExpandAt(bytes, p, k, i);
      if i >= 16 * p { ByteAbove(image, k, i); }
    }
  }

  function Larger(a: nat, b: nat): nat {
    if a < b then b else a
  }

  /** r is b with the row in place of what it had from `at` on; in a gap before the row there is nothing. */
  ghost predicate Overlaid(b: seq<Option<nat>>, at: nat, row: seq<Byte>, r: seq<Option<nat>>) {
    && |r| == Larger(|b|, if row == [] then 0 else at + |row|)
    && forall x :: 0 <= x < |r| ==>
         r[x] == if at <= x < at + |row| then Some(row[x - at] as nat) else if x < |b| then b[x] else None
  }

  lemma OverlaidTwice(b: seq<Option<nat>>, at: nat, first: seq<Byte>, c: seq<Option<nat>>, rest: seq<Byte>, r: seq<Option<nat>>)
    requires first != [] && Overlaid(b, at, first, c) && Overlaid(c, at + |first|, rest, r)
    ensures Overlaid(b, at, first + rest, r)
  {
  }

  lemma OnePut(b: seq<Option<nat>>, at: nat, v: Byte)
    ensures Overlaid(b, at, [v], Put(b, at, v))
  {
  }

  /** A cell of two digits sets one byte. */
  lemma CellRead(order: Order, b: seq<Option<nat>>, at: nat, v: Byte)
    ensures Overlaid(b, at, [v], PutCell(order, b, at, Digits(v, 2)))
  {
    assert Power16(2) == 0x100;
    HexOfDigits(v, 2);
    OnePut(b, at, v);
  }

  lemma TwoDigits(n: nat)
    ensures Digits(n, 2) == [Digit(n / 16 % 16), Digit(n % 16)]
  {
    assert Digits(n / 16, 1) == Digits(n / 16 / 16, 0) + [Digit(n / 16 % 16)];
  }

  lemma SixteenTwice(n: nat)
    ensures n / 16 / 16 == n / 0x100 && n % 0x100 / 16 % 16 == n / 16 % 16 && n % 0x100 % 16 == n % 16
  {
  }

  lemma LastDigits(n: nat, width: nat)
    ensures Digits(n, width + 2) == Digits(n / 0x100, width) + Digits(n % 0x100, 2)
  {
    SixteenTwice(n);
    TwoDigits(n % 0x100);
    assert Digits(n, width + 2) == Digits(n / 16, width + 1) + [Digit(n % 16)];
    assert Digits(n / 16, width + 1) == Digits(n / 16 / 16, width) + [Digit(n / 16 % 16)];
  }

  lemma HexHalves(n: nat)
    requires n < 0x10000
    ensures Hex(Digits(n, 4)[..2]) == n / 0x100 && Hex(Digits(n, 4)[2..]) == n % 0x100
  {
    LastDigits(n, 2);
    assert Power16(2) == 0x100;
    HexOfDigits(n / 0x100, 2);
    HexOfDigits(n % 0x100, 2);
  }

  lemma Halves(low: Byte, high: Byte)
    ensures (low + 0x100 * high) / 0x100 == high && (low + 0x100 * high) % 0x100 == low && low + 0x100 * high < 0x10000
  {
  }

  lemma TwoPut(b: seq<Option<nat>>, at: nat, first: Byte, second: Byte)
    ensures Overlaid(b, at, [first, second], Put(Put(b, at, first), at + 1, second))
  {
    OnePut(b, at, first);
    OnePut(Put(b, at, first), at + 1, second);
    OverlaidTwice(b, at, [first], Put(b, at, first), [second], Put(Put(b, at, first), at + 1, second));
    assert [first] + [second] == [first, second];
  }

  lemma WordPut(order: Order, b: seq<Option<nat>>, at: nat, first: Byte, second: Byte)
    ensures PutCell(order, b, at, Word(order, first, second)) == Put(Put(b, at, first), at + 1, second)
  {
    if order.LittleEndian? {
      Halves(first, second);
      HexHalves(first + 0x100 * second);
    } else {
      Halves(second, first);
      HexHalves(0x100 * first + second);
    }
  }

  /** A cell of four digits sets two, the low byte of its value first or second. */
  lemma WordRead(order: Order, b: seq<Option<nat>>, at: nat, first: Byte, second: Byte)
    ensures Overlaid(b, at, [first, second], PutCell(order, b, at, Word(order, first, second)))
  {
    TwoPut(b, at, first, second);
    WordPut(order, b, at, first, second);
  }

  /** The style that the reader's choice of order understands. */
  predicate Readable(order: Order, style: Style) {
    style.ByteCells? || style.order == order
  }

  /** The cells are read as these bytes. */
  ghost predicate ReadAs(order: Order, b: seq<Option<nat>>, at: nat, cells: seq<string>, row: seq<Byte>) {
    var (r, end) := PutCells(order, b, at, cells);
    end == at + |row| && Overlaid(b, at, row, r)
  }

  lemma FirstCellRead(order: Order, b: seq<Option<nat>>, at: nat, cells: seq<string>, first: seq<Byte>, rest: seq<Byte>)
    requires cells != [] && first != [] && CellWidth(cells[0]) == |first|
    requires Overlaid(b, at, first, PutCell(order, b, at, cells[0]))
    requires ReadAs(order, PutCell(order, b, at, cells[0]), at + |first|, cells[1..], rest)
    ensures ReadAs(order, b, at, cells, first + rest)
  {
    var c := PutCell(order, b, at, cells[0]);
    OverlaidTwice(b, at, first, c, rest, PutCells(order, c, at + |first|, cells[1..]).0);
  }

  lemma {:induction false} BytesRead(order: Order, b: seq<Option<nat>>, at: nat, row: seq<Byte>)
    ensures ReadAs(order, b, at, Bytewise(row), row)
    decreases |row|
  {
    if row != [] {
      var v, rest, cells := row[0], row[1..], Bytewise(row);
      CellRead(order, b, at, v);
      BytesRead(order, PutCell(order, b, at, cells[0]), at + 1, rest);
      assert cells[1..] == Bytewise(rest);
      FirstCellRead(order, b, at, cells, [v], rest);
      assert row == [v] + rest;
    }
  }

  lemma SplitTwo<T>(s: seq<T>)
    requires |s| >= 2
    ensures s == [s[0], s[1]] + s[2..]
  {
  }

  lemma {:induction false} WordsRead(order: Order, b: seq<Option<nat>>, at: nat, row: seq<Byte>)
    requires |row| % 2 == 0
    ensures ReadAs(order, b, at, Wordwise(order, row), row)
    decreases |row|
  {
    if row != [] {
      var cells := Wordwise(order, row);
      WordsTail(order, row);
      WordRead(order, b, at, row[0], row[1]);
      WordsRead(order, PutCell(order, b, at, cells[0]), at + 2, row[2..]);
      FirstCellRead(order, b, at, cells, [row[0], row[1]], row[2..]);
      SplitTwo(row);
    }
  }

  lemma WordsTail(order: Order, row: seq<Byte>)
    requires |row| % 2 == 0 && row != []
    ensures Wordwise(order, row)[0] == Word(order, row[0], row[1])
    ensures Wordwise(order, row)[1..] == Wordwise(order, row[2..])
  {
    var rest := row[2..];
    forall i | 0 <= i < |rest| / 2 ensures Wordwise(order, row)[i + 1] == Wordwise(order, rest)[i] {
      assert row[2 * (i + 1)] == rest[2 * i] && row[2 * (i + 1) + 1] == rest[2 * i + 1];
    }
  }

  lemma CellsRead(order: Order, style: Style, b: seq<Option<nat>>, at: nat, row: seq<Byte>)
    requires Readable(order, style) && |row| % 2 == 0
    ensures ReadAs(order, b, at, Cells(style, row), row)
  {
    if style.ByteCells? { BytesRead(order, b, at, row); } else { WordsRead(order, b, at, row); }
  }

  lemma OverlaidKnown(before: seq<Byte>, row: seq<Byte>, r: seq<Option<nat>>)
    requires Overlaid(Known(before), |before|, row, r)
    ensures r == Known(before + row)
  {
  }

  /** Where the reader is after the lines of the first k rows. */
  function After(image: seq<Byte>, k: nat): State
    requires 16 * k <= |image|
  {
    var p := Shown(image, k);
    State(16 * p, if p < k then 16 * p else 0, Known(image[..16 * p]), k == 0, Running)
  }

  lemma ReachRow(image: seq<Byte>, k: nat)
    requires Image(image) && 16 * k <= |image|
    ensures At(After(image, k), 16 * k) == State(16 * k, 0, Known(image[..16 * k]), false, Running)
  {
    if Shown(image, k) < k {
      ExpandRun(image, k);
    }
  }

  lemma RowTurn(order: Order, style: Style, width: nat, s: State, n: nat, bytes: seq<Byte>, row: seq<Byte>)
    requires Readable(order, style) && |row| % 2 == 0
    requires n < Power16(width) && s.outcome.Running? && At(s, n) == State(n, 0, Known(bytes), false, Running) && |bytes| == n
    ensures Turn(order, s, Row(Digits(n, width), Cells(style, row))) == State(n + |row|, 0, Known(bytes + row), false, Running)
  {
    HexOfDigits(n, width);
    CellsRead(order, style, Known(bytes), n, row);
    OverlaidKnown(bytes, row, PutCells(order, Known(bytes), n, Cells(style, row)).0);
  }

  /** The reader was told the order of the words, and the addresses have digits enough. */
  ghost predicate Fits(order: Order, layout: Layout, image: seq<Byte>) {
    Spaced(layout) && Readable(order, layout.style) && Image(image) && |image| < Power16(layout.digits)
  }

  lemma AfterRow(image: seq<Byte>, k: nat)
    requires 16 * k + 16 <= |image| && !Repeats(image, k)
    ensures After(image, k + 1) == State(16 * k + 16, 0, Known(image[..16 * k] + RowAt(image, k)), false, Running)
  {
    assert image[..16 * k] + RowAt(image, k) == image[..16 * (k + 1)];
  }

  lemma NextRow(order: Order, layout: Layout, image: seq<Byte>, k: nat)
    requires Fits(order, layout, image) && 16 * k + 16 <= |image| && !Repeats(image, k)
    ensures Turn(order, After(image, k), Recognise(RowText(layout, 16 * k, RowAt(image, k)))) == After(image, k + 1)
  {
    ReachRow(image, k);
    AfterRow(image, k);
    RowRecognised(layout, 16 * k, RowAt(image, k));
    RowTurn(order, layout.style, layout.digits, After(image, k), 16 * k, image[..16 * k], RowAt(image, k));
  }

  lemma LastTurn(order: Order, before: seq<string>, line: string)
    ensures Turns(order, START, before + [line]) == Turn(order, Turns(order, START, before), Recognise(line))
  {
    assert (before + [line])[..|before|] == before;
  }

  lemma AddRow(order: Order, layout: Layout, image: seq<Byte>, k: nat, before: seq<string>)
    requires Fits(order, layout, image) && 16 * k + 16 <= |image| && !Repeats(image, k)
    requires Turns(order, START, before) == After(image, k)
    ensures Turns(order, START, before + [RowText(layout, 16 * k, RowAt(image, k))]) == After(image, k + 1)
  {
    NextRow(order, layout, image, k);
    LastTurn(order, before, RowText(layout, 16 * k, RowAt(image, k)));
  }

  lemma AddStar(order: Order, image: seq<Byte>, k: nat, before: seq<string>)
    requires 0 < k && 16 * k + 16 <= |image| && Repeats(image, k) && !Repeats(image, k - 1)
    requires Turns(order, START, before) == After(image, k)
    ensures Turns(order, START, before + ["*"]) == After(image, k + 1)
  {
    LastTurn(order, before, "*");
  }

  lemma {:induction false} RowsRead(order: Order, layout: Layout, image: seq<Byte>, k: nat)
    requires Fits(order, layout, image) && 16 * k <= |image|
    ensures Turns(order, START, Dumped(layout, image, k)) == After(image, k)
  {
    if k > 0 {
      RowsRead(order, layout, image, k - 1);
      var before := Dumped(layout, image, k - 1);
      if !Repeats(image, k - 1) {
        AddRow(order, layout, image, k - 1, before);
      } else if !Repeats(image, k - 2) {
        AddStar(order, image, k - 1, before);
      }
    }
  }

  /** The reader undoes the squeezing: it finds the image, whatever rows repeat, from a dump of bytes and
      from one of words in the order it was told. */
  lemma DumpReadsBack(order: Order, layout: Layout, image: seq<Byte>)
    requires Fits(order, layout, image)
    ensures Result(Turns(order, START, Dump(layout, image))) == Some(Known(image))
  {
    var n := |image| / 16;
    RowsRead(order, layout, image, n);
    HexOfDigits(|image|, layout.digits);
    ReachRow(image, n);
    ClosingRecognised(|image|, layout.digits);
    LastTurn(order, Dumped(layout, image, n), Digits(|image|, layout.digits));
    assert image[..16 * n] == image;
  }
}
