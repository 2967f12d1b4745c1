/** What the hexdump reader makes of lines that are no squeezed dump: lines it cannot parse, and rows anywhere. */
module HexLines {
  import opened Bytes
  import opened HexText
  import opened HexDump

  // ---- Lines that cannot be parsed --------------------------------------------------------------------------

  /** One of the two patterns matches. */
  ghost predicate HasAddress(line: string) {
    line != "*" && (IsRow(line) || IsClosing(line))
  }

  /** The line ends the dump: an address and nothing else. */
  ghost predicate Closes(line: string) {
    line != "*" && !IsRow(line) && IsClosing(line)
  }

  ghost predicate Garbage(line: string) {
    line != "*" && !IsRow(line) && !IsClosing(line)
  }

  lemma Recognised(line: string)
    ensures var l := Recognise(line);
      && (l.Star? <==> line == "*") && (l.Other? <==> Garbage(line)) && (l.Closing? <==> Closes(line))
      && (l.Row? || l.Closing? <==> HasAddress(line))
  {
    RowPatternDecided(line);
    ClosingPatternDecided(line);
  }

  ghost predicate Headless(lines: seq<string>) {
    forall i :: 0 <= i < |lines| ==> !HasAddress(lines[i])
  }

  /** Line j cannot be parsed, comes after a line with an address, and before any that closes. */
  ghost predicate DiesAt(lines: seq<string>, j: nat) {
    && j < |lines| && Garbage(lines[j])
    && (exists i :: 0 <= i < j && HasAddress(lines[i])) && (forall k :: 0 <= k < j ==> !Closes(lines[k]))
  }

  ghost predicate Dies(lines: seq<string>) {
    exists j: nat :: DiesAt(lines, j)
  }

  ghost predicate IsClosed(lines: seq<string>) {
    exists k :: 0 <= k < |lines| && Closes(lines[k])
  }

  lemma Longer(lines: seq<string>, line: string)
    ensures var more := lines + [line];
      && (Headless(more) <==> Headless(lines) && !HasAddress(line))
      && (IsClosed(more) <==> IsClosed(lines) || Closes(line))
      && (Dies(more) <==> Dies(lines) || (Garbage(line) && !Headless(lines) && !IsClosed(lines)))
  {
    var more := lines + [line];
    assert forall i :: 0 <= i < |lines| ==> more[i] == lines[i];
    assert more[|lines|] == line;
    if j: nat :| DiesAt(lines, j) { assert DiesAt(more, j); }
    if j: nat :| DiesAt(more, j) { if j < |lines| { assert DiesAt(lines, j); } }
    if Garbage(line) && !Headless(lines) && !IsClosed(lines) { assert DiesAt(more, |lines|); }
  }

  /** How the reader stands after these lines. */
  ghost predicate Stands(s: State, lines: seq<string>) {
    && (s.header <==> Headless(lines))
    && (s.outcome.Died? <==> Dies(lines))
    && (s.outcome.Stopped? <==> !Dies(lines) && IsClosed(lines))
  }

  lemma StandsNext(order: Order, s: State, lines: seq<string>, line: string)
    requires Stands(s, lines)
    ensures Stands(Turn(order, s, Recognise(line)), lines + [line])
  {
    Recognised(line);
    Longer(lines, line);
    ClosedHasAddress(lines);
  }

  lemma ClosedHasAddress(lines: seq<string>)
    ensures IsClosed(lines) || Dies(lines) ==> !Headless(lines)
  {
  }

  lemma {:induction false} StandsAfter(order: Order, lines: seq<string>)
    ensures Stands(Turns(order, START, lines), lines)
  {
    if lines != [] {
      var n := |lines| - 1;
      assert lines == lines[..n] + [lines[n]];
      StandsAfter(order, lines[..n]);
      StandsNext(order, Turns(order, START, lines[..n]), lines[..n], lines[n]);
    }
  }

  /** The script dies on exactly the inputs without any address, and those with a line that it cannot parse behind
      one with an address and before any that closes the dump. */
  lemma WhenDies(order: Order, lines: seq<string>)
    ensures Result(Turns(order, START, lines)) == None <==> Headless(lines) || Dies(lines)
  {
    StandsAfter(order, lines);
  }

  lemma {:induction false} TurnsConcat(order: Order, s: State, a: seq<string>, b: seq<string>)
    ensures Turns(order, s, a + b) == Turns(order, Turns(order, s, a), b)
    decreases |b|
  {
    if b == [] {
      assert a + b == a;
    } else {
      var n := |b| - 1;
      TurnsConcat(order, s, a, b[..n]);
      assert (a + b)[..|a + b| - 1] == a + b[..n];
    }
  }

  lemma {:induction false} NothingRead(order: Order, leading: seq<string>)
    requires Headless(leading)
    ensures Turns(order, START, leading) == START
  {
    if leading != [] {
      var n := |leading| - 1;
      NothingRead(order, leading[..n]);
      Recognised(leading[n]);
    }
  }

  /** A dump is read back whatever lines come before it, as long as none of them has an address. */
  lemma LeadingSkipped(order: Order, layout: Layout, image: seq<Byte>, leading: seq<string>)
    requires Fits(order, layout, image) && Headless(leading)
    ensures Result(Turns(order, START, leading + Dump(layout, image))) == Some(Known(image))
  {
    NothingRead(order, leading);
    TurnsConcat(order, START, leading, Dump(layout, image));
    DumpReadsBack(order, layout, image);
  }

  /** No line has an address that starts with no digit. */
  lemma TextSkipped(order: Order, layout: Layout, image: seq<Byte>, leading: seq<string>)
    requires Fits(order, layout, image)
    requires forall i :: 0 <= i < |leading| ==> leading[i] == "" || !IsHex(leading[i][0])
    ensures Result(Turns(order, START, leading + Dump(layout, image))) == Some(Known(image))
  {
    forall i | 0 <= i < |leading| ensures !HasAddress(leading[i]) { NoDigitFirst(leading[i]); }
    LeadingSkipped(order, layout, image, leading);
  }

  // ---- Rows anywhere -----------------------------------------------------------------------------------------

  /** A row and its address. */
  datatype Placed = Placed(addr: nat, row: seq<Byte>)

  /** A row that can be printed so. */
  ghost predicate Printable(order: Order, layout: Layout, p: Placed) {
    Spaced(layout) && Readable(order, layout.style) && |p.row| == 16 && p.addr < Power16(layout.digits)
  }

  ghost predicate AllPrintable(order: Order, layout: Layout, rows: seq<Placed>) {
    forall i :: 0 <= i < |rows| ==> Printable(order, layout, rows[i])
  }

  ghost function Lines(order: Order, layout: Layout, rows: seq<Placed>): (lines: seq<string>)
    requires AllPrintable(order, layout, rows)
    ensures |lines| == |rows|
  {
    seq(|rows|, i requires 0 <= i < |rows| => RowText(layout, rows[i].addr, rows[i].row))
  }

  predicate Covers(p: Placed, x: nat) {
    p.addr <= x < p.addr + |p.row|
  }

  /** The bytes found: up to the end of the furthest row, each as the last row has it that covers it. */
  ghost predicate Laid(rows: seq<Placed>, b: seq<Option<nat>>) {
    && (forall i :: 0 <= i < |rows| ==> rows[i].addr + |rows[i].row| <= |b|)
    && (b != [] ==> exists i :: 0 <= i < |rows| && rows[i].addr + |rows[i].row| == |b|)
    && (forall i, x: nat :: 0 <= i < |rows| && Covers(rows[i], x) && (forall j :: i < j < |rows| ==> !Covers(rows[j], x)) ==>
          b[x] == Some(rows[i].row[x - rows[i].addr] as nat))
    && (forall x: nat :: x < |b| && (forall i :: 0 <= i < |rows| ==> !Covers(rows[i], x)) ==> b[x] == None)
  }

  lemma LaidNext(rows: seq<Placed>, p: Placed, b: seq<Option<nat>>, c: seq<Option<nat>>)
    requires Laid(rows, b) && p.row != [] && Overlaid(b, p.addr, p.row, c)
    ensures Laid(rows + [p], c)
  {
    var more := rows + [p];
    assert forall i :: 0 <= i < |rows| ==> more[i] == rows[i];
    assert more[|rows|] == p;
    if |c| == |b| && b != [] {
      var i :| 0 <= i < |rows| && rows[i].addr + |rows[i].row| == |b|;
      assert more[i].addr + |more[i].row| == |c|;
    }
    forall i, x: nat | 0 <= i < |more| && Covers(more[i], x) && (forall j :: i < j < |more| ==> !Covers(more[j], x))
      ensures c[x] == Some(more[i].row[x - more[i].addr] as nat)
    {
      if i < |rows| { assert !Covers(more[|rows|], x); }
    }
    forall x: nat | x < |c| && (forall i :: 0 <= i < |more| ==> !Covers(more[i], x)) ensures c[x] == None {
      assert !Covers(more[|rows|], x);
    }
  }

  /** The reader between rows. */
  ghost predicate Reading(s: State, rows: seq<Placed>) {
    s.outcome.Running? && s.repstart == 0 && (s.header <==> rows == []) && Laid(rows, s.bytes)
  }

  lemma ReadRow(order: Order, layout: Layout, s: State, rows: seq<Placed>, p: Placed)
    requires Reading(s, rows) && Printable(order, layout, p)
    ensures Reading(Turn(order, s, Recognise(RowText(layout, p.addr, p.row))), rows + [p])
  {
    RowRecognised(layout, p.addr, p.row);
    HexOfDigits(p.addr, layout.digits);
    CellsRead(order, layout.style, s.bytes, p.addr, p.row);
    LaidNext(rows, p, s.bytes, PutCells(order, s.bytes, p.addr, Cells(layout.style, p.row)).0);
  }

  lemma ReadNext(order: Order, layout: Layout, rows: seq<Placed>, n: nat)
    requires AllPrintable(order, layout, rows) && n < |rows|
    requires Reading(Turns(order, START, Lines(order, layout, rows)[..n]), rows[..n])
    ensures Reading(Turns(order, START, Lines(order, layout, rows)[..n + 1]), rows[..n] + [rows[n]])
  {
    var lines := Lines(order, layout, rows);
    TurnsSnoc(order, lines, n);
    assert Printable(order, layout, rows[n]);
    ReadRow(order, layout, Turns(order, START, lines[..n]), rows[..n], rows[n]);
  }

  lemma OneMore<T>(s: seq<T>, n: nat)
    requires n < |s|
    ensures s[..n + 1] == s[..n] + [s[n]]
  {
  }

  lemma {:induction false} ReadRows(order: Order, layout: Layout, rows: seq<Placed>, n: nat)
    requires AllPrintable(order, layout, rows) && n <= |rows|
    ensures Reading(Turns(order, START, Lines(order, layout, rows)[..n]), rows[..n])
  {
    if n > 0 {
      ReadRows(order, layout, rows, n - 1);
      ReadNext(order, layout, rows, n - 1);
      OneMore(rows, n - 1);
    }
  }

  /** Rows at any addresses, in any order and as often as one likes: the reader finds every byte as the last row has it
      that covers it, and nothing where there is no row. */
  lemma RowsAnywhere(order: Order, layout: Layout, rows: seq<Placed>, leading: seq<string>)
    requires AllPrintable(order, layout, rows) && rows != [] && Headless(leading)
    ensures var result := Result(Turns(order, START, leading + Lines(order, layout, rows)));
      result.Some? && Laid(rows, result.value)
  {
    var lines := Lines(order, layout, rows);
    NothingRead(order, leading);
    TurnsConcat(order, START, leading, lines);
    ReadRows(order, layout, rows, |rows|);
    assert lines[..|rows|] == lines && rows[..|rows|] == rows;
  }
}
