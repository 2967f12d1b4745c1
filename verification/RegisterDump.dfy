/** Register dumps: what tools/i2cdump.c prints, and what stub/i2c-stub-from-dump makes of the text. */
module RegisterDump {
  import opened Bytes
  import opened HexText
  import opened Parts

  // ---- The printer --------------------------------------------------------------------------------------

  /** One cell of a dump: a register outside the range asked for, one that could not be read, or its value. */
  datatype Cell = Skipped | Failed | Value(value: nat)

  /** Rows of 16 bytes, or of 8 words. */
  datatype Mode = ByteRows | WordRows {
    function Columns(): nat {
      if ByteRows? then 16 else 8
    }

    /** Characters of a cell. */
    function Width(): nat {
      if ByteRows? then 2 else 4
    }

    /** The row a register is in. */
    function Row(register: nat): nat {
      if ByteRows? then register / 16 else register / 8
    }

    /** The register is the first of a row. */
    predicate Starts(register: nat) {
      if ByteRows? then register % 16 == 0 else register % 8 == 0
    }

    function Limit(): nat {
      if ByteRows? then 0x100 else 0x10000
    }
  }

  function Repeat(c: char, n: nat): (s: string)
    ensures |s| == n
  {
    seq(n, _ => c)
  }

  function CellText(mode: Mode, cell: Cell): (s: string)
    ensures |s| == mode.Width()
  {
    match cell
    case Skipped => Repeat(' ', mode.Width())
    case Failed => Repeat('X', mode.Width())
    case Value(v) => Digits(v, mode.Width())
  }

  /** Where cell j of a row starts, with the space before it. */
  function Start(mode: Mode, j: nat): nat {
    if mode.ByteRows? then 3 + 3 * j else 3 + 5 * j
  }

  function CellsText(mode: Mode, cells: seq<Cell>): (s: string)
    ensures |s| == Start(mode, |cells|) - 3
  {
    if cells == [] then "" else CellsText(mode, cells[..|cells| - 1]) + (" " + CellText(mode, cells[|cells| - 1]))
  }

  /** A printed row: the register of its first cell, the cells, and in a byte dump the characters. */
  function RowText(mode: Mode, base: nat, cells: seq<Cell>, tail: string): string {
    Digits(base, 2) + ":" + CellsText(mode, cells) + " " + tail
  }

  // ---- The patterns of process_dump -------------------------------------------------------------------------

  predicate LowerHex(c: char) {
    '0' <= c <= '9' || 'a' <= c <= 'f'
  }

  predicate HexOrX(c: char) {
    LowerHex(c) || c == 'X'
  }

  /** Cell j of a line; empty if the line is too short. */
  function CellAt(mode: Mode, line: string, j: nat): string {
    if Start(mode, j + 1) <= |line| then line[Start(mode, j) + 1..Start(mode, j + 1)] else ""
  }

  predicate CellMatches(mode: Mode, line: string, j: nat) {
    && Start(mode, j + 1) <= |line| && line[Start(mode, j)] == ' '
    && forall c :: c in CellAt(mode, line, j) ==> HexOrX(c)
  }

  /** m/^([0-9a-f]0):(( [0-9a-fX]{2}){16})/ or m/^([0-9a-f][08]):(( [0-9a-fX]{4}){8})/ */
  predicate Matches(mode: Mode, line: string) {
    && |line| >= 3 && LowerHex(line[0]) && line[2] == ':'
    && (line[1] == '0' || (mode.WordRows? && line[1] == '8'))
    && forall j :: 0 <= j < mode.Columns() ==> CellMatches(mode, line, j)
  }

  /** One i2cset command: a byte or a word, given in hex, to a register. */
  datatype Set = Set(mode: Mode, register: nat, hex: string)

  /** m/X/ */
  predicate Unread(val: string) {
    'X' in val
  }

  /** What the split at the spaces gives for a matching line. */
  function Values(mode: Mode, line: string): (values: seq<string>)
    ensures |values| == mode.Columns()
  {
    seq(mode.Columns(), j requires 0 <= j => CellAt(mode, line, j))
  }

  /** The command for one value, if it was read. */
  function ValueSet(mode: Mode, at: nat, value: string): seq<Set> {
    if Unread(value) then [] else [Set(mode, at, value)]
  }

  /** The commands for the values, the first of which is for register `at`. */
  function ValueSets(mode: Mode, at: nat, values: seq<string>): (parts: seq<seq<Set>>)
    ensures |parts| == |values|
  {
    seq(|values|, i requires 0 <= i < |values| => ValueSet(mode, at + i, values[i]))
  }

  function LineSets(line: string): seq<Set> {
    if Matches(ByteRows, line) then Flatten(ValueSets(ByteRows, Hex(line[..2]), Values(ByteRows, line)))
    else if Matches(WordRows, line) then Flatten(ValueSets(WordRows, Hex(line[..2]), Values(WordRows, line)))
    else []
  }

  /** The commands for each line. */
  function SetsByLine(lines: seq<string>): (parts: seq<seq<Set>>)
    ensures |parts| == |lines|
  {
    seq(|lines|, i requires 0 <= i < |lines| => LineSets(lines[i]))
  }

  function AllSets(lines: seq<string>): seq<Set> {
    Flatten(SetsByLine(lines))
  }

  /** The commands that are issued out of `all`, where the one with number `failing` fails and is the last. */
  function Issued<T>(all: seq<T>, failing: Option<nat>): seq<T> {
    if failing.Some? && failing.value < |all| then all[..failing.value + 1] else all
  }

  predicate Fails<T>(all: seq<T>, failing: Option<nat>) {
    failing.Some? && failing.value < |all|
  }

  function Later(failing: Option<nat>, n: nat): Option<nat> {
    if failing.Some? && failing.value >= n then Some(failing.value - n) else None
  }

  /** Issuing goes on after commands that did not fail, and stops in the ones that do. */
  lemma IssuedSplits<T>(a: seq<T>, b: seq<T>, failing: Option<nat>)
    ensures Fails(a, failing) ==> Fails(a + b, failing) && Issued(a + b, failing) == Issued(a, failing)
    ensures !Fails(a, failing) ==> Fails(a + b, failing) == Fails(b, Later(failing, |a|))
    ensures !Fails(a, failing) ==> Issued(a + b, failing) == a + Issued(b, Later(failing, |a|))
  {
  }

  /** The values of one matching line. */
  method ProcessLine(mode: Mode, offset: nat, values: seq<string>, failing: Option<nat>)
    returns (failed: bool, sets: seq<Set>)
    ensures var all := Flatten(ValueSets(mode, offset, values)); failed == Fails(all, failing) && sets == Issued(all, failing)
  {
    ghost var parts := ValueSets(mode, offset, values);
    FlattenStart(parts);
    sets := [];
    var i := 0;
    while i < |values|
      invariant 0 <= i <= |values| && !Fails(sets, failing)
      invariant Flatten(parts) == sets + Flatten(parts[i..])
    {
      var val := values[i];
      FlattenNext(parts, i, sets);
      assert parts[i] == ValueSet(mode, offset + i, val);
      if !Unread(val) {
        sets := sets + [Set(mode, offset + i, val)];
        IssuedSplits(sets, Flatten(parts[i + 1..]), failing);
        if failing == Some(|sets| - 1) {
          return true, sets;
        }
      }
      i := i + 1;
    }
    Whole(parts);
    NothingLeft(Flatten(parts), sets, Flatten(parts[i..]));
    failed := false;
  }

  /** process_dump, where the i2cset with number `failing` fails. */
  method ProcessDump(lines: seq<string>, failing: Option<nat>) returns (err: int, sets: seq<Set>)
    ensures sets == Issued(AllSets(lines), failing)
    ensures err == if Fails(AllSets(lines), failing) then 3 else if AllSets(lines) == [] then 1 else 0
  {
    sets := [];
    var n := 0;
    ghost var parts := SetsByLine(lines);
    FlattenStart(parts);
    while n < |lines|
      invariant 0 <= n <= |lines| && !Fails(sets, failing)
      invariant Flatten(parts) == sets + Flatten(parts[n..])
    {
      var line := lines[n];
      ghost var more, rest := parts[n], Flatten(parts[n + 1..]);
      FlattenNext(parts, n, sets);
      IssuedSplits(sets, more, failing);
      IssuedSplits(sets + more, rest, failing);
      if Matches(ByteRows, line) || Matches(WordRows, line) {
        var mode := if Matches(ByteRows, line) then ByteRows else WordRows;
        var failed, issued := ProcessLine(mode, Hex(line[..2]), Values(mode, line), Later(failing, |sets|));
        sets := sets + issued;
        if failed { return 3, sets; }
      }
      n := n + 1;
    }
    Whole(parts);
    NothingLeft(Flatten(parts), sets, Flatten(parts[n..]));
    err := if sets == [] then 1 else 0;
  }

  // ---- A printed row is read back ---------------------------------------------------------------------------

  predicate Complete(cells: seq<Cell>) {
    forall j :: 0 <= j < |cells| ==> !cells[j].Skipped?
  }

  lemma {:induction false} DigitsLower(n: nat, width: nat, i: nat)
    requires i < width
    ensures LowerHex(Digits(n, width)[i])
  {
    if i < width - 1 {
      DigitsLower(n / 16, width - 1, i);
    }
  }

  /** A cell's text consists of hex digits or X unless the cell was skipped, and has an X if it could not be read. */
  lemma CellChars(mode: Mode, cell: Cell)
    ensures (forall c :: c in CellText(mode, cell) ==> HexOrX(c)) <==> !cell.Skipped?
    ensures Unread(CellText(mode, cell)) <==> cell.Failed?
  {
    var s := CellText(mode, cell);
    match cell
    case Skipped => assert s[0] in s && !HexOrX(s[0]);
    case Failed => assert s[0] in s;
    case Value(v) =>
      forall i | 0 <= i < |s| ensures LowerHex(s[i]) { DigitsLower(v, mode.Width(), i); }
  }

  lemma MoreBehind<T>(a: seq<T>, rest: seq<T>, last: seq<T>) returns (more: seq<T>)
    ensures a + rest + last == a + more
  {
    more := rest + last;
    Assoc(a, rest, last);
  }

  lemma {:induction false} CellPlace(mode: Mode, cells: seq<Cell>, j: nat) returns (rest: string)
    requires j < |cells|
    ensures CellsText(mode, cells) == CellsText(mode, cells[..j]) + (" " + CellText(mode, cells[j])) + rest
  {
    var k := |cells| - 1;
    var last := " " + CellText(mode, cells[k]);
    if j < k {
      rest := CellPlace(mode, cells[..k], j);
      Prefix(cells, j, k);
      rest := MoreBehind(CellsText(mode, cells[..j]) + (" " + CellText(mode, cells[j])), rest, last);
    } else {
      rest := "";
      NothingAfter(CellsText(mode, cells[..k]) + last);
    }
  }

  lemma CellBehind(mode: Mode, head: string, cells: seq<Cell>, tail: string, j: nat)
    requires j < |cells| && |head| == 3
    ensures var line := head + CellsText(mode, cells) + " " + tail;
      Start(mode, j + 1) <= |line| && line[Start(mode, j)] == ' ' && CellAt(mode, line, j) == CellText(mode, cells[j])
  {
    var rest := CellPlace(mode, cells, j);
    var front, text := CellsText(mode, cells[..j]), CellText(mode, cells[j]);
    Middle(head, front, " " + text, rest, " ", tail);
    SecondOn(head + CellsText(mode, cells) + " " + tail, Start(mode, j), Start(mode, j + 1), ' ', text);
  }

  lemma CellInRow(mode: Mode, base: nat, cells: seq<Cell>, tail: string, j: nat)
    requires j < |cells|
    ensures var line := RowText(mode, base, cells, tail);
      Start(mode, j + 1) <= |line| && line[Start(mode, j)] == ' ' && CellAt(mode, line, j) == CellText(mode, cells[j])
  {
    CellBehind(mode, Digits(base, 2) + ":", cells, tail, j);
  }

  lemma SecondOn<T>(s: seq<T>, i: nat, j: nat, first: T, rest: seq<T>)
    requires i <= j <= |s| && s[i..j] == [first] + rest
    ensures i < |s| && s[i] == first && s[i + 1..j] == rest
  {
    assert s[i..j][0] == s[i] && s[i..j][1..] == s[i + 1..j];
  }

  /** Where a row may start. */
  predicate RowStart(mode: Mode, base: nat) {
    base < 0x100 && mode.Starts(base)
  }

  lemma HeadChars(mode: Mode, base: nat)
    requires RowStart(mode, base)
    ensures Hex(Digits(base, 2)) == base && LowerHex(Digits(base, 2)[0])
    ensures Digits(base, 2)[1] == '0' || (mode.WordRows? && Digits(base, 2)[1] == '8')
  {
    assert Power16(2) == 0x100;
    HexOfDigits(base, 2);
    DigitsLower(base, 2, 0);
    assert Digits(base, 2)[1] == Digit(base % 16);
  }

  /** A row of this mode matches its pattern if and only if none of its registers was skipped. */
  lemma MatchesOwn(mode: Mode, base: nat, cells: seq<Cell>, tail: string)
    requires RowStart(mode, base) && |cells| == mode.Columns()
    ensures Matches(mode, RowText(mode, base, cells, tail)) <==> Complete(cells)
  {
    var line := RowText(mode, base, cells, tail);
    HeadChars(mode, base);
    forall j | 0 <= j < |cells| ensures CellMatches(mode, line, j) <==> !cells[j].Skipped? {
      CellInRow(mode, base, cells, tail, j);
      CellChars(mode, cells[j]);
    }
  }

  lemma NotWords(line: string)
    requires |line| > 6 && line[6] == ' '
    ensures !CellMatches(WordRows, line, 0)
  {
    if |line| >= 8 {
      var cell := CellAt(WordRows, line, 0);
      assert cell[2] == line[6] && cell[2] in cell;
    }
  }

  lemma NotBytes(line: string)
    requires |line| > 6 && (line[6] == ' ' ==> line[4] == ' ')
    ensures !(CellMatches(ByteRows, line, 0) && CellMatches(ByteRows, line, 1))
  {
    if |line| >= 9 {
      var cell := CellAt(ByteRows, line, 0);
      assert cell[0] == line[4] && cell[0] in cell;
    }
  }

  lemma NoSpaceInside(cell: Cell)
    ensures CellText(WordRows, cell)[2] == ' ' ==> CellText(WordRows, cell)[0] == ' '
  {
    if cell.Value? { DigitsLower(cell.value, 4, 2); }
  }

  /** It never matches the other pattern: a byte row has a space where words go on, and a word row goes on
      where bytes have a space. */
  lemma MatchesNoOther(mode: Mode, base: nat, cells: seq<Cell>, tail: string)
    requires |cells| == mode.Columns()
    ensures !Matches(if mode.ByteRows? then WordRows else ByteRows, RowText(mode, base, cells, tail))
  {
    var line := RowText(mode, base, cells, tail);
    CellInRow(mode, base, cells, tail, 0);
    CellInRow(mode, base, cells, tail, 1);
    if mode.ByteRows? {
      NotWords(line);
    } else {
      var cell := CellAt(WordRows, line, 0);
      assert cell[0] == line[4] && cell[2] == line[6];
      NoSpaceInside(cells[0]);
      NotBytes(line);
    }
  }

  /** The commands that restore the cells: none for one that could not be read. */
  function CellSets(mode: Mode, at: nat, cells: seq<Cell>): (parts: seq<seq<Set>>)
    ensures |parts| == |cells|
  {
    seq(|cells|, j requires 0 <= j < |cells| => CellSet(mode, at + j, cells[j]))
  }

  function CellSet(mode: Mode, at: nat, cell: Cell): seq<Set> {
    if cell.Value? then [Set(mode, at, Digits(cell.value, mode.Width()))] else []
  }

  lemma ValueRestores(mode: Mode, at: nat, cell: Cell)
    requires !cell.Skipped?
    ensures ValueSet(mode, at, CellText(mode, cell)) == CellSet(mode, at, cell)
  {
    CellChars(mode, cell);
  }

  lemma ValuesRestore(mode: Mode, at: nat, values: seq<string>, cells: seq<Cell>)
    requires |values| == |cells| && Complete(cells)
    requires forall j :: 0 <= j < |cells| ==> values[j] == CellText(mode, cells[j])
    ensures ValueSets(mode, at, values) == CellSets(mode, at, cells)
  {
    forall j | 0 <= j < |cells| ensures ValueSets(mode, at, values)[j] == CellSets(mode, at, cells)[j] {
      ValueRestores(mode, at + j, cells[j]);
    }
  }

  /** What process_dump makes of one printed row: all its values and nothing else, or nothing at all if
      the row is not complete. */
  lemma RowReadsBack(mode: Mode, base: nat, cells: seq<Cell>, tail: string)
    requires RowStart(mode, base) && |cells| == mode.Columns()
    ensures LineSets(RowText(mode, base, cells, tail)) == if Complete(cells) then Flatten(CellSets(mode, base, cells)) else []
  {
    var line := RowText(mode, base, cells, tail);
    MatchesOwn(mode, base, cells, tail);
    MatchesNoOther(mode, base, cells, tail);
    if Complete(cells) {
      HeadChars(mode, base);
      assert line[..2] == Digits(base, 2);
      forall j | 0 <= j < |cells| ensures Values(mode, line)[j] == CellText(mode, cells[j]) {
        CellInRow(mode, base, cells, tail, j);
      }
      ValuesRestore(mode, base, Values(mode, line), cells);
    }
  }

  // ---- A whole dump -----------------------------------------------------------------------------------------

  function Max(a: nat, b: nat): nat {
    if a < b then b else a
  }

  /** The cell for register k of a dump from first to last. */
  function CellOf(regs: seq<Option<nat>>, first: nat, last: nat, k: nat): Cell
    requires k < |regs|
  {
    if k < first || k > last then Skipped else if regs[k].None? then Failed else Value(regs[k].value)
  }

  function RowCells(mode: Mode, regs: seq<Option<nat>>, first: nat, last: nat, base: nat): (cells: seq<Cell>)
    requires base + mode.Columns() <= |regs|
    ensures |cells| == mode.Columns()
  {
    seq(mode.Columns(), j requires 0 <= j < mode.Columns() => CellOf(regs, first, last, base + j))
  }

  /** The character shown for a register of a byte dump. */
  function Shown(cell: Cell): char {
    match cell
    case Skipped => ' '
    case Failed => 'X'
    case Value(v) =>
      if v % 0x100 == 0 || v % 0x100 == 0xff then '.' else if v % 0x100 < 32 || v % 0x100 >= 127 then '?' else (v % 0x100) as char
  }

  function Characters(cells: seq<Cell>): string {
    seq(|cells|, j requires 0 <= j < |cells| => Shown(cells[j]))
  }

  function PrintedRow(mode: Mode, regs: seq<Option<nat>>, first: nat, last: nat, base: nat): string
    requires base + mode.Columns() <= |regs|
  {
    var cells := RowCells(mode, regs, first, last, base);
    RowText(mode, base, cells, if mode.ByteRows? then "   " + Characters(cells) else "")
  }

  /** The rows from base on that the range touches, by their first register. */
  function Rows(mode: Mode, first: nat, last: nat, base: nat): (bases: seq<nat>)
    requires base <= 0x100 && mode.Starts(base)
    ensures forall i :: 0 <= i < |bases| ==> RowStart(mode, bases[i])
    decreases last, 0x100 - base
  {
    if base == 0x100 || mode.Row(base) > mode.Row(last) then []
    else if mode.Row(base) < mode.Row(first) then Rows(mode, first, last, base + mode.Columns())
    else [base] + Rows(mode, first, last, base + mode.Columns())
  }

  /** The rows of a dump of the registers from first to last. */
  predicate IsRows(mode: Mode, regs: seq<Option<nat>>, first: nat, last: nat, bases: seq<nat>, rows: seq<string>)
    requires |regs| == 0x100
  {
    && |rows| == |bases|
    && forall i :: 0 <= i < |rows| ==>
         bases[i] + mode.Columns() <= 0x100 && rows[i] == PrintedRow(mode, regs, first, last, bases[i])
  }

  /** "  0  1  2" and so on, n numbers. */
  function Numbers(n: nat): (s: string)
    requires n <= 16
    ensures |s| == 3 * n
  {
    if n == 0 then "" else Numbers(n - 1) + [' ', ' ', Digit(n - 1)]
  }

  /** "012" and so on, n numbers. */
  function Run16(n: nat): (s: string)
    requires n <= 16
    ensures |s| == n
  {
    if n == 0 then "" else Run16(n - 1) + [Digit(n - 1)]
  }

  /** "  0,8  1,9  2,a" and so on, n pairs. */
  function Pairs(n: nat): (s: string)
    requires n <= 8
    ensures |s| == 5 * n
  {
    if n == 0 then "" else Pairs(n - 1) + [' ', ' ', Digit(n - 1), ',', Digit(n + 7)]
  }

  /** The line over the columns. */
  function Header(mode: Mode): (s: string)
    ensures |s| >= 5 && s[0] == ' '
  {
    var n := mode.Columns();
    Repeat(' ', 3) + if mode.ByteRows? then Numbers(n) + (Repeat(' ', 4) + Run16(n)) else Pairs(n)
  }

  lemma {:induction false} NumberAt(n: nat, j: nat)
    requires j < n <= 16
    ensures Numbers(n)[3 * j] == Numbers(n)[3 * j + 1] == ' ' && Numbers(n)[3 * j + 2] == Run16(n)[j] == Digit(j)
  {
    if j < n - 1 { NumberAt(n - 1, j); }
  }

  lemma {:induction false} PairAt(n: nat, j: nat)
    requires j < n <= 8
    ensures Pairs(n)[5 * j] == Pairs(n)[5 * j + 1] == ' ' && Pairs(n)[5 * j + 2] == Digit(j)
    ensures Pairs(n)[5 * j + 3] == ',' && Pairs(n)[5 * j + 4] == Digit(j + 8)
  {
    if j < n - 1 { PairAt(n - 1, j); }
  }

  lemma Parted<T>(a: seq<T>, b: seq<T>, c: seq<T>, d: seq<T>)
    ensures var s := a + (b + (c + d)); var n := |a| + |b| + |c|;
      |s| == n + |d| && (forall k :: 0 <= k < |b| ==> s[|a| + k] == b[k]) && (forall k :: 0 <= k < |d| ==> s[n + k] == d[k])
  {
  }

  lemma Indented<T>(a: seq<T>, b: seq<T>, k: nat)
    requires k < |b|
    ensures (a + b)[|a| + k] == b[k]
  {
  }

  /** In a byte dump the number of a column stands over the last digit of its cells, and over its characters. */
  lemma ByteHeader(j: nat)
    requires j < 16
    ensures var h, at := Header(ByteRows), Start(ByteRows, j);
      |h| == 71 && h[at] == h[at + 1] == ' ' && h[at + 2] == Digit(j) && h[55 + j] == Digit(j)
  {
    var n := ByteRows.Columns();
    NumberAt(n, j);
    Parted(Repeat(' ', 3), Numbers(n), Repeat(' ', 4), Run16(n));
    assert Numbers(n)[3 * j] == Header(ByteRows)[3 + 3 * j] && Numbers(n)[3 * j + 1] == Header(ByteRows)[3 + (3 * j + 1)];
    assert Numbers(n)[3 * j + 2] == Header(ByteRows)[3 + (3 * j + 2)];
  }

  /** In a word dump the numbers of the two registers stand over the middle of their cell. */
  lemma WordHeader(j: nat)
    requires j < 8
    ensures var h, at := Header(WordRows), Start(WordRows, j);
      |h| == 43 && h[at] == h[at + 1] == ' ' && h[at + 2] == Digit(j) && h[at + 3] == ',' && h[at + 4] == Digit(j + 8)
  {
    var n := WordRows.Columns();
    PairAt(n, j);
    Indented(Repeat(' ', 3), Pairs(n), 5 * j);
    Indented(Repeat(' ', 3), Pairs(n), 5 * j + 1);
    Indented(Repeat(' ', 3), Pairs(n), 5 * j + 2);
    Indented(Repeat(' ', 3), Pairs(n), 5 * j + 3);
    Indented(Repeat(' ', 3), Pairs(n), 5 * j + 4);
  }

  /** The dump of the registers from first to last. */
  predicate IsDump(mode: Mode, regs: seq<Option<nat>>, first: nat, last: nat, lines: seq<string>)
    requires |regs| == 0x100
  {
    lines != [] && lines[0] == Header(mode) && IsRows(mode, regs, first, last, Rows(mode, first, last, 0), lines[1..])
  }

  /** The rows printed are those from the row of the first register to that of the last. */
  lemma {:induction false} RowsAre(mode: Mode, first: nat, last: nat, base: nat)
    requires first <= last < 0x100 && base <= 0x100 && mode.Starts(base)
    ensures var from, rows := Max(mode.Row(base), mode.Row(first)), Rows(mode, first, last, base);
      && |rows| == (if from <= mode.Row(last) then mode.Row(last) + 1 - from else 0)
      && forall n :: 0 <= n < |rows| ==> rows[n] == (if mode.ByteRows? then 16 * (from + n) else 8 * (from + n))
    decreases 0x100 - base
  {
    if base < 0x100 && mode.Row(base) <= mode.Row(last) {
      if mode.ByteRows? { RowsAre(mode, first, last, base + 16); } else { RowsAre(mode, first, last, base + 8); }
    }
  }

  /** What a line shows of register k in its column: blanks outside the range, X if it could not be read, and else its
      value; in a byte dump also as a character. */
  predicate ShowsRegister(mode: Mode, regs: seq<Option<nat>>, first: nat, last: nat, line: string, k: nat)
    requires k < |regs|
  {
    var col := k % mode.Columns();
    && |line| >= Start(mode, mode.Columns()) && line[..3] == Digits(k - col, 2) + ":"
    && CellAt(mode, line, col) == (if k < first || k > last then Repeat(' ', mode.Width())
                                   else if regs[k].None? then Repeat('X', mode.Width())
                                   else Digits(regs[k].value, mode.Width()))
    && (mode.ByteRows? ==>
          |line| == 71 &&
          if k < first || k > last then line[55 + col] == ' '
          else if regs[k].None? then line[55 + col] == 'X'
          else
            var v := regs[k].value % 0x100;
            line[55 + col] == if v == 0 || v == 0xff then '.' else if 32 <= v <= 126 then v as char else '?')
  }

  lemma RowParts(front: string, middle: string, chars: string, j: nat)
    requires j < |chars|
    ensures (front + middle + " " + ("   " + chars))[|front| + |middle| + 4 + j] == chars[j]
    ensures |front + middle + " " + ("   " + chars)| == |front| + |middle| + 4 + |chars|
  {
  }

  lemma RowShowsCharacter(regs: seq<Option<nat>>, first: nat, last: nat, base: nat, col: nat)
    requires base + 16 <= |regs| && col < 16
    ensures var line := PrintedRow(ByteRows, regs, first, last, base);
      |line| == 71 && line[55 + col] == Shown(CellOf(regs, first, last, base + col))
  {
    var cells := RowCells(ByteRows, regs, first, last, base);
    RowParts(Digits(base, 2) + ":", CellsText(ByteRows, cells), Characters(cells), col);
  }

  lemma RowShowsCell(mode: Mode, regs: seq<Option<nat>>, first: nat, last: nat, base: nat, col: nat)
    requires base + mode.Columns() <= |regs| && col < mode.Columns()
    ensures var line := PrintedRow(mode, regs, first, last, base);
      && |line| >= Start(mode, mode.Columns()) && line[..3] == Digits(base, 2) + ":"
      && CellAt(mode, line, col) == CellText(mode, CellOf(regs, first, last, base + col))
  {
    var cells := RowCells(mode, regs, first, last, base);
    var tail := if mode.ByteRows? then "   " + Characters(cells) else "";
    CellInRow(mode, base, cells, tail, col);
    assert RowText(mode, base, cells, tail)[..3] == Digits(base, 2) + ":";
  }

  lemma RowShows(mode: Mode, regs: seq<Option<nat>>, first: nat, last: nat, base: nat, col: nat)
    requires base + mode.Columns() <= |regs| && col < mode.Columns() && mode.Starts(base)
    ensures ShowsRegister(mode, regs, first, last, PrintedRow(mode, regs, first, last, base), base + col)
  {
    RowShowsCell(mode, regs, first, last, base, col);
    if mode.ByteRows? { RowShowsCharacter(regs, first, last, base, col); }
    LineShowsCell(mode, regs, first, last, PrintedRow(mode, regs, first, last, base), base, col);
  }

  lemma LineShowsCell(mode: Mode, regs: seq<Option<nat>>, first: nat, last: nat, line: string, base: nat, col: nat)
    requires base + mode.Columns() <= |regs| && col < mode.Columns() && mode.Starts(base)
    requires |line| >= Start(mode, mode.Columns()) && line[..3] == Digits(base, 2) + ":"
    requires CellAt(mode, line, col) == CellText(mode, CellOf(regs, first, last, base + col))
    requires mode.ByteRows? ==> |line| == 71 && line[55 + col] == Shown(CellOf(regs, first, last, base + col))
    ensures ShowsRegister(mode, regs, first, last, line, base + col)
  {
    Column(mode, base, col);
    CellMeans(mode, CellOf(regs, first, last, base + col));
  }

  lemma Column(mode: Mode, base: nat, col: nat)
    requires mode.Starts(base) && col < mode.Columns()
    ensures (base + col) % mode.Columns() == col
  {
  }

  lemma CellMeans(mode: Mode, cell: Cell)
    ensures CellText(mode, cell) == (if cell.Skipped? then Repeat(' ', mode.Width())
                                     else if cell.Failed? then Repeat('X', mode.Width())
                                     else Digits(cell.value, mode.Width()))
  {
  }

  lemma RowNumber(mode: Mode, k: nat)
    requires k < 0x100
    ensures var base := mode.Columns() * mode.Row(k);
      base + k % mode.Columns() == k && mode.Starts(base) && base + mode.Columns() <= 0x100
  {
  }

  lemma LineShows(mode: Mode, regs: seq<Option<nat>>, first: nat, last: nat, bases: seq<nat>, rows: seq<string>, n: nat, k: nat)
    requires |regs| == 0x100 && IsRows(mode, regs, first, last, bases, rows) && n < |rows| && k < 0x100
    requires bases[n] == mode.Columns() * mode.Row(k)
    ensures ShowsRegister(mode, regs, first, last, rows[n], k)
  {
    RowNumber(mode, k);
    RowShows(mode, regs, first, last, bases[n], k % mode.Columns());
  }

  /** A dump shows every register of the rows that the range touches, each on the line for its row. */
  lemma DumpShows(mode: Mode, regs: seq<Option<nat>>, first: nat, last: nat, lines: seq<string>, k: nat)
    requires |regs| == 0x100 && first <= last < 0x100 && IsDump(mode, regs, first, last, lines)
    requires k < 0x100 && mode.Row(first) <= mode.Row(k) <= mode.Row(last)
    ensures |lines| == 2 + mode.Row(last) - mode.Row(first)
    ensures ShowsRegister(mode, regs, first, last, lines[1 + mode.Row(k) - mode.Row(first)], k)
  {
    RowsAre(mode, first, last, 0);
    var bases, rows, n := Rows(mode, first, last, 0), lines[1..], mode.Row(k) - mode.Row(first);
    assert |rows| == |bases| && rows[n] == lines[1 + n];
    LineShows(mode, regs, first, last, bases, rows, n, k);
  }

  lemma DumpGrows(mode: Mode, regs: seq<Option<nat>>, first: nat, last: nat, bases: seq<nat>, rows: seq<string>, base: nat, row: string)
    requires |regs| == 0x100 && IsRows(mode, regs, first, last, bases, rows)
    requires base + mode.Columns() <= 0x100 && row == PrintedRow(mode, regs, first, last, base)
    ensures IsRows(mode, regs, first, last, bases + [base], rows + [row])
  {
  }

  lemma NextStart(mode: Mode, base: nat)
    requires base < 0x100 && mode.Starts(base)
    ensures base + mode.Columns() <= 0x100 && mode.Starts(base + mode.Columns())
  {
  }

  /** The loops that print a dump, one cell after the other. */
  method PrintDump(mode: Mode, regs: seq<Option<nat>>, first: nat, last: nat) returns (lines: seq<string>)
    requires |regs| == 0x100
    ensures IsDump(mode, regs, first, last, lines)
  {
    var rows := [];
    var base := 0;
    ghost var bases: seq<nat> := [];
    while base < 0x100
      invariant 0 <= base <= 0x100 && mode.Starts(base)
      invariant Rows(mode, first, last, 0) == bases + Rows(mode, first, last, base)
      invariant IsRows(mode, regs, first, last, bases, rows)
      decreases 0x100 - base
    {
      NextStart(mode, base);
      if mode.Row(base) < mode.Row(first) {
        base := base + mode.Columns();
        continue;
      }
      if mode.Row(base) > mode.Row(last) {
        break;
      }
      var row := PrintRow(mode, regs, first, last, base);
      DumpGrows(mode, regs, first, last, bases, rows, base, row);
      Regroup(Rows(mode, first, last, 0), bases, [base], Rows(mode, first, last, base + mode.Columns()));
      bases := bases + [base];
      rows := rows + [row];
      base := base + mode.Columns();
    }
    NothingLeft(Rows(mode, first, last, 0), bases, Rows(mode, first, last, base));
    lines := [Header(mode)] + rows;
    Behind(Header(mode), rows);
  }

  lemma Behind<T>(first: T, rest: seq<T>)
    ensures ([first] + rest)[0] == first && ([first] + rest)[1..] == rest
  {
  }

  /** One row: the number of its first register, the cells, and the characters of a byte dump. */
  method PrintRow(mode: Mode, regs: seq<Option<nat>>, first: nat, last: nat, base: nat) returns (row: string)
    requires base + mode.Columns() <= |regs|
    ensures row == PrintedRow(mode, regs, first, last, base)
  {
    ghost var cells := RowCells(mode, regs, first, last, base);
    var text := PrintCells(mode, regs, first, last, base, cells);
    var tail := "";
    if mode.ByteRows? {
      var characters := PrintCharacters(regs, first, last, base, cells);
      tail := "   " + characters;
    }
    row := Digits(base, 2) + ":" + text + " " + tail;
  }

  method PrintCells(mode: Mode, regs: seq<Option<nat>>, first: nat, last: nat, base: nat, ghost cells: seq<Cell>)
    returns (s: string)
    requires base + mode.Columns() <= |regs| && cells == RowCells(mode, regs, first, last, base)
    ensures s == CellsText(mode, cells)
  {
    s := "";
    var j := 0;
    while j < mode.Columns()
      invariant 0 <= j <= mode.Columns() && s == CellsText(mode, cells[..j])
    {
      var text := PrintCell(mode, CellOf(regs, first, last, base + j));
      NextCell(mode, cells, j, text);
      s := s + text;
      j := j + 1;
    }
    WholeSlice(cells);
  }

  lemma WholeSlice<T>(s: seq<T>)
    ensures s[..|s|] == s
  {
  }

  method PrintCharacters(regs: seq<Option<nat>>, first: nat, last: nat, base: nat, ghost cells: seq<Cell>)
    returns (s: string)
    requires base + 16 <= |regs| && cells == RowCells(ByteRows, regs, first, last, base)
    ensures s == Characters(cells)
  {
    s := "";
    var j := 0;
    while j < 16
      invariant 0 <= j <= 16 && s == Characters(cells)[..j]
    {
      s := s + [Shown(CellOf(regs, first, last, base + j))];
      j := j + 1;
    }
  }

  /** A cell with its space in front. */
  method PrintCell(mode: Mode, cell: Cell) returns (text: string)
    ensures text == " " + CellText(mode, cell)
  {
    text := " " + CellText(mode, cell);
  }

  lemma NextCell(mode: Mode, cells: seq<Cell>, j: nat, text: string)
    requires j < |cells| && text == " " + CellText(mode, cells[j])
    ensures CellsText(mode, cells[..j + 1]) == CellsText(mode, cells[..j]) + text
  {
    assert cells[..j + 1][..j] == cells[..j];
  }

  /** The command that restores register k, if it was read. */
  function SetOf(mode: Mode, regs: seq<Option<nat>>, k: nat): seq<Set> {
    if k < |regs| && regs[k].Some? then [Set(mode, k, Digits(regs[k].value, mode.Width()))] else []
  }

  function Restorer(mode: Mode, regs: seq<Option<nat>>): nat -> seq<Set> {
    (k: nat) => SetOf(mode, regs, k)
  }

  lemma RowRestores(mode: Mode, regs: seq<Option<nat>>, first: nat, last: nat, at: nat)
    requires at + mode.Columns() <= |regs| && first <= at && at + mode.Columns() <= last + 1
    ensures Flatten(CellSets(mode, at, RowCells(mode, regs, first, last, at))) == Gather(Restorer(mode, regs), at, at + mode.Columns())
  {
    var parts := CellSets(mode, at, RowCells(mode, regs, first, last, at));
    forall j | 0 <= j < |parts| ensures parts[j] == Restorer(mode, regs)(at + j) {
      assert parts[j] == CellSet(mode, at + j, CellOf(regs, first, last, at + j)) == SetOf(mode, regs, at + j);
    }
    FlattenIsGather(Restorer(mode, regs), at, parts);
  }

  lemma RowComplete(mode: Mode, regs: seq<Option<nat>>, first: nat, last: nat, base: nat)
    requires base + mode.Columns() <= |regs|
    ensures Complete(RowCells(mode, regs, first, last, base)) <==> first <= base && base + mode.Columns() <= last + 1
  {
    var cells := RowCells(mode, regs, first, last, base);
    assert forall j :: 0 <= j < |cells| ==> cells[j] == CellOf(regs, first, last, base + j);
    assert cells[0].Skipped? <==> base < first || base > last;
    assert cells[mode.Columns() - 1].Skipped? <==> base + mode.Columns() - 1 < first || base + mode.Columns() - 1 > last;
  }

  /** What process_dump makes of one row of a dump: all its registers, or nothing if the range cuts the row. */
  lemma RowOfDump(mode: Mode, regs: seq<Option<nat>>, first: nat, last: nat, base: nat)
    requires |regs| == 0x100 && RowStart(mode, base) && base + mode.Columns() <= 0x100
    ensures LineSets(PrintedRow(mode, regs, first, last, base)) ==
      if first <= base && base + mode.Columns() <= last + 1 then Gather(Restorer(mode, regs), base, base + mode.Columns()) else []
  {
    var cells := RowCells(mode, regs, first, last, base);
    RowReadsBack(mode, base, cells, if mode.ByteRows? then "   " + Characters(cells) else "");
    RowComplete(mode, regs, first, last, base);
    if first <= base && base + mode.Columns() <= last + 1 {
      RowRestores(mode, regs, first, last, base);
    }
  }

  predicate WholeRows(mode: Mode, first: nat, last: nat) {
    first <= last < 0x100 && mode.Starts(first) && mode.Starts(last + 1)
  }

  predicate AllInside(mode: Mode, first: nat, last: nat, bases: seq<nat>) {
    forall i :: 0 <= i < |bases| ==> RowStart(mode, bases[i]) && first <= bases[i] && bases[i] + mode.Columns() <= last + 1 <= 0x100
  }

  function GatherRows<T>(mode: Mode, f: nat -> seq<T>, bases: seq<nat>): seq<seq<T>> {
    seq(|bases|, i requires 0 <= i < |bases| => Gather(f, bases[i], bases[i] + mode.Columns()))
  }

  lemma FlattenRows<T>(mode: Mode, f: nat -> seq<T>, base: nat, rest: seq<nat>)
    ensures Flatten(GatherRows(mode, f, [base] + rest))
         == Gather(f, base, base + mode.Columns()) + Flatten(GatherRows(mode, f, rest))
  {
    var all := GatherRows(mode, f, [base] + rest);
    assert all[0] == Gather(f, base, base + mode.Columns()) && all[1..] == GatherRows(mode, f, rest);
  }

  lemma Sixteens(a: nat, b: nat)
    requires a % 16 == 0 && b % 16 == 0 && b > 0
    ensures a < b <==> a / 16 < b / 16
    ensures a < b ==> a + 16 <= b
    ensures (a + 16) % 16 == 0 && (b - 1) / 16 == b / 16 - 1
  {
  }

  lemma Eights(a: nat, b: nat)
    requires a % 8 == 0 && b % 8 == 0 && b > 0
    ensures a < b <==> a / 8 < b / 8
    ensures a < b ==> a + 8 <= b
    ensures (a + 8) % 8 == 0 && (b - 1) / 8 == b / 8 - 1
  {
  }

  lemma RowOrder(mode: Mode, first: nat, last: nat, base: nat)
    requires WholeRows(mode, first, last) && mode.Starts(base)
    ensures mode.Row(base) > mode.Row(last) <==> base > last
    ensures mode.Row(base) < mode.Row(first) <==> base < first
    ensures base < first ==> base + mode.Columns() <= first
    ensures base <= last ==> base + mode.Columns() <= last + 1
    ensures mode.Starts(base + mode.Columns())
  {
    if mode.ByteRows? {
      Sixteens(base, last + 1);
      if first > 0 { Sixteens(base, first); }
    } else {
      Eights(base, last + 1);
      if first > 0 { Eights(base, first); }
    }
  }

  lemma NextRowStart(mode: Mode, first: nat, last: nat, base: nat)
    requires WholeRows(mode, first, last) && base <= last && mode.Starts(base)
    ensures mode.Starts(base + mode.Columns()) && base + mode.Columns() <= last + 1
    ensures base < first ==> base + mode.Columns() <= first
    ensures var rest := Rows(mode, first, last, base + mode.Columns());
      Rows(mode, first, last, base) == if base < first then rest else [base] + rest
  {
    RowOrder(mode, first, last, base);
  }

  lemma {:induction false} RowsInside(mode: Mode, first: nat, last: nat, base: nat)
    requires WholeRows(mode, first, last) && base <= last + 1 && mode.Starts(base)
    ensures AllInside(mode, first, last, Rows(mode, first, last, base))
    decreases 0x100 - base
  {
    if base <= last {
      NextRowStart(mode, first, last, base);
      RowsInside(mode, first, last, base + mode.Columns());
    }
  }

  lemma FirstRowCovers<T>(mode: Mode, f: nat -> seq<T>, last: nat, base: nat, rest: seq<nat>)
    requires base + mode.Columns() <= last + 1
    requires Flatten(GatherRows(mode, f, rest)) == Gather(f, base + mode.Columns(), last + 1)
    ensures Flatten(GatherRows(mode, f, [base] + rest)) == Gather(f, base, last + 1)
  {
    FlattenRows(mode, f, base, rest);
    GatherJoins(f, base, base + mode.Columns(), last + 1);
  }

  /** The rows of a range of whole rows cover it. */
  lemma {:induction false} RowsCover<T>(mode: Mode, f: nat -> seq<T>, first: nat, last: nat, base: nat)
    requires WholeRows(mode, first, last) && base <= last + 1 && mode.Starts(base)
    ensures Flatten(GatherRows(mode, f, Rows(mode, first, last, base))) == Gather(f, Max(base, first), last + 1)
    decreases 0x100 - base
  {
    if base <= last {
      NextRowStart(mode, first, last, base);
      var next := base + mode.Columns();
      RowsCover(mode, f, first, last, next);
      if base >= first { FirstRowCovers(mode, f, last, base, Rows(mode, first, last, next)); }
    } else {
      RowOrder(mode, first, last, base);
      assert Rows(mode, first, last, base) == [];
    }
  }

  lemma RowsRestore(mode: Mode, regs: seq<Option<nat>>, first: nat, last: nat, rows: seq<string>)
    requires |regs| == 0x100 && WholeRows(mode, first, last)
    requires IsRows(mode, regs, first, last, Rows(mode, first, last, 0), rows)
    ensures AllSets(rows) == Gather(Restorer(mode, regs), first, last + 1)
  {
    var f, bases := Restorer(mode, regs), Rows(mode, first, last, 0);
    RowsInside(mode, first, last, 0);
    RowsCover(mode, f, first, last, 0);
    forall i | 0 <= i < |rows| ensures SetsByLine(rows)[i] == GatherRows(mode, f, bases)[i] {
      DumpRow(mode, regs, first, last, bases, rows, i);
      LineAt(rows, i);
      RowGathered(mode, f, bases, i);
    }
    assert SetsByLine(rows) == GatherRows(mode, f, bases);
  }

  lemma FirstLine(lines: seq<string>)
    requires lines != [] && LineSets(lines[0]) == []
    ensures AllSets(lines) == AllSets(lines[1..])
  {
    assert SetsByLine(lines)[0] == [] && SetsByLine(lines)[1..] == SetsByLine(lines[1..]);
    NothingDone(AllSets(lines[1..]));
  }

  /** No pattern takes the line over the columns for a row. */
  lemma HeaderIgnored(mode: Mode)
    ensures LineSets(Header(mode)) == []
  {
  }

  /** A dump of whole rows is restored exactly: one command for every register that was read, with its
      value, and none for the others. */
  lemma DumpRestores(mode: Mode, regs: seq<Option<nat>>, first: nat, last: nat, lines: seq<string>)
    requires |regs| == 0x100 && WholeRows(mode, first, last) && IsDump(mode, regs, first, last, lines)
    ensures AllSets(lines) == Gather(Restorer(mode, regs), first, last + 1)
  {
    HeaderIgnored(mode);
    FirstLine(lines);
    RowsRestore(mode, regs, first, last, lines[1..]);
  }

  lemma LineAt(lines: seq<string>, i: nat)
    requires i < |lines|
    ensures SetsByLine(lines)[i] == LineSets(lines[i])
  {
  }

  lemma RowGathered<T>(mode: Mode, f: nat -> seq<T>, bases: seq<nat>, i: nat)
    requires i < |bases|
    ensures GatherRows(mode, f, bases)[i] == Gather(f, bases[i], bases[i] + mode.Columns())
  {
  }

  lemma DumpRow(mode: Mode, regs: seq<Option<nat>>, first: nat, last: nat, bases: seq<nat>, rows: seq<string>, i: nat)
    requires |regs| == 0x100 && IsRows(mode, regs, first, last, bases, rows) && AllInside(mode, first, last, bases) && i < |rows|
    ensures LineSets(rows[i]) == Gather(Restorer(mode, regs), bases[i], bases[i] + mode.Columns())
  {
    RowOfDump(mode, regs, first, last, bases[i]);
  }

  /** The hex text of a command is the value. */
  lemma SetsValue(mode: Mode, v: nat)
    requires v < mode.Limit()
    ensures Hex(Digits(v, mode.Width())) == v
  {
    assert Power16(2) == 0x100 && Power16(4) == 0x10000;
    HexOfDigits(v, mode.Width());
  }

  // ---- The I2C block reads ----------------------------------------------------------------------------------

  const I2C_BLOCK_MAX := 32

  /** The bytes that the first n reads return. */
  ghost function Total(answer: nat -> int, n: nat): int {
    if n == 0 then 0 else Total(answer, n - 1) + answer(n - 1)
  }

  /** Fills block with the registers by I2C block reads.  Read number n returns answer(n) bytes from where it
      starts, the registers wrapping round, or an error; one that is not positive ends the program. */
  method ReadBlocks(regs: seq<Byte>, answer: nat -> int, block: array<int>) returns (res: int, calls: nat)
    requires |regs| == 0x100 && block.Length == 0x100 && forall n :: answer(n) <= I2C_BLOCK_MAX
    modifies block
    ensures calls > 0 && (forall n :: 0 <= n < calls - 1 ==> answer(n) > 0) && Total(answer, calls - 1) < 0x100
    ensures answer(calls - 1) > 0 ==> Total(answer, calls) >= 0x100
    ensures answer(calls - 1) > 0 ==> res == 0x100 && forall k :: 0 <= k < 0x100 ==> block[k] == regs[k]
    ensures answer(calls - 1) <= 0 ==> res == answer(calls - 1) && block[..] == old(block[..])
  {
    var cblock := new Byte[288](_ => 0);
    res := 0;
    calls := 0;
    while res < 0x100
      invariant 0 <= res < 288 && (calls == 0 <==> res == 0) && fresh(cblock) && res == Total(answer, calls)
      invariant calls > 0 ==> Total(answer, calls - 1) < 0x100
      invariant forall n :: 0 <= n < calls ==> answer(n) > 0
      invariant forall k :: 0 <= k < res && k < 0x100 ==> cblock[k] == regs[k]
      invariant block[..] == old(block[..])
    {
      var i := answer(calls);
      calls := calls + 1;
      if i <= 0 {
        res := i;
        return;
      }
      forall k | 0 <= k < i {
        cblock[res + k] := regs[if res + k < 0x100 then res + k else res + k - 0x100];
      }
      res := res + i;
    }
    res := 0x100;
    forall k | 0 <= k < res { block[k] := cblock[k]; }
  }
}
