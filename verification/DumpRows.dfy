/** Which lines, of any text, process_dump in stub/i2c-stub-from-dump takes for rows of a dump. */
module DumpRows {
  import opened HexText
  import opened Parts
  import opened RegisterDump

  const HEX_DIGITS := "0123456789abcdef"

  /** Each cell with a space before it. */
  function Spaced(cells: seq<string>): string {
    if cells == [] then "" else Spaced(cells[..|cells| - 1]) + (" " + cells[|cells| - 1])
  }

  /** The text of a value: hex digits, with an X where a digit is not known. */
  predicate IsCell(mode: Mode, cell: string) {
    |cell| == (if mode.ByteRows? then 2 else 4) && forall c :: c in cell ==> c in HEX_DIGITS || c == 'X'
  }

  /** The line is an address of two digits, a colon, the values of a row, and anything behind. */
  ghost predicate Spells(mode: Mode, line: string, base: nat, cells: seq<string>, rest: string) {
    && base < 0x100 && (base % 16 == 0 || (mode.WordRows? && base % 16 == 8))
    && |cells| == (if mode.ByteRows? then 16 else 8) && (forall j :: 0 <= j < |cells| ==> IsCell(mode, cells[j]))
    && line == [HEX_DIGITS[base / 16], HEX_DIGITS[base % 16], ':'] + Spaced(cells) + rest
  }

  lemma DigitsAre(c: char)
    ensures LowerHex(c) <==> c in HEX_DIGITS
    ensures LowerHex(c) ==> DigitValue(c) < 16 && HEX_DIGITS[DigitValue(c)] == c
  {
    if LowerHex(c) {
      var n := DigitValue(c);
      if n < 8 { assert HEX_DIGITS[n] == c; } else { assert HEX_DIGITS[n] == c; }
    }
  }

  lemma AllDigits(cell: string)
    ensures (forall c :: c in cell ==> HexOrX(c)) <==> forall c :: c in cell ==> c in HEX_DIGITS || c == 'X'
  {
    forall c | c in cell ensures HexOrX(c) <==> c in HEX_DIGITS || c == 'X' { DigitsAre(c); }
  }

  lemma {:induction false} SpacedLength(mode: Mode, cells: seq<string>)
    requires forall j :: 0 <= j < |cells| ==> |cells[j]| == mode.Width()
    ensures |Spaced(cells)| == Start(mode, |cells|) - 3
  {
    if cells != [] { SpacedLength(mode, cells[..|cells| - 1]); }
  }

  lemma CellStands(mode: Mode, front: string, cell: string, rest: string, j: nat)
    requires |front| == Start(mode, j) && |cell| == mode.Width()
    ensures var line := front + (" " + cell) + rest;
      Start(mode, j + 1) <= |line| && line[Start(mode, j)] == ' ' && CellAt(mode, line, j) == cell
  {
    var line := front + (" " + cell) + rest;
    InMiddle(front, " " + cell, rest);
    SecondOn(line, Start(mode, j), Start(mode, j + 1), ' ', cell);
  }

  /** Text that consists of spaced cells has cell j where cell j is looked for. */
  lemma {:induction false} CellFound(mode: Mode, head: string, cells: seq<string>, rest: string, j: nat)
    requires |head| == 3 && j < |cells| && forall i :: 0 <= i < |cells| ==> |cells[i]| == mode.Width()
    ensures var line := head + Spaced(cells) + rest;
      Start(mode, j + 1) <= |line| && line[Start(mode, j)] == ' ' && CellAt(mode, line, j) == cells[j]
    decreases |cells|
  {
    var k := |cells| - 1;
    var before, last := Spaced(cells[..k]), " " + cells[k];
    SpacedLength(mode, cells[..k]);
    Regrouped(head, before, last, rest);
    if j < k {
      CellFound(mode, head, cells[..k], last + rest, j);
    } else {
      CellStands(mode, head + before, cells[k], rest, k);
    }
  }

  lemma Regrouped<T>(a: seq<T>, b: seq<T>, c: seq<T>, d: seq<T>)
    ensures a + (b + c) + d == a + b + (c + d) == (a + b) + c + d
  {
  }

  lemma InMiddle<T>(a: seq<T>, b: seq<T>, c: seq<T>)
    ensures (a + b + c)[|a|..|a| + |b|] == b
  {
  }

  /** The converse: cells that are looked for and found are all there is up to the last of them. */
  lemma {:induction false} CellsFound(mode: Mode, line: string, n: nat)
    requires |line| >= 3 && n <= mode.Columns() && forall j :: 0 <= j < n ==> CellMatches(mode, line, j)
    ensures Start(mode, n) <= |line| && line[..Start(mode, n)] == line[..3] + Spaced(Values(mode, line)[..n])
  {
    if n > 0 {
      var values, from_ := Values(mode, line), Start(mode, n - 1);
      CellsFound(mode, line, n - 1);
      assert CellMatches(mode, line, n - 1);
      assert values[..n][..n - 1] == values[..n - 1] && values[..n][n - 1] == CellAt(mode, line, n - 1);
      OneMore(line, from_, Start(mode, n), line[..3], Spaced(values[..n - 1]));
    }
  }

  lemma OneMore(line: string, i: nat, j: nat, head: string, front: string)
    requires i < j <= |line| && line[i] == ' ' && line[..i] == head + front
    ensures line[..j] == head + (front + (" " + line[i + 1..j]))
  {
    assert line[..j] == line[..i] + [line[i]] + line[i + 1..j];
  }

  /** A line is taken for a row if and only if it can be put together that way; then its values are the cells. */
  lemma RowDecided(mode: Mode, line: string)
    ensures Matches(mode, line) <==> exists base, cells, rest :: Spells(mode, line, base, cells, rest)
  {
    if Matches(mode, line) {
      RowSpelled(mode, line);
    }
    if base, cells, rest :| Spells(mode, line, base, cells, rest) {
      SpelledMatches(mode, line, base, cells, rest);
    }
  }

  lemma RowSpelled(mode: Mode, line: string)
    requires Matches(mode, line)
    ensures exists base, cells, rest :: Spells(mode, line, base, cells, rest)
  {
    var n := mode.Columns();
    assert CellMatches(mode, line, n - 1);
    var cells, rest := Values(mode, line), line[Start(mode, n)..];
    CellsFound(mode, line, n);
    assert cells[..n] == cells;
    forall j | 0 <= j < n ensures IsCell(mode, cells[j]) {
      assert CellMatches(mode, line, j);
      AllDigits(cells[j]);
    }
    var base := 16 * DigitValue(line[0]) + if line[1] == '0' then 0 else 8;
    DigitsAre(line[0]);
    AddressIs(line, base);
    assert line == line[..Start(mode, n)] + rest;
    assert Spells(mode, line, base, cells, rest);
  }

  lemma AddressIs(line: string, base: nat)
    requires |line| >= 3 && LowerHex(line[0]) && line[2] == ':' && base < 0x100
    requires DigitValue(line[0]) == base / 16
    requires (line[1] == '0' && base % 16 == 0) || (line[1] == '8' && base % 16 == 8)
    ensures line[..3] == [HEX_DIGITS[base / 16], HEX_DIGITS[base % 16], ':']
  {
    DigitsAre(line[0]);
  }

  lemma SpelledMatches(mode: Mode, line: string, base: nat, cells: seq<string>, rest: string)
    requires Spells(mode, line, base, cells, rest)
    ensures Matches(mode, line) && Values(mode, line) == cells && Hex(line[..2]) == base
  {
    var head := [HEX_DIGITS[base / 16], HEX_DIGITS[base % 16], ':'];
    forall j | 0 <= j < |cells| ensures CellMatches(mode, line, j) && Values(mode, line)[j] == cells[j] {
      assert IsCell(mode, cells[j]);
      CellFound(mode, head, cells, rest, j);
      AllDigits(cells[j]);
    }
    AddressRead(base, line);
  }

  lemma AddressRead(base: nat, line: string)
    requires base < 0x100 && |line| >= 3 && line[0] == HEX_DIGITS[base / 16] && line[1] == HEX_DIGITS[base % 16]
    ensures LowerHex(line[0]) && Hex(line[..2]) == base
    ensures base % 16 == 0 ==> line[1] == '0'
    ensures base % 16 == 8 ==> line[1] == '8'
  {
    DigitsAre(line[0]);
    TableDigit(base / 16);
    TableDigit(base % 16);
    TwoDigits(base);
    assert line[..2] == Digits(base, 2);
  }

  lemma TableDigit(n: nat)
    requires n < 16
    ensures HEX_DIGITS[n] == Digit(n)
  {
    if n < 10 {} else {}
  }

  lemma TwoDigits(base: nat)
    requires base < 0x100
    ensures Digits(base, 2) == [Digit(base / 16), Digit(base % 16)] && Hex(Digits(base, 2)) == base
  {
    assert Digits(base / 16 / 16, 0) + [Digit(base / 16 % 16)] == [Digit(base / 16)];
    assert Power16(2) == 0x100;
    HexOfDigits(base, 2);
  }

  /** What is restored from any line: the known values of a row, in order, each to its register; nothing from any other
      line. */
  lemma LineRestores(line: string)
    ensures forall mode, base, cells, rest :: Spells(mode, line, base, cells, rest) ==>
              LineSets(line) == Flatten(ValueSets(mode, base, cells))
    ensures (forall mode, base, cells, rest :: !Spells(mode, line, base, cells, rest)) ==> LineSets(line) == []
  {
    forall mode, base, cells, rest | Spells(mode, line, base, cells, rest)
      ensures LineSets(line) == Flatten(ValueSets(mode, base, cells))
    {
      SpelledMatches(mode, line, base, cells, rest);
      if mode.WordRows? && Matches(ByteRows, line) {
        NotBoth(line);
      }
    }
    RowDecided(ByteRows, line);
    RowDecided(WordRows, line);
  }

  /** No line is a row of bytes and a row of words. */
  lemma NotBoth(line: string)
    requires Matches(ByteRows, line)
    ensures !Matches(WordRows, line)
  {
    assert CellMatches(ByteRows, line, 1);
    NotWords(line);
  }
}
