/** The output of i2cdump is a hexdump: what decode-dimms reads from it are the registers. */
module DumpImage {
  import opened Bytes
  import opened HexText
  import opened HexDump
  import opened HexLines
  import Parts
  import R = RegisterDump

  function Space(i: nat): string { " " }

  function Values(row: seq<Byte>): (cells: seq<R.Cell>)
    ensures |cells| == |row|
  {
    seq(|row|, i requires 0 <= i < |row| => R.Value(row[i] as nat))
  }

  function Tail(row: seq<Byte>): string {
    " " + ("   " + R.Characters(Values(row)))
  }

  /** How i2cdump lays out a row of bytes. */
  function Look(): Layout {
    Layout(2, ByteCells, true, " ", Space, Tail)
  }

  lemma LookSpaced()
    ensures Spaced(Look())
  {
    assert Blanks(" ");
  }

  lemma Regroup(a: string, b: string, c: string, d: string)
    ensures a + (b + (c + d)) == (a + b + c) + d
  {
  }

  lemma {:induction false} OneCellMore(cells: seq<string>, cell: string, i: nat, tail: string)
    requires cells != []
    ensures CellsText(cells + [cell], Space, i, tail) == CellsText(cells, Space, i, " " + (cell + tail))
    decreases |cells|
  {
    var more := cells + [cell];
    if |cells| == 1 {
      assert more[1..] == [cell];
    } else {
      assert more[1..] == cells[1..] + [cell];
      OneCellMore(cells[1..], cell, i + 1, tail);
    }
  }

  /** Both printers put the same text between the address and the characters. */
  lemma {:induction false} SameCells(row: seq<Byte>, tail: string)
    requires row != []
    ensures R.CellsText(R.ByteRows, Values(row)) + tail == " " + CellsText(Bytewise(row), Space, 0, tail)
    decreases |row|
  {
    var n := |row| - 1;
    var before, cell := row[..n], Digits(row[n], 2);
    assert Values(row)[..n] == Values(before) && Bytewise(row) == Bytewise(before) + [cell];
    assert R.CellsText(R.ByteRows, Values(row)) == R.CellsText(R.ByteRows, Values(before)) + (" " + cell);
    if n == 0 {
      assert R.CellsText(R.ByteRows, []) == "";
      assert Bytewise(row) == [cell];
    } else {
      SameCells(before, " " + (cell + tail));
      OneCellMore(Bytewise(before), cell, 0, tail);
      Moved(R.CellsText(R.ByteRows, Values(before)), cell, tail);
    }
  }

  lemma Moved(a: string, cell: string, tail: string)
    ensures a + (" " + cell) + tail == a + (" " + (cell + tail))
  {
  }

  /** A row of a whole dump of readable registers. */
  lemma SameRow(regs: seq<Byte>, base: nat)
    requires |regs| == 0x100 && base + 16 <= 0x100
    ensures R.PrintedRow(R.ByteRows, Known(regs), 0, 0xff, base) == RowText(Look(), base, regs[base..base + 16])
  {
    var row := regs[base..base + 16];
    var cells := R.RowCells(R.ByteRows, Known(regs), 0, 0xff, base);
    forall j | 0 <= j < 16 ensures cells[j] == Values(row)[j] {
      assert cells[j] == R.CellOf(Known(regs), 0, 0xff, base + j) && row[j] == regs[base + j];
    }
    assert cells == Values(row);
    var chars := "   " + R.Characters(cells);
    SameCells(row, " " + chars);
    Around(Digits(base, 2) + ":", R.CellsText(R.ByteRows, cells), chars, CellsText(Bytewise(row), Space, 0, " " + chars));
  }

  lemma Around(head: string, cells: string, chars: string, text: string)
    requires cells + (" " + chars) == " " + text
    ensures head + cells + " " + chars == head + " " + text
  {
    assert head + cells + " " + chars == head + (cells + (" " + chars));
  }

  function Rows(regs: seq<Byte>): (rows: seq<Placed>)
    requires |regs| == 0x100
    ensures |rows| == 16
  {
    seq(16, i requires 0 <= i < 16 => Placed(16 * i, regs[16 * i..16 * i + 16]))
  }

  lemma RowsPrintable(order: Order, regs: seq<Byte>)
    requires |regs| == 0x100
    ensures AllPrintable(order, Look(), Rows(regs))
  {
    LookSpaced();
    assert Power16(2) == 0x100;
  }

  /** The registers are what the rows lay out. */
  lemma LaidIsKnown(regs: seq<Byte>, b: seq<Option<nat>>)
    requires |regs| == 0x100 && Laid(Rows(regs), b)
    ensures b == Known(regs)
  {
    var rows := Rows(regs);
    assert rows[15].addr + |rows[15].row| == 0x100;
    forall x: nat | x < 0x100 ensures b[x] == Some(regs[x] as nat) {
      var i := x / 16;
      assert Covers(rows[i], x) && forall j :: i < j < 16 ==> !Covers(rows[j], x);
      assert rows[i].row[x - rows[i].addr] == regs[x];
    }
  }

  /** Line 1 + i of the dump is row i. */
  lemma DumpLine(regs: seq<Byte>, lines: seq<string>, i: nat)
    requires |regs| == 0x100 && R.IsDump(R.ByteRows, Known(regs), 0, 0xff, lines) && i < 16
    ensures |lines| == 17 && lines[1 + i] == RowText(Look(), 16 * i, regs[16 * i..16 * i + 16])
  {
    R.RowsAre(R.ByteRows, 0, 0xff, 0);
    assert lines[1..][i] == lines[1 + i];
    SameRow(regs, 16 * i);
  }

  lemma FirstAndRest<T>(s: seq<T>, rest: seq<T>)
    requires |s| == 1 + |rest| && forall i :: 0 <= i < |rest| ==> s[1 + i] == rest[i]
    ensures s == [s[0]] + rest
  {
  }

  /** The first line is one that the reader skips. */
  lemma HeaderSkipped(mode: R.Mode, regs: seq<Option<nat>>, lines: seq<string>)
    requires |regs| == 0x100 && R.IsDump(mode, regs, 0, 0xff, lines)
    ensures Headless([lines[0]])
  {
    NoDigitFirst(lines[0]);
  }

  lemma DumpLines(order: Order, regs: seq<Byte>, lines: seq<string>)
    requires |regs| == 0x100 && R.IsDump(R.ByteRows, Known(regs), 0, 0xff, lines)
    requires AllPrintable(order, Look(), Rows(regs))
    ensures lines == [lines[0]] + Lines(order, Look(), Rows(regs))
  {
    var rows := Lines(order, Look(), Rows(regs));
    DumpLine(regs, lines, 0);
    forall i | 0 <= i < 16 ensures lines[1 + i] == rows[i] { DumpLine(regs, lines, i); }
    FirstAndRest(lines, rows);
  }

  /** i2cdump's dump of all registers of a chip, with its line over the columns, read by read_hexdump. */
  lemma DumpIsHexdump(order: Order, regs: seq<Byte>, lines: seq<string>)
    requires |regs| == 0x100 && R.IsDump(R.ByteRows, Known(regs), 0, 0xff, lines)
    ensures Result(Turns(order, START, lines)) == Some(Known(regs))
  {
    RowsPrintable(order, regs);
    DumpLines(order, regs, lines);
    HeaderSkipped(R.ByteRows, Known(regs), lines);
    RowsAnywhere(order, Look(), Rows(regs), [lines[0]]);
    LaidIsKnown(regs, Result(Turns(order, START, lines)).value);
  }
}
