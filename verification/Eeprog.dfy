/** The byte programmer: eepromer/24cXX.c and the copy loops of eepromer/eeprog.c, on a chip whose
    address pointer advances with every byte.

    A bus transfer is the bytes on the wire after the slave address.  Transfers succeed: on an error
    the program exits. */
module Eeprog {
  import opened Bytes

  /** EEPROM_TYPE_8BIT_ADDR, EEPROM_TYPE_16BIT_ADDR, or anything else. */
  datatype Kind = Addr8 | Addr16 | Unknown {
    function Size(): (n: nat)
      ensures n > 0
    {
      if Addr16? then 0x10000 else 0x100
    }

    /** How many address bytes a transfer starts with. */
    function AddressBytes(): nat {
      if Addr16? then 2 else 1
    }
  }

  // ---- What is on the wire ---------------------------------------------------------------------------

  /** i2c_smbus_write_word_data: command, then the word low byte first, as in section 5.5.4 of the
      SMBus 2.0 specification. */
  function WordWire(command: Byte, word: nat): seq<Byte>
    requires word < 0x10000
  {
    [command, word % 0x100, word / 0x100]
  }

  /** buf[2] << 8 | buf[1] */
  function Pack(low: Byte, high: Byte): (word: nat)
    ensures word < 0x10000
  {
    (high as int) * 0x100 + low
  }

  /** The packing undoes the byte order of the word: the wire gets address high, address low, data. */
  lemma WordInOrder(a: Byte, b: Byte, c: Byte)
    ensures WordWire(a, Pack(b, c)) == [a, b, c]
  {
  }

  /** The address bytes of a cell, as the chip of this kind expects them. */
  function AddressWire(kind: Kind, addr: nat): seq<Byte> {
    if kind.Addr16? then [addr / 0x100 % 0x100, addr % 0x100] else [addr % 0x100]
  }

  /** Where address bytes set the pointer. */
  function PointerOf(kind: Kind, wire: seq<Byte>): (p: nat)
    requires |wire| >= kind.AddressBytes()
    ensures p < kind.Size()
  {
    if kind.Addr16? then (wire[0] as int) * 0x100 + wire[1] else wire[0]
  }

  lemma HighLow(addr: nat)
    ensures addr / 0x100 % 0x100 * 0x100 + addr % 0x100 == addr % 0x10000
  {
    var q, r := addr / 0x100, addr % 0x100;
    assert addr == (q / 0x100) * 0x10000 + (q % 0x100) * 0x100 + r;
  }

  lemma AddressRoundTrip(kind: Kind, addr: nat)
    ensures PointerOf(kind, AddressWire(kind, addr)) == addr % kind.Size()
  {
    HighLow(addr);
  }

  // ---- Cells ---------------------------------------------------------------------------------------------

  type Cells = m: seq<Byte> | |m| > 0 witness [0]

  /** The pointer advances, and wraps at the end of the chip. */
  function Next(n: nat, p: nat): (q: nat)
    requires p < n
    ensures q < n
  {
    if p + 1 == n then 0 else p + 1
  }

  /** The cell j places after p, at most once round the chip. */
  function Cell(n: nat, p: nat, j: nat): (q: nat)
    requires p < n && j <= n
    ensures q < n
  {
    if p + j < n then p + j else p + j - n
  }

  /** The cells after data has been written from p on. */
  function Programmed(m: Cells, p: nat, data: seq<Byte>): (w: Cells)
    requires p < |m|
    ensures |w| == |m|
    decreases data
  {
    if data == [] then m else Programmed(m[p := data[0]], Next(|m|, p), data[1..])
  }

  /** n bytes read one after the other from p on. */
  function Dumped(m: Cells, p: nat, n: nat): (data: seq<Byte>)
    requires p < |m|
    ensures |data| == n
    decreases n
  {
    if n == 0 then [] else [m[p]] + Dumped(m, Next(|m|, p), n - 1)
  }

  lemma {:induction false} DumpedAt(m: Cells, p: nat, n: nat, j: nat)
    requires p < |m| && j < n && j <= |m|
    ensures Dumped(m, p, n)[j] == m[Cell(|m|, p, j)]
    decreases n
  {
    var rest := Dumped(m, Next(|m|, p), n - 1);
    if j == 0 {
      assert ([m[p]] + rest)[0] == m[p];
    } else {
      DumpedAt(m, Next(|m|, p), n - 1, j - 1);
      assert ([m[p]] + rest)[j] == rest[j - 1];
      assert Cell(|m|, Next(|m|, p), j - 1) == Cell(|m|, p, j);
    }
  }

  /** Cells that are not written keep their value. */
  lemma {:induction false} Untouched(m: Cells, p: nat, data: seq<Byte>, x: nat)
    requires p < |m| && x < |m| && |data| <= |m| && forall j :: 0 <= j < |data| ==> Cell(|m|, p, j) != x
    ensures Programmed(m, p, data)[x] == m[x]
    decreases data
  {
    if data != [] {
      assert Cell(|m|, p, 0) != x;
      forall j | 0 <= j < |data[1..]| ensures Cell(|m|, Next(|m|, p), j) != x {
        assert Cell(|m|, p, j + 1) != x;
      }
      Untouched(m[p := data[0]], Next(|m|, p), data[1..], x);
    }
  }

  lemma {:induction false} Reached(m: Cells, p: nat, data: seq<Byte>, j: nat)
    requires p < |m| && j < |data| <= |m|
    ensures Programmed(m, p, data)[Cell(|m|, p, j)] == data[j]
    decreases data
  {
    if j == 0 {
      Untouched(m[p := data[0]], Next(|m|, p), data[1..], p);
    } else {
      Reached(m[p := data[0]], Next(|m|, p), data[1..], j - 1);
    }
  }

  /** What is programmed is dumped again, from any address, also across the end of the chip. */
  lemma ProgramThenDump(m: Cells, p: nat, data: seq<Byte>)
    requires p < |m| && |data| <= |m|
    ensures Dumped(Programmed(m, p, data), p, |data|) == data
  {
    forall j | 0 <= j < |data| ensures Dumped(Programmed(m, p, data), p, |data|)[j] == data[j] {
      DumpedAt(Programmed(m, p, data), p, |data|, j);
      Reached(m, p, data, j);
    }
  }

  /** One byte more than the chip holds is dumped again only if the first and the last byte agree. */
  lemma ProgramTooMuch(m: Cells, p: nat, data: seq<Byte>)
    requires p < |m| && |data| == |m| + 1
    ensures Dumped(Programmed(m, p, data), p, |data|) == data <==> data[0] == data[|m|]
  {
    var n, q, w := |m|, Next(|m|, p), Programmed(m, p, data);
    ProgramThenDump(m[p := data[0]], q, data[1..]);
    var d := Dumped(w, p, |data|);
    DumpedAt(w, p, |data|, 0);
    DumpedAt(w, p, |data|, n);
    assert d == [d[0]] + data[1..] && data == [data[0]] + data[1..];
    assert d[n] == data[n];
  }

  /** An address that is counted up is masked to the pointer's next position. */
  lemma CountedUp(kind: Kind, addr: nat)
    ensures (addr + 1) % kind.Size() == Next(kind.Size(), addr % kind.Size())
  {
  }

  // ---- The chip and the program ------------------------------------------------------------------------------

  class Eeprom {
    const kind: Kind
    const cells: array<Byte>
    var pointer: nat

    ghost predicate Valid()
      reads this
    {
      cells.Length == kind.Size() && pointer < kind.Size()
    }

    /** A write transfer: address bytes, then data that goes to the cells from there on. */
    method Receive(wire: seq<Byte>)
      requires Valid() && |wire| >= kind.AddressBytes()
      modifies `pointer, cells
      ensures Valid()
      ensures var start := PointerOf(kind, wire);
        var data := wire[kind.AddressBytes()..];
        cells[..] == Programmed(old(cells[..]), start, data)
        && (data == [] ==> pointer == start)
    {
      pointer := PointerOf(kind, wire);
      ghost var start, was := pointer, cells[..];
      var i := kind.AddressBytes();
      while i < |wire|
        invariant kind.AddressBytes() <= i <= |wire| && Valid()
        invariant Programmed(was, start, wire[kind.AddressBytes()..]) == Programmed(cells[..], pointer, wire[i..])
        invariant i == kind.AddressBytes() ==> pointer == start
      {
        assert wire[i..][0] == wire[i] && wire[i..][1..] == wire[i + 1..];
        ghost var m := cells[..];
        cells[pointer] := wire[i];
        assert cells[..] == m[pointer := wire[i]];
        pointer := Next(cells.Length, pointer);
        i := i + 1;
      }
    }

    /** A read transfer of one byte. */
    method Send() returns (r: Byte)
      requires Valid()
      modifies `pointer
      ensures Valid() && r == cells[old(pointer)] && pointer == Next(cells.Length, old(pointer))
    {
      r := cells[pointer];
      pointer := Next(cells.Length, pointer);
    }

    /** eeprom_write_byte: 0, or -1 for an unknown type. */
    method WriteByte(memAddr: nat, data: Byte) returns (r: int)
      requires Valid()
      modifies `pointer, cells
      ensures Valid() && r == if kind.Unknown? then -1 else 0
      ensures cells[..] == if kind.Unknown? then old(cells[..]) else old(cells[..])[memAddr % kind.Size() := data]
    {
      AddressRoundTrip(kind, memAddr);
      r := 0;
      match kind
      case Addr8 =>
        Receive([memAddr % 0x100, data]);
      case Addr16 =>
        var high, low: Byte := memAddr / 0x100 % 0x100, memAddr % 0x100;
        WordInOrder(high, low, data);
        Receive(WordWire(high, Pack(low, data)));
      case Unknown =>
        r := -1;
    }

    /** eeprom_read_byte: the byte, or -1 for an unknown type. */
    method ReadByte(memAddr: nat) returns (r: int)
      requires Valid()
      modifies `pointer, cells
      ensures Valid() && cells[..] == old(cells[..])
      ensures kind.Unknown? ==> r == -1
      ensures !kind.Unknown? ==> r == cells[memAddr % kind.Size()]
                                 && pointer == Next(kind.Size(), memAddr % kind.Size())
    {
      AddressRoundTrip(kind, memAddr);
      if kind.Unknown? { return -1; }
      Receive(AddressWire(kind, memAddr));
      r := Send();
    }

    /** read_from_eeprom without -x: one addressed read, then reads at the pointer.  size is not zero. */
    method ReadFromEeprom(addr: nat, size: nat) returns (stdout: seq<Byte>)
      requires Valid() && !kind.Unknown? && size > 0
      modifies `pointer, cells
      ensures Valid() && cells[..] == old(cells[..])
      ensures stdout == Dumped(cells[..], addr % kind.Size(), size)
    {
      var ch := ReadByte(addr);
      stdout := [ch];
      var left := size - 1;
      while left != 0
        invariant 0 <= left < size && Valid() && cells[..] == old(cells[..])
        invariant Dumped(cells[..], addr % kind.Size(), size) == stdout + Dumped(cells[..], pointer, left)
      {
        var b := Send();
        stdout := stdout + [b];
        left := left - 1;
      }
    }

    /** write_to_eeprom */
    method WriteToEeprom(addr: nat, stdin: seq<Byte>)
      requires Valid() && !kind.Unknown?
      modifies `pointer, cells
      ensures Valid()
      ensures cells[..] == Programmed(old(cells[..]), addr % kind.Size(), stdin)
    {
      var at: nat, i := addr, 0;
      assert stdin[0..] == stdin;
      while i < |stdin|
        invariant 0 <= i <= |stdin| && Valid()
        invariant Programmed(old(cells[..]), addr % kind.Size(), stdin)
               == Programmed(cells[..], at % kind.Size(), stdin[i..])
      {
        assert stdin[i..][0] == stdin[i] && stdin[i..][1..] == stdin[i + 1..];
        CountedUp(kind, at);
        var _ := WriteByte(at, stdin[i]);
        at := at + 1;
        i := i + 1;
      }
    }

    /** Writing 1 to Size bytes and reading as many from the same address gives them back. */
    method WriteThenRead(addr: nat, data: seq<Byte>) returns (stdout: seq<Byte>)
      requires Valid() && !kind.Unknown? && 0 < |data| <= kind.Size()
      modifies `pointer, cells
      ensures Valid() && stdout == data
    {
      WriteToEeprom(addr, data);
      ProgramThenDump(old(cells[..]), addr % kind.Size(), data);
      stdout := ReadFromEeprom(addr, |data|);
    }
  }
}
