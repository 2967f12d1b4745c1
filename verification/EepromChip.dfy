/** A 32 KiB serial EEPROM behind an I2C bus, as eepromer/eepromer.c addresses it. */
module EepromChip {
  import opened Bytes


  const SIZE := 32768
  const PAGE := 64

  type Memory = m: seq<Byte> | |m| == SIZE witness seq(SIZE, _ => 0)

  /** made_address: the two address bytes, high one first.  The chip ignores the top bit. */
  function MadeAddress(addr: nat): (r: (Byte, Byte)) {
    ((addr / 256) % 256 % 128, addr % 256)
  }

  /** Where the address bytes point. */
  function Pointer(a: (Byte, Byte)): nat {
    a.0 * 256 + a.1
  }

  lemma HighByte(q: nat)
    ensures exists k: nat :: q == 128 * k + q % 256 % 128
  {
    assert q == 128 * (2 * (q / 256) + q % 256 / 128) + q % 256 % 128;
  }

  lemma Remainder(addr: nat, k: nat, r: nat)
    requires addr == SIZE * k + r && r < SIZE
    ensures addr % SIZE == r
  {
  }

  lemma AddressWraps(addr: nat)
    ensures Pointer(MadeAddress(addr)) == addr % SIZE
  {
    var q := addr / 256;
    HighByte(q);
    var k: nat :| q == 128 * k + q % 256 % 128;
    Remainder(addr, k, 256 * (q % 256 % 128) + addr % 256);
  }

  /** Where byte j of a write to `addr` lands.  A chip with page rolling stays in the page of the
      first byte; a flat one goes on to the next address, and from the last to the first. */
  function Target(rolling: bool, addr: nat, j: nat): (t: nat)
    requires addr < SIZE
    ensures t < SIZE
  {
    if rolling then addr - addr % PAGE + (addr % PAGE + j) % PAGE else (addr + j) % SIZE
  }

  /** The memory after the bytes of one write, one after the other. */
  function Written(rolling: bool, m: Memory, addr: nat, data: seq<Byte>): Memory
    requires addr < SIZE
  {
    if data == [] then m else
      var k := |data| - 1;
      Written(rolling, m, addr, data[..k])[Target(rolling, addr, k) := data[k]]
  }

  /** A sequential read runs through the whole memory, whatever the kind of chip. */
  function ReadAt(m: Memory, addr: nat, n: nat): (data: seq<Byte>)
    ensures |data| == n
  {
    seq(n, j requires 0 <= j => m[(addr + j) % SIZE])
  }

  /** The write stays where a flat chip and one with page rolling put the same bytes. */
  predicate Plain(rolling: bool, addr: nat, n: nat) {
    addr + n <= SIZE && (rolling ==> addr % PAGE + n <= PAGE)
  }

  lemma PlainTarget(rolling: bool, addr: nat, n: nat, j: nat)
    requires addr < SIZE && Plain(rolling, addr, n) && j < n
    ensures Target(rolling, addr, j) == addr + j
  {
  }

  /** A plain write replaces the bytes from addr on, and nothing else. */
  lemma {:induction false} WrittenPlain(rolling: bool, m: Memory, addr: nat, data: seq<Byte>)
    requires addr < SIZE && Plain(rolling, addr, |data|)
    ensures Written(rolling, m, addr, data) == m[..addr] + data + m[addr + |data|..]
  {
    if data == [] {
      assert m == m[..addr] + m[addr..];
    } else {
      var k := |data| - 1;
      WrittenPlain(rolling, m, addr, data[..k]);
      PlainTarget(rolling, addr, |data|, k);
      var w := m[..addr] + data[..k] + m[addr + k..];
      assert w[addr + k := data[k]] == m[..addr] + data + m[addr + |data|..];
    }
  }

  lemma ReadSplits(m: Memory, addr: nat, n: nat, k: nat)
    requires k <= n
    ensures ReadAt(m, addr, n) == ReadAt(m, addr, k) + ReadAt(m, addr + k, n - k)
  {
  }

  lemma ReadInside(m: Memory, addr: nat, n: nat)
    requires addr + n <= SIZE
    ensures ReadAt(m, addr, n) == m[addr..addr + n]
  {
  }
}
