/** The file store of eepromer/eepromer.c: a file kept in an EEPROM behind a small inode.

    The chip and the bus are the object's state: I2C_RDWR transfers whole messages and answers with
    `answer`, or fails and transfers nothing if that is negative.  The host is little-endian. */
module Eepromer {
  import opened Bytes
  import opened EepromChip

  const MAX_BLK_SIZE := 64
  const INT_RANGE := 0x1_0000_0000

  // ---- The inode -------------------------------------------------------------------------------------

  /** A 32-bit int as it lies in memory. */
  function Int32(n: int): seq<Byte> {
    Le32(n % INT_RANGE)
  }

  function ToInt32(b: seq<Byte>): int
    requires |b| == 4
  {
    var u := U32(b, 0);
    if u < INT_RANGE / 2 then u else u - INT_RANGE
  }

  lemma Int32ReadsBack(n: int)
    requires -INT_RANGE / 2 <= n < INT_RANGE / 2
    ensures ToInt32(Int32(n)) == n
  {
    assert Int32(n)[0..4] == Int32(n);
    Le32ReadsBack(Int32(n), 0, n % INT_RANGE);
  }

  /** struct mini_inode.  tail is the data member and any padding after it. */
  datatype Inode = Inode(timestamp: seq<Byte>, dataLen: int, tail: seq<Byte>) {
    function Bytes(): seq<Byte> {
      timestamp + Int32(dataLen) + tail
    }
  }

  /** sizeof(struct mini_inode), by the size of time_t: an 8-byte time_t aligns the struct to 8. */
  function HeadSize(timeSize: nat): nat {
    if timeSize == 4 then 64 else 72
  }

  predicate Fits(inode: Inode, timeSize: nat) {
    && (timeSize == 4 || timeSize == 8) && |inode.timestamp| == timeSize
    && |inode.tail| == HeadSize(timeSize) - timeSize - 4
  }

  function InodeAt(m: Memory, timeSize: nat): (inode: Inode)
    requires timeSize == 4 || timeSize == 8
    ensures Fits(inode, timeSize)
  {
    Inode(m[..timeSize], ToInt32(m[timeSize..timeSize + 4]), m[timeSize + 4..HeadSize(timeSize)])
  }

  lemma InodeReadsBack(m: Memory, inode: Inode, timeSize: nat)
    requires Fits(inode, timeSize) && -INT_RANGE / 2 <= inode.dataLen < INT_RANGE / 2
    requires m[..HeadSize(timeSize)] == inode.Bytes()
    ensures InodeAt(m, timeSize) == inode
  {
    Int32ReadsBack(inode.dataLen);
    var b := inode.Bytes();
    assert m[..timeSize] == b[..timeSize] == inode.timestamp;
    assert m[timeSize..timeSize + 4] == b[timeSize..timeSize + 4] == Int32(inode.dataLen);
    assert m[timeSize + 4..HeadSize(timeSize)] == b[timeSize + 4..] == inode.tail;
  }

  // ---- What is stored ------------------------------------------------------------------------------------

  /** The memory after the blocks of a file have been written from addr on, 64 bytes at a time.  The
      last block is the one that is not full; it may be empty. */
  function Blocks(rolling: bool, m: Memory, addr: nat, file: seq<Byte>): Memory
    decreases |file|
  {
    if |file| < MAX_BLK_SIZE then Written(rolling, m, addr % SIZE, file)
    else Blocks(rolling, Written(rolling, m, addr % SIZE, file[..MAX_BLK_SIZE]), addr + MAX_BLK_SIZE, file[MAX_BLK_SIZE..])
  }

  /** The file, then its inode at the start. */
  function Stored(rolling: bool, m: Memory, head: nat, file: seq<Byte>, inode: Inode): Memory {
    Written(rolling, Blocks(rolling, m, head, file), 0, inode.Bytes())
  }

  function Max0(n: int): nat {
    if n < 0 then 0 else n
  }

  /** What the inode says is stored. */
  function Content(m: Memory, timeSize: nat): seq<Byte>
    requires timeSize == 4 || timeSize == 8
  {
    ReadAt(m, HeadSize(timeSize), Max0(InodeAt(m, timeSize).dataLen))
  }

  lemma Patches<T>(m: seq<T>, at: nat, a: seq<T>, b: seq<T>)
    requires at + |a| + |b| <= |m|
    ensures var w := m[..at] + a + m[at + |a|..];
      w[..at + |a|] + b + w[at + |a| + |b|..] == m[..at] + (a + b) + m[at + |a| + |b|..]
  {
    var w := m[..at] + a + m[at + |a|..];
    assert w[..at + |a|] == m[..at] + a;
    assert w[at + |a| + |b|..] == m[at + |a| + |b|..];
  }

  lemma {:induction false} BlocksPlain(rolling: bool, m: Memory, addr: nat, file: seq<Byte>)
    requires addr + |file| <= SIZE && (rolling ==> addr % PAGE == 0)
    ensures Blocks(rolling, m, addr, file) == m[..addr] + file + m[addr + |file|..]
    decreases |file|
  {
    if |file| < MAX_BLK_SIZE {
      ShortBlock(rolling, m, addr, file);
    } else {
      var block, rest := file[..MAX_BLK_SIZE], file[MAX_BLK_SIZE..];
      NextPage(addr);
      var w := Written(rolling, m, addr, block);
      BlocksPlain(rolling, w, addr + MAX_BLK_SIZE, rest);
      WrittenPlain(rolling, m, addr, block);
      Patches(m, addr, block, rest);
      assert file == block + rest;
    }
  }

  lemma NextPage(addr: nat)
    requires addr < SIZE
    ensures addr % SIZE == addr && (addr + MAX_BLK_SIZE) % PAGE == addr % PAGE
  {
  }

  lemma PlainBlock(rolling: bool, addr: nat, n: nat)
    requires 0 < n <= MAX_BLK_SIZE && addr + n <= SIZE && (rolling ==> addr % PAGE == 0)
    ensures addr % SIZE == addr && Plain(rolling, addr, n)
  {
  }

  lemma ShortBlock(rolling: bool, m: Memory, addr: nat, file: seq<Byte>)
    requires addr + |file| <= SIZE && (rolling ==> addr % PAGE == 0) && |file| < MAX_BLK_SIZE
    ensures Written(rolling, m, addr % SIZE, file) == m[..addr] + file + m[addr + |file|..]
  {
    if file == [] {
      assert m == m[..addr] + m[addr..];
    } else {
      PlainBlock(rolling, addr, |file|);
      WrittenPlain(rolling, m, addr, file);
    }
  }

  /** What a store makes of the memory, on a flat chip or with an inode of one page. */
  lemma StoredPlain(rolling: bool, m: Memory, timeSize: nat, file: seq<Byte>, inode: Inode)
    requires Fits(inode, timeSize) && HeadSize(timeSize) + |file| <= SIZE && (rolling ==> timeSize == 4)
    ensures Stored(rolling, m, HeadSize(timeSize), file, inode) == inode.Bytes() + file + m[HeadSize(timeSize) + |file|..]
  {
    var head := HeadSize(timeSize);
    BlocksPlain(rolling, m, head, file);
    var w := Blocks(rolling, m, head, file);
    WrittenPlain(rolling, w, 0, inode.Bytes());
    assert w[head..] == file + m[head + |file|..];
  }

  /** A file that fits is read back as it was stored; nothing behind it changes. */
  lemma StoreThenRead(rolling: bool, m: Memory, timeSize: nat, file: seq<Byte>, inode: Inode)
    requires Fits(inode, timeSize) && HeadSize(timeSize) + |file| <= SIZE && (rolling ==> timeSize == 4)
    requires inode.dataLen == |file|
    ensures var s := Stored(rolling, m, HeadSize(timeSize), file, inode);
      Content(s, timeSize) == file && s[HeadSize(timeSize) + |file|..] == m[HeadSize(timeSize) + |file|..]
  {
    var head := HeadSize(timeSize);
    StoredPlain(rolling, m, timeSize, file, inode);
    var s := Stored(rolling, m, head, file, inode);
    assert s[..head] == inode.Bytes();
    InodeReadsBack(s, inode, timeSize);
    ReadInside(s, head, |file|);
  }

  /** With a 4-byte time_t page rolling makes no difference: no write leaves its page. */
  lemma RollingAgrees(m: Memory, file: seq<Byte>, inode: Inode)
    requires Fits(inode, 4) && HeadSize(4) + |file| <= SIZE
    ensures Stored(true, m, HeadSize(4), file, inode) == Stored(false, m, HeadSize(4), file, inode)
  {
    StoredPlain(true, m, 4, file, inode);
    StoredPlain(false, m, 4, file, inode);
  }

  /** Page rolling keeps a write in the page it starts in. */
  lemma {:induction false} RollingStays(m: Memory, addr: nat, data: seq<Byte>, x: nat)
    requires addr < SIZE && x < SIZE && x / PAGE != addr / PAGE
    ensures Written(true, m, addr, data)[x] == m[x]
  {
    if data != [] {
      RollingStays(m, addr, data[..|data| - 1], x);
    }
  }

  /** With an 8-byte time_t the first block starts 8 bytes into a page, and byte 56 of a short file is
      read from the next page, where nothing was written. */
  lemma RollingLoses(m: Memory, file: seq<Byte>, inode: Inode)
    requires Fits(inode, 8) && 56 < |file| < MAX_BLK_SIZE
    requires Content(Stored(true, m, HeadSize(8), file, inode), 8) == file
    ensures m[128] == file[56]
  {
    var w := Written(true, m, 72, file);
    RollingStays(m, 72, file, 128);
    RollingStays(w, 0, inode.Bytes(), 128);
    assert Blocks(true, m, 72, file) == w;
  }

  predicate Stores(rolling: bool, timeSize: nat, m: Memory, file: seq<Byte>, inode: Inode) {
    Fits(inode, timeSize) && inode.dataLen == |file| && HeadSize(timeSize) + |file| <= SIZE ==>
      Content(Stored(rolling, m, HeadSize(timeSize), file, inode), timeSize) == file
  }

  /** Every file that fits is read back, on every chip, if and only if the chip is flat or the inode
      fills exactly one page. */
  lemma WhenFilesReadBack(rolling: bool, timeSize: nat)
    requires timeSize == 4 || timeSize == 8
    ensures (forall m: Memory, file: seq<Byte>, inode: Inode :: Stores(rolling, timeSize, m, file, inode))
       <==> (rolling ==> timeSize == 4)
  {
    if rolling && timeSize == 8 {
      var m: Memory, file := Pad(SIZE), Pad(56) + [1];
      var inode := Inode(Pad(8), 57, Pad(60));
      if Stores(rolling, timeSize, m, file, inode) {
        RollingLoses(m, file, inode);
      }
    } else {
      forall m: Memory, file: seq<Byte>, inode: Inode ensures Stores(rolling, timeSize, m, file, inode) {
        if Fits(inode, timeSize) && inode.dataLen == |file| && HeadSize(timeSize) + |file| <= SIZE {
          StoreThenRead(rolling, m, timeSize, file, inode);
        }
      }
    }
  }

  // ---- The program ------------------------------------------------------------------------------------------

  lemma BlocksStep(rolling: bool, m: Memory, addr: nat, rest: seq<Byte>)
    requires |rest| >= MAX_BLK_SIZE
    ensures Blocks(rolling, m, addr, rest) ==
      Blocks(rolling, Written(rolling, m, addr % SIZE, rest[..MAX_BLK_SIZE]), addr + MAX_BLK_SIZE, rest[MAX_BLK_SIZE..])
  {
  }

  /** The first i bytes of the buffer are those at the front of rest. */
  ghost predicate Buffered(buf: array<Byte>, i: nat, rest: seq<Byte>)
    reads buf
  {
    buf.Length == MAX_BLK_SIZE && i < MAX_BLK_SIZE && i <= |rest| && buf[..i] == rest[..i]
  }

  /** `taken` bytes of the input have been read, the last i of them into the buffer. */
  predicate Remains(input: seq<Byte>, taken: nat, i: nat, rest: seq<Byte>) {
    i <= taken <= |input| && rest == input[taken - i..]
  }

  lemma Upcoming(input: seq<Byte>, taken: nat, i: nat, rest: seq<Byte>)
    requires Remains(input, taken, i, rest) && taken < |input|
    ensures i < |rest| && rest[i] == input[taken] && rest[..i + 1] == rest[..i] + [input[taken]]
    ensures rest[i + 1..] == input[taken + 1..]
  {
  }

  class Store {
    /** The chip: its memory and its kind. */
    const mem: array<Byte>
    const rolling: bool
    /** sizeof(time_t). */
    const timeSize: nat
    /** What the I2C_RDWR ioctl answers. */
    const answer: int
    var mInd: Inode

    ghost predicate Valid()
      reads this, mem
    {
      mem.Length == SIZE && Fits(mInd, timeSize)
    }

    function Head(): nat {
      HeadSize(timeSize)
    }

    /** The I2C_RDWR ioctl with the address and the data of a write. */
    method Send(a: (Byte, Byte), data: seq<Byte>) returns (rc: int)
      requires Valid() && Pointer(a) < SIZE
      modifies mem
      ensures rc == answer
      ensures mem[..] == if answer < 0 then old(mem[..]) else Written(rolling, old(mem[..]), Pointer(a), data)
    {
      if answer < 0 { return answer; }
      ghost var was := mem[..];
      var j := 0;
      while j < |data|
        invariant 0 <= j <= |data| && mem[..] == Written(rolling, was, Pointer(a), data[..j])
      {
        assert data[..j + 1][..j] == data[..j];
        mem[Target(rolling, Pointer(a), j)] := data[j];
        j := j + 1;
      }
      assert data[..j] == data;
      rc := answer;
    }

    /** The I2C_RDWR ioctl with the address and a read of n bytes. */
    method Receive(a: (Byte, Byte), n: nat) returns (rc: int, data: seq<Byte>)
      requires Valid() && Pointer(a) < SIZE
      ensures rc == answer
      ensures data == if answer < 0 then [] else ReadAt(mem[..], Pointer(a), n)
    {
      rc, data := answer, [];
      if answer >= 0 {
        data := seq(n, j requires 0 <= j reads this, mem requires Valid() => mem[(Pointer(a) + j) % SIZE]);
      }
    }

    method BlockWrite(eepromAddr: nat, buf: seq<Byte>) returns (err: int)
      requires Valid()
      modifies mem
      ensures err == if answer < 0 then 1 else 0
      ensures mem[..] == if answer < 0 then old(mem[..]) else Written(rolling, old(mem[..]), eepromAddr % SIZE, buf)
    {
      AddressWraps(eepromAddr);
      var rc := Send(MadeAddress(eepromAddr), buf);
      err := if rc < 0 then 1 else 0;
    }

    method BlockRead(eepromAddr: nat) returns (ln: int, buf: seq<Byte>)
      requires Valid()
      ensures ln == answer
      ensures buf == if answer < 0 then [] else ReadAt(mem[..], eepromAddr % SIZE, MAX_BLK_SIZE)
    {
      AddressWraps(eepromAddr);
      ln, buf := Receive(MadeAddress(eepromAddr), MAX_BLK_SIZE);
    }

    method InodeWrite(length: nat, time: seq<Byte>) returns (err: int)
      requires Valid() && |time| == timeSize
      modifies `mInd, mem
      ensures Valid() && mInd == Inode(time, length, old(mInd).tail)
      ensures err == if answer < 0 then 1 else 0
      ensures mem[..] == if answer < 0 then old(mem[..]) else Written(rolling, old(mem[..]), 0, mInd.Bytes())
    {
      mInd := mInd.(timestamp := time, dataLen := length);
      AddressWraps(0);
      var rc := Send(MadeAddress(0), mInd.Bytes());
      err := if rc < 0 then 1 else 0;
    }

    /** A read that fails leaves the inode in memory as it was. */
    method InodeRead() returns (ln: int)
      requires Valid()
      modifies `mInd
      ensures Valid() && ln == answer
      ensures mInd == if answer < 0 then old(mInd) else InodeAt(mem[..], timeSize)
    {
      AddressWraps(0);
      var data;
      ln, data := Receive(MadeAddress(0), Head());
      if ln >= 0 {
        ReadInside(mem[..], 0, Head());
        assert data == mem[..Head()];
        mInd := Inode(data[..timeSize], ToInt32(data[timeSize..timeSize + 4]), data[timeSize + 4..]);
        assert data[timeSize..timeSize + 4] == mem[timeSize..timeSize + 4];
      }
    }

    /** Writes the n bytes in buf, which are the front of what is left of the file, and clears buf. */
    method WriteBuffered(addrCnt: nat, buf: array<Byte>, n: nat, ghost rest: seq<Byte>) returns (err: int)
      requires Valid() && buf.Length == MAX_BLK_SIZE && buf != mem
      requires n <= |rest| && n <= MAX_BLK_SIZE && buf[..n] == rest[..n]
      requires n < MAX_BLK_SIZE ==> n == |rest|
      modifies mem, buf
      ensures Valid() && err == if answer < 0 then 1 else 0
      ensures answer < 0 ==> mem[..] == old(mem[..])
      ensures answer >= 0 && n == MAX_BLK_SIZE ==>
        Blocks(rolling, old(mem[..]), addrCnt, rest) == Blocks(rolling, mem[..], addrCnt + n, rest[n..])
      ensures answer >= 0 && n < MAX_BLK_SIZE ==> Blocks(rolling, old(mem[..]), addrCnt, rest) == mem[..]
    {
      if n == MAX_BLK_SIZE {
        BlocksStep(rolling, mem[..], addrCnt, rest);
      } else {
        assert rest[..n] == rest;
      }
      var block := buf[..n];
      err := BlockWrite(addrCnt, block);
      ghost var m := mem[..];
      forall j | 0 <= j < buf.Length { buf[j] := 0; }
      assert mem[..] == m;
    }

    /** Copies standard input to the chip, a byte at a time into blocks, and then writes the inode. */
    method ContentWrite(stdin: seq<Byte>, time: seq<Byte>) returns (err: int)
      requires Valid() && |time| == timeSize
      modifies `mInd, mem
      ensures Valid() && err == if answer < 0 then 1 else 0
      ensures answer < 0 ==> mem[..] == old(mem[..])
      ensures answer >= 0 ==> mInd == Inode(time, |stdin|, old(mInd).tail)
      ensures answer >= 0 ==> mem[..] == Stored(rolling, old(mem[..]), Head(), stdin, mInd)
    {
      var buf := new Byte[MAX_BLK_SIZE](_ => 0);
      var i, addrCnt, taken := 0, Head(), 0;
      ghost var m0, rest := mem[..], stdin;
      while true
        invariant Valid() && mInd == old(mInd)
        invariant Buffered(buf, i, rest) && Remains(stdin, taken, i, rest)
        invariant addrCnt == Head() + taken - i
        invariant answer < 0 ==> mem[..] == m0
        invariant answer >= 0 ==> Blocks(rolling, m0, Head(), stdin) == Blocks(rolling, mem[..], addrCnt, rest)
        decreases |stdin| - taken
      {
        var delka := if taken < |stdin| then 1 else 0;
        if delka > 0 {
          Upcoming(stdin, taken, i, rest);
          buf[i] := stdin[taken];
          taken := taken + 1;
        }
        if i == MAX_BLK_SIZE - 1 || delka < 1 {
          err := WriteBuffered(addrCnt, buf, i + delka, rest);
          if err != 0 { return 1; }
          addrCnt := addrCnt + i + delka;
          rest := rest[i + delka..];
          i := 0;
          if delka < 1 {
            err := InodeWrite(addrCnt - Head(), time);
            return;
          }
        } else {
          i := i + 1;
        }
      }
    }

    /** Prints what the inode says is stored, a block at a time.  Any answer of the bus but 0 to a block
        read is taken for a failure. */
    method ContentRead() returns (err: int, stdout: seq<Byte>)
      requires Valid()
      requires 0 <= Head() + (if answer < 0 then mInd else InodeAt(mem[..], timeSize)).dataLen
      modifies `mInd
      ensures Valid()
      ensures answer == 0 ==> err == 0 && stdout == Content(mem[..], timeSize)
      ensures answer != 0 ==> stdout == [] && err == if mInd.dataLen >= 0 then 1 else 0
    {
      var _ := InodeRead();
      stdout := [];
      var i, end := Head(), Head() + mInd.dataLen;
      while i <= end
        invariant Valid() && mInd == (if answer < 0 then old(mInd) else InodeAt(mem[..], timeSize))
        invariant Head() <= i && end == Head() + mInd.dataLen
        invariant i > Head() ==> answer == 0 && mInd.dataLen >= 0
        invariant stdout == ReadAt(mem[..], Head(), if i <= end then i - Head() else if answer == 0 || i > Head() then Max0(mInd.dataLen) else 0)
      {
        var ln, buf := BlockRead(i);
        if ln != 0 {
          err := 1;
          return;
        }
        var k := if end - i < MAX_BLK_SIZE then end - i else MAX_BLK_SIZE;
        ReadSplits(mem[..], Head(), i - Head() + k, i - Head());
        ReadWraps(mem[..], i, MAX_BLK_SIZE, k);
        stdout := stdout + buf[..k];
        i := i + MAX_BLK_SIZE;
      }
      err := 0;
    }

    /** Writes zeros over the whole chip. */
    method Erase()
      requires Valid()
      modifies mem
      ensures mem[..] == if answer < 0 then old(mem[..]) else Pad(SIZE)
    {
      var i := 0;
      while i < SIZE
        invariant 0 <= i <= SIZE && i % MAX_BLK_SIZE == 0
        invariant if answer < 0 then mem[..] == old(mem[..]) else mem[..i] == Pad(i)
      {
        WrittenPlain(rolling, mem[..], i, Pad(MAX_BLK_SIZE));
        var err := BlockWrite(i, Pad(MAX_BLK_SIZE));
        if err != 0 { return; }
        i := i + MAX_BLK_SIZE;
      }
      assert mem[..] == mem[..SIZE];
    }

    /** The program's write and read, one after the other: what went in comes out, and nothing behind it changes. */
    method WriteThenRead(stdin: seq<Byte>, time: seq<Byte>) returns (err: int, stdout: seq<Byte>)
      requires Valid() && |time| == timeSize && answer == 0
      requires Head() + |stdin| <= SIZE && (rolling ==> timeSize == 4)
      modifies `mInd, mem
      ensures Valid() && err == 0 && stdout == stdin
      ensures mem[Head() + |stdin|..] == old(mem[Head() + |stdin|..])
    {
      ghost var m := mem[..];
      err := ContentWrite(stdin, time);
      StoredPlain(rolling, m, timeSize, stdin, mInd);
      assert mem[..][..Head()] == mInd.Bytes();
      InodeReadsBack(mem[..], mInd, timeSize);
      StoreThenRead(rolling, m, timeSize, stdin, mInd);
      err, stdout := ContentRead();
    }

    /** After erasing there is nothing to read. */
    method EraseThenRead() returns (err: int, stdout: seq<Byte>)
      requires Valid() && answer == 0
      modifies `mInd, mem
      ensures Valid() && err == 0 && stdout == []
    {
      Erase();
      ErasedIsEmpty(timeSize);
      ErasedInode(timeSize);
      err, stdout := ContentRead();
    }
  }

  lemma WrapsAgain(addr: nat, j: nat)
    ensures (addr % SIZE + j) % SIZE == (addr + j) % SIZE
  {
  }

  lemma ReadWraps(m: Memory, addr: nat, n: nat, k: nat)
    requires k <= n
    ensures ReadAt(m, addr % SIZE, n)[..k] == ReadAt(m, addr, k)
  {
    forall j | 0 <= j < k ensures ReadAt(m, addr % SIZE, n)[j] == ReadAt(m, addr, k)[j] {
      WrapsAgain(addr, j);
    }
  }

  lemma ErasedInode(timeSize: nat)
    requires timeSize == 4 || timeSize == 8
    ensures InodeAt(Pad(SIZE), timeSize).dataLen == 0
  {
    var m: Memory := Pad(SIZE);
    assert m[timeSize..timeSize + 4] == [0, 0, 0, 0];
  }

  /** Nothing is stored on an erased chip. */
  lemma ErasedIsEmpty(timeSize: nat)
    requires timeSize == 4 || timeSize == 8
    ensures Content(Pad(SIZE), timeSize) == []
  {
    ErasedInode(timeSize);
  }
}
