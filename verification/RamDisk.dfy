/** The RAM block devices: blk_hard.c and blk_mid.c, which serve a bio segment by segment, and
    blk_simp.c, which serves each request from one buffer. */
module RamDisk {
  import opened Bytes

  const EIO := 5

  /** What bio_rw or rq_data_dir answers. */
  datatype Rw = Read | ReadAhead | Write | Other

  /** m with data in place of what it had from `at` on. */
  function Patched(m: seq<Byte>, at: nat, data: seq<Byte>): (r: seq<Byte>)
    requires at + |data| <= |m|
    ensures |r| == |m|
  {
    m[..at] + data + m[at + |data|..]
  }

  lemma PatchedTwice(m: seq<Byte>, at: nat, a: seq<Byte>, b: seq<Byte>)
    requires at + |a| + |b| <= |m|
    ensures Patched(Patched(m, at, a), at + |a|, b) == Patched(m, at, a + b)
  {
  }

  lemma PatchedAll(m: seq<Byte>, at: nat, data: seq<Byte>, n: nat)
    requires at + |data| <= |m| && n == |data|
    ensures Patched(m, at, data[..n]) == Patched(m, at, data)
  {
    assert data[..n] == data;
  }

  /** Patching goes on where it stopped. */
  lemma PatchedMore(m: seq<Byte>, at: nat, data: seq<Byte>, done: nat, n: nat)
    requires at + |data| <= |m| && done + n <= |data|
    ensures Patched(Patched(m, at, data[..done]), at + done, data[done..done + n]) == Patched(m, at, data[..done + n])
  {
    PatchedTwice(m, at, data[..done], data[done..done + n]);
    assert data[..done + n] == data[..done] + data[done..done + n];
  }

  /** A write read back: the data, and around it the bytes that were there. */
  lemma PatchedReads(m: seq<Byte>, at: nat, data: seq<Byte>)
    requires at + |data| <= |m|
    ensures Patched(m, at, data)[at..at + |data|] == data
    ensures Patched(m, at, data)[..at] == m[..at] && Patched(m, at, data)[at + |data|..] == m[at + |data|..]
  {
  }

  lemma SliceOfSlice<T>(m: seq<T>, at: nat, n: nat, i: nat, j: nat)
    requires at + n <= |m| && i <= j <= n
    ensures m[at..at + n][i..j] == m[at + i..at + j]
  {
    var a, b, c := m[at..at + n], m[at..at + n][i..j], m[at + i..at + j];
    forall k | 0 <= k < j - i ensures b[k] == c[k] {
      assert b[k] == a[i + k];
    }
    assert b == c;
  }

  // ---- Segments ---------------------------------------------------------------------------------------

  /** struct bio_vec: len bytes of a page, from offset on. */
  datatype Segment = Segment(page: array<Byte>, offset: nat, len: nat) {
    ghost predicate Holds(data: seq<Byte>)
      reads page
    {
      offset + len <= page.Length && page[offset..offset + len] == data
    }
  }

  predicate Apart(a: Segment, b: Segment) {
    a.page != b.page || a.offset + a.len <= b.offset || b.offset + b.len <= a.offset
  }

  /** Segments that could be of one bio for this disk. */
  predicate Segments(segs: seq<Segment>, disk: array<Byte>) {
    && (forall k :: 0 <= k < |segs| ==> segs[k].offset + segs[k].len <= segs[k].page.Length && segs[k].page != disk)
    && (forall j, k :: 0 <= j < k < |segs| ==> Apart(segs[j], segs[k]))
  }

  /** Where the segments start in the transfer, and where the last one ends. */
  function Starts(segs: seq<Segment>): (at: seq<nat>)
    ensures |at| == |segs| + 1 && at[0] == 0
    ensures forall k :: 0 <= k < |segs| ==> at[k + 1] == at[k] + segs[k].len
  {
    if segs == [] then [0] else
      var before := Starts(segs[..|segs| - 1]);
      before + [before[|segs| - 1] + segs[|segs| - 1].len]
  }

  function Total(segs: seq<Segment>): nat {
    Starts(segs)[|segs|]
  }

  lemma {:induction false} StartsGrow(segs: seq<Segment>, j: nat, k: nat)
    requires j <= k <= |segs|
    ensures Starts(segs)[j] <= Starts(segs)[k]
  {
    if j < k {
      StartsGrow(segs, j, k - 1);
    }
  }

  /** Segment j holds its stretch of the data. */
  ghost predicate HoldsPart(segs: seq<Segment>, at: seq<nat>, data: seq<Byte>, j: nat)
    requires j < |segs| < |at|
    reads segs[j].page
  {
    at[j] <= at[j + 1] <= |data| && segs[j].Holds(data[at[j]..at[j + 1]])
  }

  /** The segments hold the data, cut up in order: it is their concatenation. */
  ghost predicate Hold(segs: seq<Segment>, data: seq<Byte>)
    reads set s | s in segs :: s.page
  {
    |data| == Total(segs) && forall j :: 0 <= j < |segs| ==> HoldsPart(segs, Starts(segs), data, j)
  }

  lemma {:induction false} SamePrefix(segs: seq<Segment>, a: seq<Byte>, b: seq<Byte>, k: nat)
    requires Hold(segs, a) && Hold(segs, b) && k <= |segs|
    ensures Starts(segs)[k] <= |a| && Starts(segs)[k] <= |b| && a[..Starts(segs)[k]] == b[..Starts(segs)[k]]
  {
    StartsGrow(segs, k, |segs|);
    if k > 0 {
      SamePrefix(segs, a, b, k - 1);
      var at := Starts(segs);
      assert HoldsPart(segs, at, a, k - 1) && HoldsPart(segs, at, b, k - 1);
      assert a[..at[k]] == a[..at[k - 1]] + a[at[k - 1]..at[k]];
      assert b[..at[k]] == b[..at[k - 1]] + b[at[k - 1]..at[k]];
    }
  }

  /** Segments have one concatenation. */
  lemma HoldUnique(segs: seq<Segment>, a: seq<Byte>, b: seq<Byte>)
    requires Hold(segs, a) && Hold(segs, b)
    ensures a == b
  {
    SamePrefix(segs, a, b, |segs|);
    assert a == a[..|a|] && b == b[..|b|];
  }

  /** memcpy between different buffers. */
  method Memcpy(dst: array<Byte>, to: nat, src: array<Byte>, from: nat, n: nat)
    requires dst != src && to + n <= dst.Length && from + n <= src.Length
    modifies dst
    ensures dst[..] == Patched(old(dst[..]), to, src[from..from + n])
  {
    forall i | 0 <= i < n { dst[to + i] := src[from + i]; }
  }

  /** The first k segments hold their parts of the data. */
  ghost predicate HoldFirst(segs: seq<Segment>, at: seq<nat>, data: seq<Byte>, k: nat)
    requires k <= |segs| < |at|
    reads set s | s in segs :: s.page
  {
    forall j :: 0 <= j < k ==> HoldsPart(segs, at, data, j)
  }

  /** Copies the next part into its segment.  What the segments before it hold stays. */
  method FillSegment(s: Segment, src: array<Byte>, from: nat, ghost segs: seq<Segment>, ghost at: seq<nat>,
                     ghost data: seq<Byte>, ghost i: nat)
    requires Segments(segs, src) && i < |segs| < |at| && s == segs[i] && from + s.len <= src.Length
    requires at[i + 1] == at[i] + s.len <= |data| && data[at[i]..at[i + 1]] == src[from..from + s.len]
    requires HoldFirst(segs, at, data, i)
    modifies s.page
    ensures HoldFirst(segs, at, data, i + 1)
  {
    Memcpy(s.page, s.offset, src, from, s.len);
    ghost var p := s.page[..];
    assert p[s.offset..s.offset + s.len] == src[from..from + s.len];
    forall j | 0 <= j < i ensures HoldsPart(segs, at, data, j) {
      assert Apart(segs[j], s) && old(HoldsPart(segs, at, data, j));
      if segs[j].page == s.page {
        var q := old(s.page[..]);
        assert p[segs[j].offset..segs[j].offset + segs[j].len] == q[segs[j].offset..segs[j].offset + segs[j].len];
      }
    }
  }

  /** A disk and its driver.  blk_hard serves read-ahead like a read; blk_mid does not know it. */
  class Disk {
    const diskbuffer: array<Byte>
    const readAhead: bool

    predicate Reads(rw: Rw) {
      rw.Read? || (rw.ReadAhead? && readAhead)
    }

    predicate InCapacity(sector: nat, n: nat) {
      sector * 512 + n <= diskbuffer.Length
    }

    /** The state of a transfer of data before segment i: what a write has put on the disk, which held m, and
        which segments a read has filled. */
    ghost predicate Underway(segs: seq<Segment>, rw: Rw, base: nat, m: seq<Byte>, data: seq<Byte>, served: seq<Byte>, i: nat)
      reads diskbuffer, set s | s in segs :: s.page
    {
      var at := Starts(segs);
      && i <= |segs| && |data| == |served| == Total(segs) && base + |data| <= |m| == diskbuffer.Length
      && served == (if Reads(rw) then m[base..base + |data|] else data)
      && HoldFirst(segs, at, served, if Reads(rw) then i else |segs|)
      && at[i] <= |data| && diskbuffer[..] == (if rw.Write? then Patched(m, base, data[..at[i]]) else m)
    }

    /** The segment loop's memcpy for a read. */
    method ReadSegment(to: nat, s: Segment, ghost segs: seq<Segment>, ghost rw: Rw, ghost base: nat, ghost m: seq<Byte>,
                       ghost data: seq<Byte>, ghost served: seq<Byte>, ghost i: nat)
      requires Segments(segs, diskbuffer) && Reads(rw) && Underway(segs, rw, base, m, data, served, i)
      requires i < |segs| && s == segs[i] && to == base + Starts(segs)[i]
      modifies s.page
      ensures Underway(segs, rw, base, m, data, served, i + 1)
    {
      StartsGrow(segs, i + 1, |segs|);
      ghost var at := Starts(segs);
      SliceOfSlice(m, base, |data|, at[i], at[i + 1]);
      FillSegment(s, diskbuffer, to, segs, at, served, i);
    }

    /** Copies the next part of a write onto the disk. */
    method CopyOut(to: nat, s: Segment, ghost base: nat, ghost m: seq<Byte>, ghost data: seq<Byte>, ghost done: nat)
      requires done + s.len <= |data| && base + |data| <= |m| == diskbuffer.Length && to == base + done
      requires s.Holds(data[done..done + s.len]) && s.page != diskbuffer
      requires diskbuffer[..] == Patched(m, base, data[..done])
      modifies diskbuffer
      ensures diskbuffer[..] == Patched(m, base, data[..done + s.len])
    {
      PatchedMore(m, base, data, done, s.len);
      Memcpy(diskbuffer, to, s.page, s.offset, s.len);
    }

    /** The segment loop's memcpy for a write. */
    method WriteSegment(to: nat, s: Segment, ghost segs: seq<Segment>, ghost base: nat, ghost m: seq<Byte>,
                        ghost data: seq<Byte>, ghost i: nat)
      requires Segments(segs, diskbuffer) && Underway(segs, Write, base, m, data, data, i)
      requires i < |segs| && s == segs[i] && to == base + Starts(segs)[i]
      modifies diskbuffer
      ensures Underway(segs, Write, base, m, data, data, i + 1)
    {
      StartsGrow(segs, i + 1, |segs|);
      assert HoldsPart(segs, Starts(segs), data, i);
      CopyOut(to, s, base, m, data, Starts(segs)[i]);
    }

    /** my_make_queue, for segments whose concatenation is `data` at first and `served` at last: a write
        puts it on the disk as one piece, a read makes it what the disk has there. */
    method MakeRequest(sector: nat, segs: seq<Segment>, rw: Rw, ghost data: seq<Byte>)
      returns (status: int, ghost served: seq<Byte>)
      requires Segments(segs, diskbuffer) && Hold(segs, data) && InCapacity(sector, |data|)
      modifies diskbuffer, set s | s in segs && Reads(rw) :: s.page
      ensures status == if rw.Read? || (rw.ReadAhead? && readAhead) || rw.Write? || segs == [] then 0 else -EIO
      ensures Hold(segs, served)
      ensures diskbuffer[..] == if rw.Write? then Patched(old(diskbuffer[..]), sector * 512, data) else old(diskbuffer[..])
      ensures served == if Reads(rw) then diskbuffer[sector * 512..sector * 512 + |data|] else data
    {
      var base := sector * 512;
      ghost var m := diskbuffer[..];
      served := if Reads(rw) then m[base..base + |data|] else data;
      var to, i := base, 0;
      while i < |segs|
        invariant 0 <= i <= |segs| && to == base + Starts(segs)[i]
        invariant i > 0 ==> Reads(rw) || rw.Write?
        invariant Underway(segs, rw, base, m, data, served, i)
      {
        if Reads(rw) {
          ReadSegment(to, segs[i], segs, rw, base, m, data, served, i);
        } else if rw.Write? {
          WriteSegment(to, segs[i], segs, base, m, data, i);
        } else {
          return -EIO, data;
        }
        to := to + segs[i].len;
        i := i + 1;
      }
      status := 0;
      PatchedAll(m, base, data, Starts(segs)[i]);
    }

    /** A write, then a read of as many bytes cut up differently, gives the data back, in other pages or in
        the same. */
    method WriteThenRead(sector: nat, from: seq<Segment>, into: seq<Segment>, ghost data: seq<Byte>, ghost before: seq<Byte>)
      requires Segments(from, diskbuffer) && Hold(from, data) && InCapacity(sector, |data|)
      requires Segments(into, diskbuffer) && Hold(into, before) && |before| == |data|
      modifies diskbuffer, set s | s in into :: s.page
      ensures Hold(into, data)
      ensures diskbuffer[..sector * 512] == old(diskbuffer[..sector * 512])
      ensures diskbuffer[sector * 512 + |data|..] == old(diskbuffer[sector * 512 + |data|..])
    {
      PatchedReads(diskbuffer[..], sector * 512, data);
      ghost var m := diskbuffer[..];
      var _, _ := MakeRequest(sector, from, Write, data);
      ghost var w := diskbuffer[..];
      var _, served := MakeRequest(sector, into, Read, before);
      assert served == w[sector * 512..sector * 512 + |data|];
    }
  }

  // ---- blk_simp ---------------------------------------------------------------------------------------

  /** A request with one contiguous buffer of n bytes. */
  datatype Request = Request(rw: Rw, sector: nat, buffer: array<Byte>, n: nat) {
    predicate Valid(disk: array<Byte>) {
      sector * 512 + n <= disk.Length && n <= buffer.Length && buffer != disk
    }
  }

  predicate Queue(reqs: seq<Request>, disk: array<Byte>) {
    && (forall k :: 0 <= k < |reqs| ==> reqs[k].Valid(disk))
    && (forall j, k :: 0 <= j < k < |reqs| ==> reqs[j].buffer != reqs[k].buffer)
  }

  /** The disk after one request, whose buffer held data. */
  function Served(m: seq<Byte>, req: Request, data: seq<Byte>): (r: seq<Byte>)
    requires req.sector * 512 + |data| <= |m|
    ensures |r| == |m|
  {
    if req.rw.Write? then Patched(m, req.sector * 512, data) else m
  }

  /** What the buffer holds after one request. */
  function Answered(m: seq<Byte>, req: Request, data: seq<Byte>): (r: seq<Byte>)
    requires req.sector * 512 + |data| <= |m|
  {
    if req.rw.Read? then m[req.sector * 512..req.sector * 512 + |data|] else data
  }

  class SimpleDisk {
    const diskbuffer: array<Byte>

    /** One request of my_do_queue. */
    method DoRequest(req: Request) returns (status: int)
      requires req.Valid(diskbuffer)
      modifies diskbuffer, req.buffer
      ensures status == if req.rw.Read? || req.rw.Write? then 0 else 1
      ensures diskbuffer[..] == Served(old(diskbuffer[..]), req, old(req.buffer[..req.n]))
      ensures req.buffer[..req.n] == Answered(old(diskbuffer[..]), req, old(req.buffer[..req.n]))
    {
      match req.rw
      case Read =>
        Memcpy(req.buffer, 0, diskbuffer, req.sector * 512, req.n);
        status := 0;
      case Write =>
        Memcpy(diskbuffer, req.sector * 512, req.buffer, 0, req.n);
        status := 0;
      case _ =>
        status := 1;
    }

    /** my_do_queue: the requests are served in the order they are fetched.  disks are the contents of the
        disk between them, buffers what the buffers held at first. */
    method DoQueue(reqs: seq<Request>, ghost buffers: seq<seq<Byte>>) returns (ghost disks: seq<seq<Byte>>)
      requires Queue(reqs, diskbuffer) && |buffers| == |reqs| && Waiting(reqs, buffers, 0)
      modifies diskbuffer, set r | r in reqs :: r.buffer
      ensures |disks| == |reqs| + 1 && disks[0] == old(diskbuffer[..]) && disks[|reqs|] == diskbuffer[..]
      ensures ServedAll(reqs, buffers, disks, |reqs|)
    {
      disks := [diskbuffer[..]];
      var i := 0;
      while i < |reqs|
        invariant 0 <= i <= |reqs| && |disks| == i + 1
        invariant disks[0] == old(diskbuffer[..]) && disks[i] == diskbuffer[..]
        invariant Waiting(reqs, buffers, i) && ServedAll(reqs, buffers, disks, i)
      {
        disks := NextRequest(reqs, buffers, disks, reqs[i], i);
        i := i + 1;
      }
    }

    method NextRequest(ghost reqs: seq<Request>, ghost buffers: seq<seq<Byte>>, ghost disks: seq<seq<Byte>>, req: Request, ghost i: nat)
      returns (ghost next: seq<seq<Byte>>)
      requires Queue(reqs, diskbuffer) && |buffers| == |reqs| && i < |reqs| && req == reqs[i]
      requires |disks| == i + 1 && disks[i] == diskbuffer[..] && Waiting(reqs, buffers, i) && ServedAll(reqs, buffers, disks, i)
      modifies diskbuffer, req.buffer
      ensures next == disks + [diskbuffer[..]]
      ensures Waiting(reqs, buffers, i + 1) && ServedAll(reqs, buffers, next, i + 1)
    {
      assert Waits(reqs[i], buffers[i]);
      var _ := DoRequest(req);
      next := disks + [diskbuffer[..]];
      assert forall k :: 0 <= k <= i ==> next[k] == disks[k];
      forall k | 0 <= k < i ensures ServedOne(reqs[k], buffers[k], next[k], next[k + 1]) {
        assert old(ServedOne(reqs[k], buffers[k], disks[k], disks[k + 1]));
      }
      forall k | i < k < |reqs| ensures Waits(reqs[k], buffers[k]) {
        assert old(Waits(reqs[k], buffers[k]));
      }
    }
  }

  /** The buffer of a request holds its data. */
  ghost predicate Waits(req: Request, data: seq<Byte>)
    reads req.buffer
  {
    |data| == req.n <= req.buffer.Length && req.buffer[..req.n] == data
  }

  ghost predicate Waiting(reqs: seq<Request>, buffers: seq<seq<Byte>>, from: nat)
    requires |buffers| == |reqs|
    reads set r | r in reqs :: r.buffer
  {
    forall k :: from <= k < |reqs| ==> Waits(reqs[k], buffers[k])
  }

  /** A request has taken the disk from m to w, and its buffer from data to the answer. */
  ghost predicate ServedOne(req: Request, data: seq<Byte>, m: seq<Byte>, w: seq<Byte>)
    reads req.buffer
  {
    && |data| == req.n <= req.buffer.Length && req.sector * 512 + req.n <= |m|
    && w == Served(m, req, data) && req.buffer[..req.n] == Answered(m, req, data)
  }

  ghost predicate ServedAll(reqs: seq<Request>, buffers: seq<seq<Byte>>, disks: seq<seq<Byte>>, n: nat)
    requires |buffers| == |reqs| && n <= |reqs| && n < |disks|
    reads set r | r in reqs :: r.buffer
  {
    forall k :: 0 <= k < n ==> ServedOne(reqs[k], buffers[k], disks[k], disks[k + 1])
  }

  // ---- The two kinds of device ------------------------------------------------------------------------

  /** A segmented disk and a single-copy one with equal contents are given the same request, one as a bio and one
      as a buffer with the concatenation of its segments: they end up with equal disks, and with the same data. */
  method ServeBoth(d: Disk, s: SimpleDisk, segs: seq<Segment>, req: Request) returns (segmented: int, simple: int)
    requires req.rw.Read? || req.rw.Write?
    requires Segments(segs, d.diskbuffer) && req.Valid(s.diskbuffer) && Hold(segs, req.buffer[..req.n])
    requires d.diskbuffer[..] == s.diskbuffer[..]
    requires d.diskbuffer != s.diskbuffer && d.diskbuffer != req.buffer
    requires forall g :: g in segs ==> g.page != s.diskbuffer && g.page != req.buffer
    modifies d.diskbuffer, s.diskbuffer, req.buffer, set g | g in segs :: g.page
    ensures segmented == simple == 0
    ensures d.diskbuffer[..] == s.diskbuffer[..] && Hold(segs, req.buffer[..req.n])
  {
    ghost var data := req.buffer[..req.n];
    ghost var served;
    segmented, served := d.MakeRequest(req.sector, segs, req.rw, data);
    simple := s.DoRequest(req);
    assert served == req.buffer[..req.n];
  }
}
