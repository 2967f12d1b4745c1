/** The CRC-16 check of an SPD image (eeprom/decode-dimms, sub check_crc).

    The program divides bit by bit in an accumulator that it masks only once, at the very end.
    The specification is the algebra: polynomials over GF(2), written with the highest power
    first, and the remainder of M(x) * x^16 on division by G(x) = x^16 + x^12 + x^5 + 1. */
module SpdCrc {
  import opened Bytes

  // ---- Polynomials over GF(2) -------------------------------------------------------------

  function Xor(a: bool, b: bool): bool {
    a != b
  }

  /** The coefficient of x^k in the polynomial whose coefficients, highest power first, are p. */
  function Coef(p: seq<bool>, k: int): bool {
    0 <= k < |p| && p[|p| - 1 - k]
  }

  /** The coefficient of x^k in q(x) * G(x). */
  function TimesG(q: seq<bool>, k: int): bool {
    Xor(Xor(Coef(q, k - 16), Coef(q, k - 12)), Xor(Coef(q, k - 5), Coef(q, k)))
  }

  /** A polynomial of degree below 16. */
  type Register = r: seq<bool> | |r| == 16 witness Zeros(16)

  function Zeros(n: nat): (z: seq<bool>)
    ensures |z| == n
  {
    seq(n, _ => false)
  }

  /** m(x) * x^16 == q(x) * G(x) + r(x). */
  ghost predicate Divides(m: seq<bool>, q: seq<bool>, r: Register) {
    forall k: int :: Coef(m, k - 16) == Xor(TimesG(q, k), Coef(r, k))
  }

  ghost predicate IsRemainder(m: seq<bool>, r: Register) {
    exists q :: Divides(m, q, r)
  }

  function XorSeq(a: seq<bool>, b: seq<bool>): (c: seq<bool>)
    requires |a| == |b|
    ensures |c| == |a| && forall i | 0 <= i < |a| :: c[i] == Xor(a[i], b[i])
  {
    seq(|a|, i requires 0 <= i < |a| => Xor(a[i], b[i]))
  }

  // ---- Division, one message bit at a time ----------------------------------------------------

  /** G(x) - x^16, by position in the register: x^12, x^5 and 1. */
  predicate Tap(i: int) {
    i == 3 || i == 10 || i == 15
  }

  /** Shifts the register and, when f is set, adds the low terms of G. */
  function Shift(r: Register, f: bool): (s: Register)
    ensures forall i | 0 <= i < 16 :: s[i] == Xor(i < 15 && r[i + 1], f && Tap(i))
  {
    seq(16, i requires 0 <= i < 16 => Xor(i < 15 && r[i + 1], f && Tap(i)))
  }

  function Feed(r: Register, b: bool): Register {
    Shift(r, Xor(r[0], b))
  }

  function FeedAll(r: Register, bits: seq<bool>): Register {
    if bits == [] then r else Feed(FeedAll(r, bits[..|bits| - 1]), bits[|bits| - 1])
  }

  function Remainder(m: seq<bool>): Register {
    FeedAll(Zeros(16), m)
  }

  /** The feedback bits: the quotient, which the division does not keep. */
  function Quotient(m: seq<bool>): (q: seq<bool>)
    ensures |q| == |m|
  {
    if m == [] then [] else
      var init := m[..|m| - 1];
      Quotient(init) + [Xor(Remainder(init)[0], m[|m| - 1])]
  }

  lemma CoefSnoc(p: seq<bool>, b: bool, k: int)
    ensures Coef(p + [b], k) == if k == 0 then b else Coef(p, k - 1)
  {
  }

  lemma DivisionStep(m: seq<bool>, q: seq<bool>, r: Register, b: bool)
    requires Divides(m, q, r)
    ensures Divides(m + [b], q + [Xor(r[0], b)], Feed(r, b))
  {
    var f := Xor(r[0], b);
    forall k: int
      ensures Coef(m + [b], k - 16) == Xor(TimesG(q + [f], k), Coef(Feed(r, b), k))
    {
      CoefSnoc(m, b, k - 16);
      CoefSnoc(q, f, k - 16);
      CoefSnoc(q, f, k - 12);
      CoefSnoc(q, f, k - 5);
      CoefSnoc(q, f, k);
      assert Coef(m, k - 1 - 16) == Xor(TimesG(q, k - 1), Coef(r, k - 1));
    }
  }

  /** The register left by any message is a remainder of M(x) * x^16 modulo G(x). */
  lemma {:induction false} RegisterIsRemainder(m: seq<bool>)
    ensures Divides(m, Quotient(m), Remainder(m))
  {
    if m != [] {
      var init, b := m[..|m| - 1], m[|m| - 1];
      RegisterIsRemainder(init);
      DivisionStep(init, Quotient(init), Remainder(init), b);
      assert m == init + [b];
    }
  }

  /** Quotient and remainder are unique, so it is the remainder. */
  lemma RemainderUnique(m: seq<bool>, q1: seq<bool>, r1: Register, q2: seq<bool>, r2: Register)
    requires Divides(m, q1, r1) && Divides(m, q2, r2)
    ensures r1 == r2
    ensures forall k: int :: Coef(q1, k) == Coef(q2, k)
  {
    var top := if |q1| < |q2| then |q2| else |q1|;
    forall k: int ensures Coef(q1, k) == Coef(q2, k) {
      if 0 <= k { QuotientUnique(m, q1, r1, q2, r2, top, k); }
    }
    forall i | 0 <= i < 16 ensures r1[i] == r2[i] {
      var k := 15 - i;
      assert Coef(m, k - 16) == Xor(TimesG(q1, k), Coef(r1, k));
      assert Coef(m, k - 16) == Xor(TimesG(q2, k), Coef(r2, k));
    }
  }

  /** The highest coefficient where two quotients differ would show up in the product. */
  lemma {:induction false} QuotientUnique(m: seq<bool>, q1: seq<bool>, r1: Register, q2: seq<bool>, r2: Register,
                                          top: nat, k: nat)
    requires Divides(m, q1, r1) && Divides(m, q2, r2)
    requires |q1| <= top && |q2| <= top
    ensures Coef(q1, k) == Coef(q2, k)
    decreases if k < top then top - k else 0
  {
    if k < top {
      QuotientUnique(m, q1, r1, q2, r2, top, k + 4);
      QuotientUnique(m, q1, r1, q2, r2, top, k + 11);
      QuotientUnique(m, q1, r1, q2, r2, top, k + 16);
      assert Coef(m, k + 16 - 16) == Xor(TimesG(q1, k + 16), Coef(r1, k + 16));
      assert Coef(m, k + 16 - 16) == Xor(TimesG(q2, k + 16), Coef(r2, k + 16));
    }
  }

  // ---- Linearity and burst errors -------------------------------------------------------------

  lemma FeedLinear(r: Register, s: Register, a: bool, b: bool)
    ensures Feed(XorSeq(r, s), Xor(a, b)) == XorSeq(Feed(r, a), Feed(s, b))
  {
    ShiftLinear(r, s, Xor(r[0], a), Xor(s[0], b));
  }

  lemma ShiftLinear(r: Register, s: Register, f: bool, g: bool)
    ensures Shift(XorSeq(r, s), Xor(f, g)) == XorSeq(Shift(r, f), Shift(s, g))
  {
  }

  lemma {:induction false} FeedAllLinear(r: Register, s: Register, a: seq<bool>, b: seq<bool>)
    requires |a| == |b|
    ensures FeedAll(XorSeq(r, s), XorSeq(a, b)) == XorSeq(FeedAll(r, a), FeedAll(s, b))
  {
    if a != [] {
      var n := |a| - 1;
      FeedAllLinear(r, s, a[..n], b[..n]);
      assert XorSeq(a, b)[..n] == XorSeq(a[..n], b[..n]);
      FeedLinear(FeedAll(r, a[..n]), FeedAll(s, b[..n]), a[n], b[n]);
    }
  }

  /** The remainder of a sum is the sum of the remainders. */
  lemma RemainderLinear(a: seq<bool>, b: seq<bool>)
    requires |a| == |b|
    ensures Remainder(XorSeq(a, b)) == XorSeq(Remainder(a), Remainder(b))
  {
    FeedAllLinear(Zeros(16), Zeros(16), a, b);
    assert XorSeq(Zeros(16), Zeros(16)) == Zeros(16);
  }

  /** All set bits of e lie in the 16 consecutive coefficients from x^t up. */
  ghost predicate InWindow(e: seq<bool>, t: int) {
    forall k: int :: Coef(e, k) ==> t <= k < t + 16
  }

  /** A nonzero error pattern no longer than 16 bits. */
  ghost predicate Burst(e: seq<bool>) {
    (exists i :: 0 <= i < |e| && e[i]) && exists t: int :: InWindow(e, t)
  }

  lemma {:induction false} LowestSet(q: seq<bool>, n: nat) returns (j: nat)
    requires n <= |q| && exists k :: n <= k < |q| && Coef(q, k)
    requires forall k :: 0 <= k < n ==> !Coef(q, k)
    ensures j < |q| && Coef(q, j) && forall k: int :: k < j ==> !Coef(q, k)
    decreases |q| - n
  {
    if Coef(q, n) { j := n; } else { j := LowestSet(q, n + 1); }
  }

  lemma {:induction false} HighestSet(q: seq<bool>, n: nat) returns (h: nat)
    requires n <= |q| && exists k :: 0 <= k < n && Coef(q, k)
    requires forall k :: n <= k < |q| ==> !Coef(q, k)
    ensures h < |q| && Coef(q, h) && forall k: int :: h < k ==> !Coef(q, k)
    decreases n
  {
    if Coef(q, n - 1) { h := n - 1; } else { h := HighestSet(q, n - 1); }
  }

  /** A nonzero burst is never a multiple of G(x), which has degree 16 and constant term 1. */
  lemma BurstNotMultiple(e: seq<bool>)
    requires Burst(e)
    ensures Remainder(e) != Zeros(16)
  {
    if Remainder(e) == Zeros(16) {
      var q := Quotient(e);
      RegisterIsRemainder(e);
      assert forall k: int :: Coef(e, k - 16) == TimesG(q, k);
      var i :| 0 <= i < |e| && e[i];
      var t: int :| InWindow(e, t);
      var d := |e| - 1 - i;
      assert Coef(e, d + 16 - 16) == TimesG(q, d + 16);
      assert Coef(q, d) || Coef(q, d + 4) || Coef(q, d + 11) || Coef(q, d + 16);
      var lo := LowestSet(q, 0);
      var hi := HighestSet(q, |q|);
      assert TimesG(q, lo) && Coef(e, lo - 16);
      assert TimesG(q, hi + 16);
    }
  }

  /** Two messages that differ by a nonzero burst have different remainders. */
  lemma BurstChangesRemainder(a: seq<bool>, b: seq<bool>)
    requires |a| == |b| && Burst(XorSeq(a, b))
    ensures Remainder(a) != Remainder(b)
  {
    BurstNotMultiple(XorSeq(a, b));
    RemainderLinear(a, b);
  }

  // ---- Bytes ----------------------------------------------------------------------------------

  /** Bit i of c, that is (c >> i) & 1. */
  predicate BitOf(c: nat, i: nat) {
    if i == 0 then c % 2 == 1 else BitOf(c / 2, i - 1)
  }

  function ByteBits(b: Byte): (bits: seq<bool>)
    ensures |bits| == 8
  {
    seq(8, i requires 0 <= i < 8 => BitOf(b, 7 - i))
  }

  /** The message polynomial M(x): byte 0 first, most significant bit first. */
  function MessageBits(bytes: seq<Byte>): (bits: seq<bool>)
    ensures |bits| == 8 * |bytes|
  {
    if bytes == [] then [] else MessageBits(bytes[..|bytes| - 1]) + ByteBits(bytes[|bytes| - 1])
  }

  lemma {:induction false} FeedAllConcat(r: Register, a: seq<bool>, b: seq<bool>)
    ensures FeedAll(r, a + b) == FeedAll(FeedAll(r, a), b)
  {
    if b == [] {
      assert a + b == a;
    } else {
      var n := |b| - 1;
      FeedAllConcat(r, a, b[..n]);
      assert (a + b)[..|a| + n] == a + b[..n];
    }
  }

  // ---- The accumulator --------------------------------------------------------------------------
  // An unbounded natural number: nothing but its low 16 bits matters, so the width at which the
  // machine drops high bits does not either.

  /** a ^ b */
  function BitXor(a: nat, b: nat): nat {
    if a == 0 && b == 0 then 0
    else 2 * BitXor(a / 2, b / 2) + if a % 2 != b % 2 then 1 else 0
  }

  /** c << 8 */
  function UpByte(c: nat): nat {
    256 * c
  }

  /** c & (2^n - 1) */
  function LowBits(c: nat, n: nat): nat {
    if n == 0 then 0 else 2 * LowBits(c / 2, n - 1) + c % 2
  }

  /** The low 16 bits of the accumulator. */
  function Low16(c: nat): (r: Register)
    ensures forall i | 0 <= i < 16 :: r[i] == BitOf(c, 15 - i)
  {
    seq(16, i requires 0 <= i < 16 => BitOf(c, 15 - i))
  }

  lemma {:induction false} XorBit(a: nat, b: nat, i: nat)
    ensures BitOf(BitXor(a, b), i) == Xor(BitOf(a, i), BitOf(b, i))
  {
    if a == 0 && b == 0 {
      ZeroBit(i);
    } else {
      assert BitXor(a, b) / 2 == BitXor(a / 2, b / 2);
      if i > 0 { XorBit(a / 2, b / 2, i - 1); }
    }
  }

  lemma {:induction false} ZeroBit(i: nat)
    ensures !BitOf(0, i)
  {
    if i > 0 { ZeroBit(i - 1); }
  }

  lemma {:induction false} LowBitsBit(c: nat, n: nat, i: nat)
    ensures BitOf(LowBits(c, n), i) == (i < n && BitOf(c, i))
  {
    if n == 0 {
      ZeroBit(i);
    } else {
      assert LowBits(c, n) / 2 == LowBits(c / 2, n - 1);
      if i > 0 { LowBitsBit(c / 2, n - 1, i - 1); }
    }
  }

  function Pow2(n: nat): nat {
    if n == 0 then 1 else 2 * Pow2(n - 1)
  }

  lemma {:induction false} LowBitsBound(c: nat, n: nat)
    ensures LowBits(c, n) < Pow2(n)
  {
    if n > 0 { LowBitsBound(c / 2, n - 1); }
  }

  lemma {:induction false} SameBits(c: nat, d: nat, n: nat)
    requires c < Pow2(n) && d < Pow2(n)
    requires forall i: nat | i < n :: BitOf(c, i) == BitOf(d, i)
    ensures c == d
  {
    if n > 0 {
      forall i: nat | i < n - 1 ensures BitOf(c / 2, i) == BitOf(d / 2, i) {
        assert BitOf(c, i + 1) == BitOf(d, i + 1);
      }
      SameBits(c / 2, d / 2, n - 1);
      assert BitOf(c, 0) == BitOf(d, 0);
    }
  }

  lemma DoubleBit(c: nat, i: nat)
    ensures BitOf(2 * c, i) == (i > 0 && BitOf(c, i - 1))
  {
    assert 2 * c / 2 == c;
  }

  lemma {:induction false} TimesPow2Bit(c: nat, n: nat, i: nat)
    ensures BitOf(Pow2(n) * c, i) == (i >= n && BitOf(c, i - n))
  {
    if n > 0 {
      assert Pow2(n) * c == 2 * (Pow2(n - 1) * c);
      DoubleBit(Pow2(n - 1) * c, i);
      if i > 0 { TimesPow2Bit(c, n - 1, i - 1); }
    }
  }

  lemma GeneratorBits(i: nat)
    requires i < 16
    ensures BitOf(0x1021, i) == Tap(15 - i)
  {
    assert BitOf(0x1021, 0) && BitOf(0x1021, 5) && BitOf(0x1021, 12);
    assert !BitOf(0x1021, 1) && !BitOf(0x1021, 2) && !BitOf(0x1021, 3) && !BitOf(0x1021, 4);
    assert !BitOf(0x1021, 6) && !BitOf(0x1021, 7) && !BitOf(0x1021, 8) && !BitOf(0x1021, 9);
    assert !BitOf(0x1021, 10) && !BitOf(0x1021, 11) && !BitOf(0x1021, 13) && !BitOf(0x1021, 14);
    assert !BitOf(0x1021, 15);
  }

  /** One turn of the inner loop, on an accumulator of any size. */
  function ShiftStep(c: nat): nat {
    if BitOf(c, 15) then BitXor(2 * c, 0x1021) else 2 * c
  }

  /** On the low 16 bits it is one step of the division. */
  lemma ShiftStepLow16(c: nat)
    ensures Low16(ShiftStep(c)) == Feed(Low16(c), false)
  {
    forall i | 0 <= i < 16 ensures Low16(ShiftStep(c))[i] == Feed(Low16(c), false)[i] {
      DoubleBit(c, 15 - i);
      XorBit(2 * c, 0x1021, 15 - i);
      GeneratorBits(15 - i);
    }
  }

  /** Adding a byte at bit 8 and up leaves the low half alone. */
  lemma AddByte(c: nat, b: Byte)
    ensures Low16(BitXor(c, UpByte(b))) == AddTop(Low16(c), ByteBits(b))
  {
    forall i | 0 <= i < 16
      ensures Low16(BitXor(c, UpByte(b)))[i] == AddTop(Low16(c), ByteBits(b))[i]
    {
      assert Pow2(8) == 256;
      XorBit(c, UpByte(b), 15 - i);
      TimesPow2Bit(b, 8, 15 - i);
    }
  }

  lemma Low16Injective(c: nat, d: nat)
    requires c < 0x10000 && d < 0x10000
    ensures Low16(c) == Low16(d) <==> c == d
  {
    if Low16(c) == Low16(d) {
      forall i: nat | i < 16 ensures BitOf(c, i) == BitOf(d, i) {
        assert Low16(c)[15 - i] == Low16(d)[15 - i];
      }
      assert Pow2(10) == 1024 && Pow2(16) == 0x10000;
      SameBits(c, d, 16);
    }
  }

  lemma MaskLow16(c: nat)
    ensures LowBits(c, 16) < 0x10000 && Low16(LowBits(c, 16)) == Low16(c)
  {
    assert Pow2(10) == 1024 && Pow2(16) == 0x10000;
    LowBitsBound(c, 16);
    forall i | 0 <= i < 16 ensures Low16(LowBits(c, 16))[i] == Low16(c)[i] {
      LowBitsBit(c, 16, 15 - i);
    }
  }

  function AddTop(r: Register, bits: seq<bool>): Register
    requires |bits| <= 16
  {
    XorSeq(r, bits + seq(16 - |bits|, _ => false))
  }

  lemma FeedFirst(r: Register, b: bool, rest: seq<bool>)
    ensures FeedAll(r, [b] + rest) == FeedAll(Feed(r, b), rest)
  {
    FeedAllConcat(r, [b], rest);
    assert [b][..0] == [];
  }

  lemma ShiftAdded(r: Register, bits: seq<bool>)
    requires 0 < |bits| <= 16
    ensures Feed(AddTop(r, bits), false) == AddTop(Feed(r, bits[0]), bits[1..])
  {
  }

  /** Eight message bits may be added at once, before the eight shifts. */
  lemma {:induction false} AddThenShift(r: Register, bits: seq<bool>)
    requires |bits| <= 16
    ensures FeedAll(AddTop(r, bits), Zeros(|bits|)) == FeedAll(r, bits)
    decreases |bits|
  {
    if bits == [] {
      assert AddTop(r, bits) == r;
    } else {
      ShiftAdded(r, bits);
      AddThenShift(Feed(r, bits[0]), bits[1..]);
      FeedFirst(r, bits[0], bits[1..]);
      assert bits == [bits[0]] + bits[1..];
      FeedFirst(AddTop(r, bits), false, Zeros(|bits| - 1));
      assert Zeros(|bits|) == [false] + Zeros(|bits| - 1);
    }
  }

  /** bytes[0] & 0x80 */
  lemma TopBit(b: Byte)
    ensures BitOf(b, 7) <==> b >= 0x80
  {
    assert BitOf(b / 0x80, 0) == BitOf(b / 0x40, 1) == BitOf(b / 0x20, 2) == BitOf(b / 0x10, 3);
    assert BitOf(b / 0x10, 3) == BitOf(b / 8, 4) == BitOf(b / 4, 5) == BitOf(b / 2, 6) == BitOf(b, 7);
  }

  /** The number of the last byte covered. */
  function Cover(bytes: seq<Byte>): nat
    requires |bytes| > 0
  {
    if BitOf(bytes[0], 7) then 116 else 125
  }

  function Stored(bytes: seq<Byte>): nat
    requires |bytes| >= 128
  {
    UpByte(bytes[127]) + bytes[126]
  }

  /** The check passes when the stored number is the remainder of the covered bytes. */
  ghost predicate Passes(bytes: seq<Byte>)
    requires |bytes| >= 128
  {
    Low16(Stored(bytes)) == Remainder(MessageBits(bytes[..Cover(bytes) + 1]))
  }

  lemma ZerosSnoc(n: nat)
    ensures Zeros(n + 1) != [] && Zeros(n + 1)[..n] == Zeros(n) && !Zeros(n + 1)[n]
  {
  }

  lemma ByteDone(bytes: seq<Byte>, ptr: nat, before: Register, after: Register)
    requires ptr < |bytes|
    requires before == Remainder(MessageBits(bytes[..ptr]))
    requires after == FeedAll(AddTop(before, ByteBits(bytes[ptr])), Zeros(8))
    ensures after == Remainder(MessageBits(bytes[..ptr + 1]))
  {
    AddThenShift(before, ByteBits(bytes[ptr]));
    FeedAllConcat(Zeros(16), MessageBits(bytes[..ptr]), ByteBits(bytes[ptr]));
    assert bytes[..ptr + 1][..ptr] == bytes[..ptr];
  }

  lemma NothingYet()
    ensures Low16(0) == Remainder(MessageBits([]))
  {
    forall i | 0 <= i < 16 ensures !Low16(0)[i] {
      ZeroBit(15 - i);
    }
    assert Low16(0) == Zeros(16);
  }

  /** Runs the division over the bytes up to and including cover, whatever its value. */
  method CheckCrc(bytes: seq<Byte>) returns (cover: nat, ok: bool, stored: nat, computed: nat)
    requires |bytes| >= 128
    ensures cover == Cover(bytes) == if bytes[0] >= 0x80 then 116 else 125
    ensures stored == Stored(bytes) == bytes[127] as int * 0x100 + bytes[126] as int
    ensures computed < 0x10000 && Low16(computed) == Remainder(MessageBits(bytes[..cover + 1]))
    ensures ok <==> Passes(bytes)
  {
    TopBit(bytes[0]);
    cover := if BitOf(bytes[0], 7) then 116 else 125;
    var crc := Accumulate(bytes, cover);
    MaskLow16(crc);
    computed := LowBits(crc, 16);
    stored := UpByte(bytes[127]) + bytes[126];
    Low16Injective(stored, computed);
    ok := stored == computed;
  }

  /** The two loops of the check, for a message of any length: the accumulator is never masked. */
  method Accumulate(bytes: seq<Byte>, cover: nat) returns (crc: nat)
    requires cover < |bytes|
    ensures Low16(crc) == Remainder(MessageBits(bytes[..cover + 1]))
  {
    crc := 0;
    var ptr := 0;
    NothingYet();
    assert bytes[..0] == [];
    while ptr <= cover
      invariant ptr <= cover + 1
      invariant Low16(crc) == Remainder(MessageBits(bytes[..ptr]))
    {
      ghost var before := Low16(crc);
      AddByte(crc, bytes[ptr]);
      crc := BitXor(crc, UpByte(bytes[ptr]));
      ghost var added := Low16(crc);
      var bit := 0;
      while bit < 8
        invariant 0 <= bit <= 8
        invariant Low16(crc) == FeedAll(added, Zeros(bit))
      {
        ZerosSnoc(bit);
        ShiftStepLow16(crc);
        if BitOf(crc, 15) {
          crc := BitXor(2 * crc, 0x1021);
        } else {
          crc := 2 * crc;
        }
        bit := bit + 1;
      }
      ByteDone(bytes, ptr, before, Low16(crc));
      ptr := ptr + 1;
    }
  }

  // ---- What the check is for ----------------------------------------------------------------------

  /** The check passes exactly when M(x) * x^16 leaves the stored number as its remainder. */
  lemma PassesIsDivision(bytes: seq<Byte>)
    requires |bytes| >= 128
    ensures Passes(bytes) <==> IsRemainder(MessageBits(bytes[..Cover(bytes) + 1]), Low16(Stored(bytes)))
  {
    var m, r := MessageBits(bytes[..Cover(bytes) + 1]), Low16(Stored(bytes));
    RegisterIsRemainder(m);
    if IsRemainder(m, r) {
      var q :| Divides(m, q, r);
      RemainderUnique(m, Quotient(m), Remainder(m), q, r);
    }
  }

  /** An image that passes, hit by one nonzero burst of at most 16 bits in the covered bytes, fails,
      as long as bit 7 of byte 0, which selects the covered bytes, is not part of the damage. */
  lemma BurstDetected(good: seq<Byte>, bad: seq<Byte>)
    requires |good| >= 128 && |bad| >= 128
    requires Passes(good)
    requires BitOf(good[0], 7) == BitOf(bad[0], 7)
    requires good[126] == bad[126] && good[127] == bad[127]
    requires var n := Cover(good) + 1; Burst(XorSeq(MessageBits(good[..n]), MessageBits(bad[..n])))
    ensures !Passes(bad)
  {
    var n := Cover(good) + 1;
    BurstChangesRemainder(MessageBits(good[..n]), MessageBits(bad[..n]));
  }
}
