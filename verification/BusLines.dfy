/** What tools/i2cbusses.c takes from a line of /proc/bus/i2c, whatever its text. */
module BusLines {
  import opened Bytes
  import HexText
  import opened BusList

  // ---- Numbers ------------------------------------------------------------------------------------------------

  const DECIMAL_DIGITS := "0123456789"

  predicate AllDigits(s: string) {
    forall i :: 0 <= i < |s| ==> s[i] in DECIMAL_DIGITS
  }

  lemma DigitsAre(c: char)
    ensures c in DECIMAL_DIGITS <==> IsDigit(c)
  {
    if IsDigit(c) {
      var n := (c - '0') as nat;
      assert DECIMAL_DIGITS[n] == c;
    }
  }

  /** The number that decimal digits stand for. */
  function ValueOf(digits: string): nat
    requires AllDigits(digits)
  {
    if digits == "" then 0 else
      var k := |digits| - 1;
      DigitsAre(digits[k]);
      10 * ValueOf(digits[..k]) + (digits[k] - '0') as nat
  }

  /** The text starts, after blanks, with a number: a sign or none, and as many digits as there are. */
  ghost predicate Starts(s: string, blanks: string, sign: string, digits: string, rest: string) {
    && s == blanks + (sign + (digits + rest))
    && (forall i :: 0 <= i < |blanks| ==> HexText.IsBlank(blanks[i]))
    && (sign == "" || sign == "+" || sign == "-")
    && digits != "" && AllDigits(digits) && (rest == "" || rest[0] !in DECIMAL_DIGITS)
  }

  function Signed(sign: string, n: nat): int {
    if sign == "-" then 0 - n else n
  }

  lemma {:induction false} ValueScanned(digits: string)
    requires AllDigits(digits)
    ensures ScanNat(digits, 0) == ValueOf(digits)
  {
    if digits != "" {
      var k := |digits| - 1;
      ValueScanned(digits[..k]);
      forall i | 0 <= i <= k ensures IsDigit(digits[i]) { DigitsAre(digits[i]); }
      assert digits == digits[..k] + [digits[k]];
      ScanThrough(digits[..k], digits[k], 0);
    }
  }

  /** Scanning stops behind the digits. */
  lemma {:induction false} ScanStops(digits: string, rest: string, sofar: nat)
    requires AllDigits(digits) && (rest == "" || rest[0] !in DECIMAL_DIGITS)
    ensures ScanNat(digits + rest, sofar) == ScanNat(digits, sofar)
    decreases |digits|
  {
    if digits == "" {
      assert digits + rest == rest;
      if rest != "" { DigitsAre(rest[0]); }
    } else {
      assert (digits + rest)[1..] == digits[1..] + rest;
      DigitsAre(digits[0]);
      ScanStops(digits[1..], rest, 10 * sofar + (digits[0] - '0') as nat);
    }
  }

  lemma {:induction false} DigitsAhead(s: string) returns (digits: string, rest: string)
    ensures s == digits + rest && AllDigits(digits) && (rest == "" || rest[0] !in DECIMAL_DIGITS)
    ensures s != "" && IsDigit(s[0]) ==> digits != ""
  {
    if s != "" { DigitsAre(s[0]); }
    if s == "" || !IsDigit(s[0]) {
      digits, rest := "", s;
    } else {
      digits, rest := DigitsAhead(s[1..]);
      digits := [s[0]] + digits;
      assert s == [s[0]] + s[1..];
    }
  }

  lemma {:induction false} NumberScanned(s: string, blanks: string, sign: string, digits: string, rest: string)
    requires Starts(s, blanks, sign, digits, rest)
    ensures ScanInt(s) == Some(Signed(sign, ValueOf(digits)))
    decreases |blanks|
  {
    var number := digits + rest;
    if blanks != "" {
      Ahead(s, blanks, sign + number);
      NumberScanned(s[1..], blanks[1..], sign, digits, rest);
    } else {
      ScanStops(digits, rest, 0);
      ValueScanned(digits);
      DigitsAre(digits[0]);
      assert number[0] == digits[0];
      SignScanned(s, sign, number);
    }
  }

  lemma Ahead<T>(s: seq<T>, a: seq<T>, b: seq<T>)
    requires s == a + b && a != []
    ensures s != [] && s[0] == a[0] && s[1..] == a[1..] + b
  {
  }

  lemma SignScanned(s: string, sign: string, number: string)
    requires s == sign + number && number != "" && IsDigit(number[0]) && (sign == "" || sign == "+" || sign == "-")
    ensures ScanInt(s) == Some(Signed(sign, ScanNat(number, 0)))
  {
    if sign == "" {
      assert s == number;
    } else {
      Ahead(s, sign, number);
      assert sign[1..] + number == number;
    }
  }

  lemma {:induction false} NumberFound(s: string) returns (blanks: string, sign: string, digits: string, rest: string)
    requires ScanInt(s).Some?
    ensures Starts(s, blanks, sign, digits, rest)
  {
    if HexText.IsBlank(s[0]) {
      blanks, sign, digits, rest := NumberFound(s[1..]);
      assert s == [s[0]] + s[1..] == [s[0]] + blanks + (sign + (digits + rest));
      blanks := [s[0]] + blanks;
    } else if s[0] == '-' || s[0] == '+' {
      digits, rest := DigitsAhead(s[1..]);
      blanks, sign := "", [s[0]];
      assert s == [s[0]] + s[1..];
      assert s == blanks + (sign + (digits + rest));
    } else {
      digits, rest := DigitsAhead(s);
      blanks, sign := "", "";
      assert s == blanks + (sign + (digits + rest));
    }
  }

  /** A bus number is read exactly from these texts. */
  lemma NumberDecided(s: string, n: int)
    ensures ScanInt(s) == Some(n) <==>
            exists blanks, sign, digits, rest :: Starts(s, blanks, sign, digits, rest) && n == Signed(sign, ValueOf(digits))
  {
    if ScanInt(s) == Some(n) {
      var blanks, sign, digits, rest := NumberFound(s);
      NumberScanned(s, blanks, sign, digits, rest);
    }
    if blanks, sign, digits, rest :| Starts(s, blanks, sign, digits, rest) && n == Signed(sign, ValueOf(digits)) {
      NumberScanned(s, blanks, sign, digits, rest);
    }
  }

  // ---- Fields -------------------------------------------------------------------------------------------------

  /** t is s without the blanks and newlines at its end. */
  ghost predicate IsTrimmed(s: string, t: string) {
    && t <= s && (forall i :: |t| <= i < |s| ==> s[i] == ' ' || s[i] == '\n')
    && (t != "" ==> t[|t| - 1] != ' ' && t[|t| - 1] != '\n')
  }

  lemma {:induction false} TrimmedIs(s: string)
    ensures IsTrimmed(s, Trimmed(s))
  {
    if s != "" && (s[|s| - 1] == ' ' || s[|s| - 1] == '\n') {
      TrimmedIs(s[..|s| - 1]);
    }
  }

  lemma TrimmedDecided(s: string, t: string)
    ensures Trimmed(s) == t <==> IsTrimmed(s, t)
  {
    TrimmedIs(s);
    var r := Trimmed(s);
    if IsTrimmed(s, t) {
      assert |r| >= |t|  by {
        if |t| > 0 { assert t[|t| - 1] == s[|t| - 1]; }
      }
      assert |t| >= |r| by {
        if |r| > 0 { assert r[|r| - 1] == s[|r| - 1]; }
      }
      assert t == s[..|t|] && r == s[..|r|];
    }
  }

  /** The text behind the last tab is cut off and trimmed. */
  lemma CutDecided(s: string, front: string, field: string)
    ensures CutField(s) == Some((front, field)) <==>
            exists last :: s == front + "\t" + last && '\t' !in last && IsTrimmed(last, field)
  {
    if CutField(s) == Some((front, field)) {
      var i := LastTab(s);
      var last := s[i + 1..];
      forall k | 0 <= k < |last| ensures last[k] != '\t' { NoTabBehind(s, i + 1 + k); }
      assert s == s[..i] + [s[i]] + s[i + 1..];
      TrimmedDecided(last, field);
    }
    if last :| s == front + "\t" + last && '\t' !in last && IsTrimmed(last, field) {
      LastTabAt(front, last);
      assert s[..|front|] == front && s[|front| + 1..] == last;
      TrimmedDecided(last, field);
    }
  }

  // ---- Lines --------------------------------------------------------------------------------------------------

  /** The line is "i2c-", a number, anything, and behind its last three tabs the fields. */
  ghost predicate Tells(s: string, a: Adapter, number: string, funcs: string, name: string, algo: string) {
    && s == "i2c-" + number + "\t" + funcs + "\t" + name + "\t" + algo
    && (exists blanks, sign, digits, rest :: Starts(number, blanks, sign, digits, rest) && a.nr == Signed(sign, ValueOf(digits)))
    && '\t' !in funcs && IsTrimmed(funcs, a.funcs)
    && '\t' !in name && IsTrimmed(name, a.name)
    && '\t' !in algo && IsTrimmed(algo, a.algo)
  }

  /** A line is taken for an adapter if and only if it tells of it that way. */
  lemma LineDecided(s: string, a: Adapter)
    ensures ParseLine(s) == Some(a) <==> exists number, funcs, name, algo :: Tells(s, a, number, funcs, name, algo)
  {
    if ParseLine(s) == Some(a) {
      LineTells(s, a);
    }
    if number, funcs, name, algo :| Tells(s, a, number, funcs, name, algo) {
      var f := "i2c-" + number;
      CutDecided(s, f + "\t" + funcs + "\t" + name, a.algo);
      CutDecided(f + "\t" + funcs + "\t" + name, f + "\t" + funcs, a.name);
      CutDecided(f + "\t" + funcs, f, a.funcs);
      NumberDecided(number, a.nr);
      assert f[4..] == number;
    }
  }

  lemma LineTells(s: string, a: Adapter)
    requires ParseLine(s) == Some(a)
    ensures exists number, funcs, name, algo :: Tells(s, a, number, funcs, name, algo)
  {
    var s1, algo := FieldCut(s, a.algo);
    var s2, name := FieldCut(s1, a.name);
    var s3, funcs := FieldCut(s2, a.funcs);
    NumberDecided(s3[4..], a.nr);
    assert s3 == "i2c-" + s3[4..];
    assert Tells(s, a, s3[4..], funcs, name, algo);
  }

  lemma FieldCut(s: string, field: string) returns (front: string, last: string)
    requires CutField(s).Some? && CutField(s).value.1 == field
    ensures CutField(s).value.0 == front
    ensures s == front + "\t" + last && '\t' !in last && IsTrimmed(last, field)
  {
    front := CutField(s).value.0;
    CutDecided(s, front, field);
    last :| s == front + "\t" + last && '\t' !in last && IsTrimmed(last, field);
  }
}
