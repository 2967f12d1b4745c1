/** The list of I2C buses: what tools/i2cdetect.c prints, and how tools/i2cbusses.c reads such a list
    from /proc/bus/i2c.  Strings are C strings without their terminating NUL. */
module BusList {
  import opened Bytes
  import HexText
  import opened Parts

  datatype Adapter = Adapter(nr: int, name: string, funcs: string, algo: string)

  // ---- Numbers -------------------------------------------------------------------------------------------

  predicate IsDigit(c: char) {
    '0' <= c <= '9'
  }

  function DigitOf(n: nat): (c: char)
    requires n < 10
    ensures IsDigit(c) && (c - '0') as nat == n
  {
    '0' + n as char
  }

  /** %d of a number that is not negative. */
  function Decimal(n: nat): string {
    if n < 10 then [DigitOf(n)] else Decimal(n / 10) + [DigitOf(n % 10)]
  }

  function DecimalInt(n: int): string {
    if n < 0 then "-" + Decimal(-n) else Decimal(n)
  }

  /** The digits at the front of s, after a number that has been read so far. */
  function ScanNat(s: string, sofar: nat): nat
    decreases |s|
  {
    if s != "" && IsDigit(s[0]) then ScanNat(s[1..], 10 * sofar + (s[0] - '0') as nat) else sofar
  }

  /** %d of sscanf, which skips blanks, or None if no number is there. */
  function ScanInt(s: string): Option<int> {
    if s == "" then None
    else if HexText.IsBlank(s[0]) then ScanInt(s[1..])
    else if s[0] == '-' || s[0] == '+' then
      (if |s| > 1 && IsDigit(s[1]) then Some((if s[0] == '-' then -1 else 1) * ScanNat(s[1..], 0)) else None)
    else if IsDigit(s[0]) then Some(ScanNat(s, 0))
    else None
  }

  lemma {:induction false} DecimalDigits(n: nat, i: nat)
    requires i < |Decimal(n)|
    ensures IsDigit(Decimal(n)[i])
  {
    if n >= 10 && i < |Decimal(n / 10)| {
      DecimalDigits(n / 10, i);
    }
  }

  lemma {:induction false} ScanThrough(a: string, c: char, sofar: nat)
    requires (forall i :: 0 <= i < |a| ==> IsDigit(a[i])) && IsDigit(c)
    ensures ScanNat(a + [c], sofar) == 10 * ScanNat(a, sofar) + (c - '0') as nat
    decreases |a|
  {
    if a == "" {
      assert ([c])[1..] == "";
      assert a + [c] == [c];
    } else {
      assert (a + [c])[1..] == a[1..] + [c];
      ScanThrough(a[1..], c, 10 * sofar + (a[0] - '0') as nat);
    }
  }

  lemma {:induction false} DecimalReadsBack(n: nat)
    ensures ScanNat(Decimal(n), 0) == n && Decimal(n) != "" && IsDigit(Decimal(n)[0])
  {
    DecimalDigits(n, 0);
    if n < 10 {
      assert [DigitOf(n)][1..] == "";
    } else {
      DecimalReadsBack(n / 10);
      forall i | 0 <= i < |Decimal(n / 10)| ensures IsDigit(Decimal(n / 10)[i]) { DecimalDigits(n / 10, i); }
      ScanThrough(Decimal(n / 10), DigitOf(n % 10), 0);
    }
  }

  /** A printed number has a sign exactly if it is negative. */
  lemma SignPrinted(n: int)
    ensures DecimalInt(n) != "" && (DecimalInt(n)[0] == '-' <==> n < 0)
  {
    if n >= 0 { DecimalReadsBack(n); }
  }

  lemma IntReadsBack(n: int)
    ensures ScanInt(DecimalInt(n)) == Some(n)
  {
    if n < 0 {
      DecimalReadsBack(-n);
      assert ("-" + Decimal(-n))[1..] == Decimal(-n);
    } else {
      DecimalReadsBack(n);
    }
  }

  // ---- The printer ------------------------------------------------------------------------------------------

  /** %-10s and the like. */
  function LeftAligned(s: string, width: nat): string {
    if |s| >= width then s else s + seq(width - |s|, _ => ' ')
  }

  function Front(a: Adapter): string {
    "i2c-" + DecimalInt(a.nr)
  }

  /** The line for one bus. */
  function LineOf(a: Adapter): string {
    Front(a) + "\t" + LeftAligned(a.funcs, 10) + "\t" + LeftAligned(a.name, 32) + "\t" + (a.algo + "\n")
  }

  function PrintedLines(adapters: seq<Adapter>): (lines: seq<string>)
    ensures |lines| == |adapters|
  {
    seq(|adapters|, i requires 0 <= i < |adapters| => LineOf(adapters[i]))
  }

  function Printed(adapters: seq<Adapter>): string {
    Flatten(PrintedLines(adapters))
  }

  // ---- The parser -------------------------------------------------------------------------------------------

  /** What rtrim leaves. */
  function Trimmed(s: string): string {
    if s != "" && (s[|s| - 1] == ' ' || s[|s| - 1] == '\n') then Trimmed(s[..|s| - 1]) else s
  }

  /** strrchr for a tab: its index, or -1. */
  function LastTab(s: string): (i: int)
    ensures -1 <= i < |s| && (i >= 0 ==> s[i] == '\t')
  {
    if s == "" then -1 else if s[|s| - 1] == '\t' then |s| - 1 else LastTab(s[..|s| - 1])
  }

  /** The part before the last tab, and the part behind it trimmed; None where the program would follow a null pointer. */
  function CutField(s: string): Option<(string, string)> {
    var i := LastTab(s);
    if i < 0 then None else Some((s[..i], Trimmed(s[i + 1..])))
  }

  /** sscanf(s, "i2c-%d", ...) */
  function ScanFront(s: string): Option<int> {
    if "i2c-" <= s then ScanInt(s[4..]) else None
  }

  /** The fields before the last one. */
  function FrontFields(s: string): Option<(int, string, string)> {
    var name := CutField(s);
    if name.None? then None else
    var funcs := CutField(name.value.0);
    if funcs.None? then None else
    var nr := ScanFront(funcs.value.0);
    if nr.None? then None else Some((nr.value, name.value.1, funcs.value.1))
  }

  /** One line of /proc/bus/i2c.  None: no bus number, or not the three tabs the program relies on. */
  function ParseLine(s: string): Option<Adapter> {
    var algo := CutField(s);
    if algo.None? then None else
    var front := FrontFields(algo.value.0);
    if front.None? then None else Some(Adapter(front.value.0, front.value.1, front.value.2, algo.value.1))
  }

  // ---- One line is read back ----------------------------------------------------------------------------------

  /** A field that comes through unchanged. */
  predicate Clean(s: string) {
    '\t' !in s && Trimmed(s) == s
  }

  lemma {:induction false} TrimPadding(s: string, n: nat)
    ensures Trimmed(s + seq(n, _ => ' ')) == Trimmed(s)
  {
    var t := s + seq(n, _ => ' ');
    if n == 0 {
      assert t == s;
    } else {
      TrimPadding(s, n - 1);
      assert t[..|t| - 1] == s + seq(n - 1, _ => ' ');
    }
  }

  lemma TrimAligned(s: string, width: nat)
    ensures Trimmed(LeftAligned(s, width)) == Trimmed(s)
    ensures '\t' in LeftAligned(s, width) <==> '\t' in s
  {
    if |s| < width { TrimPadding(s, width - |s|); }
  }

  lemma TrimNewline(s: string)
    ensures Trimmed(s + "\n") == Trimmed(s)
  {
    assert (s + "\n")[..|s|] == s;
  }

  lemma {:induction false} TrimIsPrefix(s: string)
    ensures |Trimmed(s)| <= |s| && Trimmed(s) == s[..|Trimmed(s)|]
  {
    if s == "" || (s[|s| - 1] != ' ' && s[|s| - 1] != '\n') {
      assert s[..|s|] == s;
    } else {
      var front := s[..|s| - 1];
      TrimIsPrefix(front);
      assert front[..|Trimmed(front)|] == s[..|Trimmed(front)|];
    }
  }

  lemma {:induction false} NoTabBehind(s: string, k: nat)
    requires LastTab(s) < k < |s|
    ensures s[k] != '\t'
  {
    if k < |s| - 1 {
      NoTabBehind(s[..|s| - 1], k);
    }
  }

  lemma TrimNoTab(t: string)
    requires forall k :: 0 <= k < |t| ==> t[k] != '\t'
    ensures '\t' !in Trimmed(t)
  {
    TrimIsPrefix(t);
    var r := Trimmed(t);
    forall k | 0 <= k < |r| ensures r[k] != '\t' { assert r[k] == t[..|r|][k]; }
  }

  /** A trimmed field has no tab. */
  lemma FieldHasNoTab(s: string)
    ensures '\t' !in Trimmed(s[LastTab(s) + 1..])
  {
    var i := LastTab(s) + 1;
    var field := s[i..];
    forall k | 0 <= k < |field| ensures field[k] != '\t' {
      NoTabBehind(s, i + k);
      assert field[k] == s[i + k];
    }
    TrimNoTab(field);
  }

  lemma {:induction false} LastTabAt(x: string, y: string)
    ensures LastTab(x + "\t" + y) >= |x|
    ensures LastTab(x + "\t" + y) == |x| <==> '\t' !in y
  {
    var s := x + "\t" + y;
    if y == "" {
      assert s == x + "\t";
    } else {
      LastTabAt(x, y[..|y| - 1]);
      assert s[..|s| - 1] == x + "\t" + y[..|y| - 1];
      assert forall c :: c in y <==> c in y[..|y| - 1] || c == y[|y| - 1];
    }
  }

  /** The last field of a line comes out as it went in if and only if it is clean. */
  lemma CutLast(x: string, y: string, field: string)
    requires Trimmed(y) == Trimmed(field) && ('\t' in y <==> '\t' in field)
    ensures CutField(x + "\t" + y).Some?
    ensures CutField(x + "\t" + y).value.1 == field <==> Clean(field)
    ensures Clean(field) ==> CutField(x + "\t" + y).value.0 == x
  {
    LastTabAt(x, y);
    var s := x + "\t" + y;
    FieldHasNoTab(s);
    if LastTab(s) == |x| {
      assert s[..|x|] == x && s[|x| + 1..] == y;
    }
  }

  lemma FrontReadsBack(a: Adapter)
    ensures FrontFields(Front(a) + "\t" + LeftAligned(a.funcs, 10) + "\t" + LeftAligned(a.name, 32)) == Some((a.nr, a.name, a.funcs))
       <==> Clean(a.funcs) && Clean(a.name)
  {
    var front, funcs, name := Front(a), LeftAligned(a.funcs, 10), LeftAligned(a.name, 32);
    TrimAligned(a.name, 32);
    TrimAligned(a.funcs, 10);
    CutLast(front + "\t" + funcs, name, a.name);
    if Clean(a.name) {
      CutLast(front, funcs, a.funcs);
      if Clean(a.funcs) {
        IntReadsBack(a.nr);
        assert front[4..] == DecimalInt(a.nr) && "i2c-" <= front;
      }
    }
  }

  /** A printed line is parsed back to its adapter if and only if the three fields are clean. */
  lemma LineReadsBack(a: Adapter)
    ensures ParseLine(LineOf(a)) == Some(a) <==> Clean(a.funcs) && Clean(a.name) && Clean(a.algo)
  {
    TrimNewline(a.algo);
    CutLast(Front(a) + "\t" + LeftAligned(a.funcs, 10) + "\t" + LeftAligned(a.name, 32), a.algo + "\n", a.algo);
    FrontReadsBack(a);
  }

  // ---- Lines ----------------------------------------------------------------------------------------------

  const LINE_MAX := 119

  /** How many characters fgets takes for a buffer of 120: through a newline, or as many as fit. */
  function Taken(text: string, k: nat): (n: nat)
    requires k <= |text| && k <= LINE_MAX
    ensures k <= n <= |text| && n <= LINE_MAX
    ensures k < |text| && k < LINE_MAX ==> n > k
    decreases |text| - k
  {
    if k == |text| || k == LINE_MAX then k else if text[k] == '\n' then k + 1 else Taken(text, k + 1)
  }

  /** What the fgets loop reads, one after the other. */
  function Reads(text: string): seq<string>
    decreases |text|
  {
    if text == "" then [] else
      var n := Taken(text, 0);
      [text[..n]] + Reads(text[n..])
  }

  predicate AllSome<T>(rs: seq<Option<T>>) {
    forall i :: 0 <= i < |rs| ==> rs[i].Some?
  }

  /** All values, or None if one is missing. */
  function Collect<T>(rs: seq<Option<T>>): Option<seq<T>> {
    if AllSome(rs) then Some(seq(|rs|, i requires 0 <= i < |rs| && AllSome(rs) => rs[i].value)) else None
  }

  function ParseAll(lines: seq<string>): (rs: seq<Option<Adapter>>)
    ensures |rs| == |lines|
  {
    seq(|lines|, i requires 0 <= i < |lines| => ParseLine(lines[i]))
  }

  /** The adapters on the list; None if a line would lead the program astray. */
  function Gathered(lines: seq<string>): Option<seq<Adapter>> {
    Collect(ParseAll(lines))
  }

  /** A line that fgets reads whole. */
  predicate OneLine(line: string) {
    0 < |line| <= LINE_MAX && line[|line| - 1] == '\n' && forall i :: 0 <= i < |line| - 1 ==> line[i] != '\n'
  }

  lemma {:induction false} TakesLine(line: string, rest: string, k: nat)
    requires OneLine(line) && k < |line|
    ensures Taken(line + rest, k) == |line|
    decreases |line| - k
  {
    var text := line + rest;
    assert text[k] == line[k];
    if k < |line| - 1 {
      TakesLine(line, rest, k + 1);
    }
  }

  lemma ReadsLine(line: string, rest: string)
    requires OneLine(line)
    ensures Reads(line + rest) == [line] + Reads(rest)
  {
    TakesLine(line, rest, 0);
    assert (line + rest)[..|line|] == line && (line + rest)[|line|..] == rest;
  }

  lemma {:induction false} LinesRead(lines: seq<string>)
    requires forall i :: 0 <= i < |lines| ==> OneLine(lines[i])
    ensures Reads(Flatten(lines)) == lines
  {
    if lines != [] {
      LinesRead(lines[1..]);
      ReadsLine(lines[0], Flatten(lines[1..]));
    }
  }

  lemma Collected<T>(rs: seq<Option<T>>, values: seq<T>)
    requires |rs| == |values| && forall i :: 0 <= i < |rs| ==> rs[i] == Some(values[i])
    ensures Collect(rs) == Some(values)
  {
    assert AllSome(rs);
    assert Collect(rs).value == values;
  }

  /** A field that comes through, on a line that fgets reads whole. */
  predicate Printable(a: Adapter) {
    OneLine(LineOf(a)) && Clean(a.funcs) && Clean(a.name) && Clean(a.algo)
  }

  /** A list whose lines fit the buffer, of adapters with clean fields, is gathered back as it was. */
  lemma ListReadsBack(adapters: seq<Adapter>)
    requires forall i :: 0 <= i < |adapters| ==> Printable(adapters[i])
    ensures Gathered(Reads(Printed(adapters))) == Some(adapters)
  {
    var lines := PrintedLines(adapters);
    forall i | 0 <= i < |lines| ensures OneLine(lines[i]) && ParseAll(lines)[i] == Some(adapters[i]) {
      assert Printable(adapters[i]);
      LineReadsBack(adapters[i]);
    }
    LinesRead(lines);
    Collected(ParseAll(lines), adapters);
  }

  // ---- The program ----------------------------------------------------------------------------------------

  /** The C string t starts at `at`. */
  predicate StringAt(s: seq<char>, at: nat, t: string) {
    at + |t| < |s| && s[at..at + |t|] == t && s[at + |t|] == '\0' && '\0' !in t
  }

  ghost predicate HoldsString(s: array<char>, at: nat, t: string)
    reads s
  {
    StringAt(s[..], at, t)
  }

  /** Changing other characters does not change a string. */
  lemma StringStays(p: seq<char>, q: seq<char>, at: nat, t: string)
    requires StringAt(p, at, t) && |p| == |q| && forall k :: at <= k <= at + |t| ==> p[k] == q[k]
    ensures StringAt(q, at, t)
  {
    assert q[at..at + |t|] == p[at..at + |t|];
  }

  lemma IsString(p: seq<char>, at: nat, t: string)
    requires at + |t| < |p| && p[at + |t|] == '\0' && '\0' !in t
    requires forall k :: 0 <= k < |t| ==> p[at + k] == t[k]
    ensures StringAt(p, at, t)
  {
  }

  lemma FirstOfSlice<T>(p: seq<T>, from: nat, n: nat, m: nat)
    requires from + n <= |p| && m <= n
    ensures p[from..from + n][..m] == p[from..from + m]
  {
  }

  /** strrchr(s, '\t') for the string of length n at the front of the buffer; -1 for a null pointer. */
  method StrRChr(s: array<char>, n: nat) returns (i: int)
    requires n <= s.Length
    ensures i == LastTab(s[..n])
  {
    i := n - 1;
    assert s[..n] == s[..i + 1];
    while i >= 0 && s[i] != '\t'
      invariant -1 <= i < n && LastTab(s[..n]) == LastTab(s[..i + 1])
    {
      assert s[..i + 1][..i] == s[..i];
      i := i - 1;
    }
  }

  /** rtrim for the string of length n at `from`: the blanks at its end become NULs.  The result is its new
      length with the NUL. */
  method Rtrim(s: array<char>, from: nat, n: nat) returns (len: nat)
    requires from + n < s.Length && s[from + n] == '\0' && '\0' !in s[from..from + n]
    modifies s
    ensures 0 < len <= n + 1 && Trimmed(old(s[from..from + n])) == old(s[from..from + len - 1])
    ensures HoldsString(s, from, Trimmed(old(s[from..from + n])))
    ensures forall k :: 0 <= k < from || from + n <= k < s.Length ==> s[k] == old(s[k])
  {
    var i := n - 1;
    ghost var p, t := s[..], s[from..from + n];
    Whole(t);
    while i >= 0 && (s[from + i] == ' ' || s[from + i] == '\n')
      invariant -1 <= i < n && Trimmed(t) == Trimmed(t[..i + 1])
      invariant forall k :: 0 <= k <= from + i || from + n <= k < s.Length ==> s[k] == p[k]
      invariant s[from + i + 1] == '\0'
    {
      TrimNext(t, i);
      assert t[i] == p[from + i];
      s[from + i] := '\0';
      i := i - 1;
    }
    if i >= 0 { TrimNext(t, i); }
    len := i + 2;
    FirstOfSlice(p, from, n, i + 1);
    assert Trimmed(t) == t[..i + 1];
    IsString(s[..], from, t[..i + 1]);
  }

  lemma TrimNext(t: string, i: nat)
    requires i < |t|
    ensures Trimmed(t[..i + 1]) == if t[i] == ' ' || t[i] == '\n' then Trimmed(t[..i]) else t[..i + 1]
    ensures '\0' !in t ==> '\0' !in t[..i + 1]
  {
    assert t[..i + 1][..i] == t[..i];
  }

  /** Cuts the last field off the string of length n: its tab becomes a NUL, and the field is trimmed.  at is
      where the field starts, or 0 if there is no tab. */
  method CutInPlace(s: array<char>, n: nat) returns (at: nat, len: nat)
    requires n < s.Length && HoldsString(s, 0, s[..n])
    modifies s
    ensures at == 0 <==> CutField(old(s[..n])).None?
    ensures at == 0 ==> s[..] == old(s[..])
    ensures at > 0 ==> IsCut(s, CutField(old(s[..n])).value, at, len) && at + len <= n + 1
    ensures forall k :: n <= k < s.Length ==> s[k] == old(s[k])
  {
    var i := StrRChr(s, n);
    if i < 0 { return 0, 0; }
    ghost var t := s[..n];
    s[i] := '\0';
    at := i + 1;
    assert s[at..at + (n - at)] == t[at..];
    len := Rtrim(s, at, n - at);
    assert s[..i] == t[..i];
  }

  /** The two strings that a cut leaves in the buffer. */
  ghost predicate IsCut(s: array<char>, cut: (string, string), at: nat, len: nat)
    reads s
  {
    && HoldsString(s, 0, cut.0) && at == |cut.0| + 1
    && HoldsString(s, at, cut.1) && len == |cut.1| + 1
  }

  /** What is kept of one bus: the three strings lie in one allocation, the name at its start.  all is what
      that allocation holds; it is not written again. */
  datatype Packed = Packed(nr: int, all: seq<char>, funcsAt: nat, algoAt: nat) {
    predicate Holds(a: Adapter) {
      && nr == a.nr
      && StringAt(all, 0, a.name) && StringAt(all, funcsAt, a.funcs) && StringAt(all, algoAt, a.algo)
      && funcsAt == |a.name| + 1 && algoAt == funcsAt + |a.funcs| + 1 && |all| == algoAt + |a.algo| + 1
    }
  }

  /** strcpy of the string t with its NUL. */
  method StrCpy(dst: array<char>, to: nat, src: array<char>, from: nat, len: nat, ghost t: string)
    requires HoldsString(src, from, t) && len == |t| + 1 && to + len <= dst.Length && dst != src
    modifies dst
    ensures HoldsString(dst, to, t)
    ensures forall k :: 0 <= k < to || to + len <= k < dst.Length ==> dst[k] == old(dst[k])
  {
    assert forall i :: 0 <= i < |t| ==> src[from..from + |t|][i] == t[i];
    forall i | 0 <= i < len { dst[to + i] := src[from + i]; }
  }

  /** One line of the list, in the buffer: the three strings are cut off from the back and packed. */
  method ParseInPlace(s: array<char>, n: nat) returns (r: Option<Packed>)
    requires n < s.Length && HoldsString(s, 0, s[..n])
    modifies s
    ensures r.Some? <==> ParseLine(old(s[..n])).Some?
    ensures r.Some? ==> r.value.Holds(ParseLine(old(s[..n])).value)
  {
    ghost var line := s[..n];
    var algo, lenAlgo := CutInPlace(s, n);
    if algo == 0 { return None; }
    ghost var c, s1 := CutField(line).value, s[..];
    assert s[..algo - 1] == c.0;
    r := ParseFront(s, algo - 1, algo, lenAlgo, c.1);
  }

  method ParseFront(s: array<char>, n: nat, algo: nat, lenAlgo: nat, ghost a: string) returns (r: Option<Packed>)
    requires n < s.Length && HoldsString(s, 0, s[..n]) && HoldsString(s, algo, a) && algo > n && lenAlgo == |a| + 1
    modifies s
    ensures r.Some? <==> FrontFields(old(s[..n])).Some?
    ensures r.Some? ==>
      var f := FrontFields(old(s[..n])).value; r.value.Holds(Adapter(f.0, f.1, f.2, a))
  {
    ghost var front, s1 := s[..n], s[..];
    var name, lenName := CutInPlace(s, n);
    if name == 0 { return None; }
    ghost var d, s2 := CutField(front).value, s[..];
    StringStays(s1, s2, algo, a);
    assert s[..name - 1] == d.0;
    var type_, lenType := CutInPlace(s, name - 1);
    if type_ == 0 { return None; }
    ghost var e, s3 := CutField(d.0).value, s[..];
    StringStays(s2, s3, name, d.1);
    StringStays(s2, s3, algo, a);
    assert s[..type_ - 1] == e.0;
    var nr := ScanFront(s[..type_ - 1]);
    assert nr == ScanFront(e.0);
    if nr.None? { return None; }
    var all := Pack(s, name, lenName, d.1, type_, lenType, e.1, algo, lenAlgo, a);
    r := Some(Packed(nr.value, all[..], lenName, lenName + lenType));
  }

  /** Copies three strings into one allocation, one behind the other. */
  method Pack(s: array<char>, name: nat, lenName: nat, ghost n: string, type_: nat, lenType: nat, ghost t: string,
              algo: nat, lenAlgo: nat, ghost a: string) returns (all: array<char>)
    requires HoldsString(s, name, n) && HoldsString(s, type_, t) && HoldsString(s, algo, a)
    requires lenName == |n| + 1 && lenType == |t| + 1 && lenAlgo == |a| + 1
    ensures fresh(all) && all.Length == lenName + lenType + lenAlgo
    ensures HoldsString(all, 0, n) && HoldsString(all, lenName, t) && HoldsString(all, lenName + lenType, a)
  {
    all := new char[lenName + lenType + lenAlgo](_ => '\0');
    StrCpy(all, 0, s, name, lenName, n);
    ghost var p := all[..];
    StrCpy(all, lenName, s, type_, lenType, t);
    ghost var q := all[..];
    StringStays(p, q, 0, n);
    StrCpy(all, lenName + lenType, s, algo, lenAlgo, a);
    StringStays(q, all[..], 0, n);
    StringStays(q, all[..], lenName, t);
  }

  const BUNCH := 8

  /** The adapters array: the entries of the list, and None from index |list| on. */
  ghost predicate IsTable(table: array<Option<Packed>>, list: seq<Adapter>)
    reads table
  {
    && |list| < table.Length && table.Length == |list| - |list| % BUNCH + BUNCH
    && (forall i :: 0 <= i < |list| ==> table[i].Some? && table[i].value.Holds(list[i]))
    && (forall i :: |list| <= i < table.Length ==> table[i] == None)
  }

  /** more_adapters: the same entries in an array of one bunch more. */
  method MoreAdapters(table: array<Option<Packed>>) returns (r: array<Option<Packed>>)
    ensures fresh(r) && r.Length == table.Length + BUNCH
    ensures forall i :: 0 <= i < r.Length ==> r[i] == if i < table.Length then table[i] else None
  {
    r := new Option<Packed>[table.Length + BUNCH](_ => None);
    forall i | 0 <= i < table.Length { r[i] := table[i]; }
  }

  /** fgets of a line from text[pos..] into a buffer of 120. */
  method FGets(text: string, pos: nat, s: array<char>) returns (n: nat)
    requires pos < |text| && s.Length == LINE_MAX + 1 && '\0' !in text
    modifies s
    ensures n > 0 && pos + n <= |text| && n == Taken(text[pos..], 0)
    ensures n < s.Length && s[..n] == text[pos..pos + n] && HoldsString(s, 0, s[..n])
  {
    n := 0;
    ghost var rest := text[pos..];
    while n < LINE_MAX && pos + n < |text|
      invariant 0 <= n <= LINE_MAX && pos + n <= |text| && Taken(rest, 0) == Taken(rest, n)
      invariant s[..n] == text[pos..pos + n]
    {
      s[n] := text[pos + n];
      n := n + 1;
      if s[n - 1] == '\n' { break; }
    }
    assert forall i :: 0 <= i < n ==> s[..n][i] == text[pos + i];
    s[n] := '\0';
    assert s[..n] == text[pos..pos + n];
  }

  /** Line k of the list is the one at pos. */
  lemma ReadsFrom(text: string, pos: nat, lines: seq<string>, k: nat)
    requires pos < |text| && k <= |lines| && lines[k..] == Reads(text[pos..])
    ensures var n := Taken(text[pos..], 0);
      n > 0 && pos + n <= |text| && k < |lines| && lines[k] == text[pos..pos + n] && lines[k + 1..] == Reads(text[pos + n..])
  {
    var n := Taken(text[pos..], 0);
    assert text[pos..][..n] == text[pos..pos + n] && text[pos..][n..] == text[pos + n..];
    assert lines[k..][0] == lines[k] && lines[k..][1..] == lines[k + 1..];
  }

  /** Stores one more entry, in a bigger array if the new entry would take the terminator's place. */
  method AddEntry(table0: array<Option<Packed>>, count: nat, entry: Packed, ghost list: seq<Adapter>, ghost a: Adapter)
    returns (table: array<Option<Packed>>)
    requires IsTable(table0, list) && count == |list| && entry.Holds(a)
    modifies table0
    ensures IsTable(table, list + [a]) && (table == table0 || fresh(table))
  {
    table := table0;
    if (count + 1) % BUNCH == 0 {
      table := MoreAdapters(table0);
    }
    table[count] := Some(entry);
  }

  /** Reads and parses line k of the list, which is at pos. */
  method NextEntry(text: string, pos: nat, s: array<char>, ghost lines: seq<string>, ghost k: nat)
    returns (n: nat, entry: Option<Packed>, ghost a: Option<Adapter>)
    requires pos < |text| && s.Length == LINE_MAX + 1 && '\0' !in text
    requires k <= |lines| && lines[k..] == Reads(text[pos..])
    modifies s
    ensures n > 0 && pos + n <= |text| && k < |lines| && lines[k + 1..] == Reads(text[pos + n..])
    ensures a == ParseAll(lines)[k] && (entry.Some? <==> a.Some?)
    ensures entry.Some? ==> entry.value.Holds(a.value)
  {
    ReadsFrom(text, pos, lines, k);
    n := FGets(text, pos, s);
    a := ParseLine(s[..n]);
    entry := ParseInPlace(s, n);
  }

  /** The adapters so far are those on the first lines. */
  ghost predicate ReadSoFar<T>(rs: seq<Option<T>>, list: seq<T>) {
    |list| <= |rs| && forall j :: 0 <= j < |list| ==> rs[j] == Some(list[j])
  }

  lemma SoFarNext<T>(rs: seq<Option<T>>, list: seq<T>, v: T)
    requires ReadSoFar(rs, list) && |list| < |rs| && rs[|list|] == Some(v)
    ensures ReadSoFar(rs, list + [v])
  {
  }

  lemma OneMissing<T>(rs: seq<Option<T>>, k: nat)
    requires k < |rs| && rs[k].None?
    ensures Collect(rs) == None
  {
  }

  /** The /proc/bus/i2c branch of gather_i2c_busses; malloc is taken to succeed.  ok: no line led astray. */
  method Gather(text: string) returns (ok: bool, table: array<Option<Packed>>, count: nat)
    requires '\0' !in text
    ensures ok <==> Gathered(Reads(text)).Some?
    ensures ok ==> count == |Gathered(Reads(text)).value| && IsTable(table, Gathered(Reads(text)).value)
  {
    var s := new char[LINE_MAX + 1](_ => '\0');
    table := new Option<Packed>[BUNCH](_ => None);
    count := 0;
    ghost var list: seq<Adapter>, lines := [], Reads(text);
    ghost var parsed := ParseAll(lines);
    var pos := 0;
    Whole(text);
    Whole(lines);
    while pos < |text|
      invariant 0 <= pos <= |text| && count == |list| && IsTable(table, list)
      invariant fresh(s) && fresh(table) && s.Length == LINE_MAX + 1
      invariant ReadSoFar(parsed, list) && lines[count..] == Reads(text[pos..])
    {
      var n, entry;
      ghost var a;
      n, entry, a := NextEntry(text, pos, s, lines, count);
      if entry.None? {
        OneMissing(parsed, count);
        return false, table, count;
      }
      table := AddEntry(table, count, entry.value, list, a.value);
      SoFarNext(parsed, list, a.value);
      list := list + [a.value];
      count := count + 1;
      pos := pos + n;
    }
    ok := true;
    assert Reads(text[pos..]) == [];
    Collected(parsed, list);
  }

  // ---- Using the list ---------------------------------------------------------------------------------------

  lemma CharOf(all: seq<char>, at: nat, t: string, k: nat)
    requires StringAt(all, at, t) && k <= |t|
    ensures if k < |t| then all[at + k] == t[k] && t[k] != '\0' else all[at + k] == '\0'
  {
    if k < |t| { assert all[at..at + |t|][k] == t[k] && t[k] in t; }
  }

  /** The C string at `at`, read up to its NUL. */
  method ReadString(all: seq<char>, at: nat, ghost t: string) returns (s: string)
    requires StringAt(all, at, t)
    ensures s == t
  {
    s := "";
    var k := 0;
    CharOf(all, at, t, 0);
    while all[at + k] != '\0'
      invariant k <= |t| && s == t[..k]
      invariant k < |t| <==> all[at + k] != '\0'
      decreases |t| - k
    {
      CharOf(all, at, t, k);
      s := s + [all[at + k]];
      k := k + 1;
      CharOf(all, at, t, k);
    }
    Whole(t);
  }

  /** print_i2c_busses */
  method PrintBuses(table: array<Option<Packed>>, ghost list: seq<Adapter>) returns (text: string)
    requires IsTable(table, list)
    ensures text == Printed(list)
  {
    text := "";
    var count := 0;
    ghost var lines := PrintedLines(list);
    FlattenStart(lines);
    while table[count].Some?
      invariant count <= |list| && Flatten(lines) == text + Flatten(lines[count..])
      decreases |list| - count
    {
      var line := PrintBus(table[count].value, list[count]);
      FlattenNext(lines, count, text);
      text := text + line;
      count := count + 1;
    }
    Whole(lines);
    NothingLeft(Flatten(lines), text, Flatten(lines[count..]));
  }

  method PrintBus(entry: Packed, ghost a: Adapter) returns (line: string)
    requires entry.Holds(a)
    ensures line == LineOf(a)
  {
    var name := ReadString(entry.all, 0, a.name);
    var funcs := ReadString(entry.all, entry.funcsAt, a.funcs);
    var algo := ReadString(entry.all, entry.algoAt, a.algo);
    line := LineOf(Adapter(entry.nr, name, funcs, algo));
  }

  /** The numbers of the buses with this name. */
  function Named(list: seq<Adapter>, name: string): seq<int> {
    if list == [] then [] else
      var last := list[|list| - 1];
      Named(list[..|list| - 1], name) + if last.name == name then [last.nr] else []
  }

  lemma NamedNext(list: seq<Adapter>, name: string, i: nat)
    requires i < |list|
    ensures Named(list[..i + 1], name) == Named(list[..i], name) + if list[i].name == name then [list[i].nr] else []
  {
    assert list[..i + 1][..i] == list[..i];
  }

  lemma {:induction false} NamedGrows(list: seq<Adapter>, name: string, i: nat)
    requires i <= |list|
    ensures Named(list[..i], name) <= Named(list, name)
    decreases |list| - i
  {
    if i == |list| {
      assert list[..i] == list;
    } else {
      NamedNext(list, name, i);
      NamedGrows(list, name, i + 1);
    }
  }

  predicate AllNegative(ns: seq<int>) {
    forall k :: 0 <= k < |ns| ==> ns[k] < 0
  }

  /** What the loop makes of the numbers of the buses with the name.  A negative number counts as not found yet. */
  function Picked(ns: seq<int>): int {
    if ns == [] then -1 else if AllNegative(ns[..|ns| - 1]) then ns[|ns| - 1] else -4
  }

  /** Where numbers are not negative, the one number if there is one. */
  lemma PickedUnique(ns: seq<int>)
    requires forall n :: n in ns ==> n >= 0
    ensures Picked(ns) == if ns == [] then -1 else if |ns| == 1 then ns[0] else -4
  {
    if |ns| > 1 {
      assert ns[..|ns| - 1][0] in ns;
    }
  }

  /** bus is what the loop has after these numbers. */
  predicate Sofar(ns: seq<int>, bus: int) {
    if ns == [] then bus == -1 else bus == ns[|ns| - 1] && AllNegative(ns[..|ns| - 1])
  }

  lemma OneMoreNumber(ns: seq<int>, bus: int, n: int)
    requires Sofar(ns, bus) && bus < 0
    ensures Sofar(ns + [n], n)
  {
    assert (ns + [n])[..|ns + [n]| - 1] == ns;
    assert ns != [] ==> forall k :: 0 <= k < |ns| - 1 ==> ns[..|ns| - 1][k] == ns[k];
  }

  lemma NotUnique(ns: seq<int>, bus: int, n: int, all: seq<int>)
    requires Sofar(ns, bus) && bus >= 0 && ns + [n] <= all
    ensures Picked(all) == -4
  {
    assert all[|ns|] == n;
    assert all[..|all| - 1][|ns| - 1] == ns[|ns| - 1];
  }

  /** lookup_i2c_bus_by_name, given the list. */
  method LookupByName(table: array<Option<Packed>>, busName: string, ghost list: seq<Adapter>) returns (bus: int)
    requires IsTable(table, list)
    ensures bus == Picked(Named(list, busName))
  {
    bus := -1;
    var i := 0;
    ghost var ns: seq<int> := [];
    while table[i].Some?
      invariant i <= |list| && ns == Named(list[..i], busName) && Sofar(ns, bus)
      decreases |list| - i
    {
      NamedNext(list, busName, i);
      NamedGrows(list, busName, i + 1);
      var name := ReadString(table[i].value.all, 0, list[i].name);
      if name == busName {
        if bus >= 0 {
          NotUnique(ns, bus, list[i].nr, Named(list, busName));
          return -4;
        }
        OneMoreNumber(ns, bus, list[i].nr);
        bus := table[i].value.nr;
        ns := ns + [bus];
      }
      i := i + 1;
    }
    Whole(list);
  }
}
