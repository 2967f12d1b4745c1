/** Numbers in hex, and the two patterns by which read_hexdump in eeprom/decode-dimms takes a line apart. */
module HexText {
  import opened Bytes
  import Parts

  // ---- Hex digits ------------------------------------------------------------------------------------

  predicate IsHex(c: char) {
    '0' <= c <= '9' || 'a' <= c <= 'f' || 'A' <= c <= 'F'
  }

  /** \s, and isspace of C */
  predicate IsBlank(c: char) {
    c == ' ' || c == '\t' || c == '\n' || c == '\r' || c == '\U{0B}' || c == '\U{0C}'
  }

  predicate All(p: char -> bool, s: string, from: nat, limit: nat) {
    from <= limit <= |s| && forall k :: from <= k < limit ==> p(s[k])
  }

  /** Where the run of characters of the class ends that starts at `at`, not looking beyond `limit`. */
  function Run(p: char -> bool, s: string, at: nat, limit: nat): (end: nat)
    requires at <= limit <= |s|
    ensures at <= end <= limit && All(p, s, at, end) && (end < limit ==> !p(s[end]))
    decreases limit - at
  {
    if at == limit || !p(s[at]) then at else Run(p, s, at + 1, limit)
  }

  lemma {:induction false} RunIs(p: char -> bool, s: string, at: nat, limit: nat, end: nat)
    requires at <= end <= limit <= |s| && All(p, s, at, end) && (end < limit ==> !p(s[end]))
    ensures Run(p, s, at, limit) == end
    decreases end - at
  {
    if at < end {
      RunIs(p, s, at + 1, limit, end);
    }
  }

  function DigitValue(c: char): nat {
    if '0' <= c <= '9' then (c - '0') as nat
    else if 'a' <= c <= 'f' then 10 + (c - 'a') as nat
    else if 'A' <= c <= 'F' then 10 + (c - 'A') as nat
    else 0
  }

  const HEX_CHARACTERS := "0123456789abcdefABCDEF"

  /** No other characters are digits. */
  lemma HexCharacters(c: char)
    ensures IsHex(c) <==> c in HEX_CHARACTERS
  {
    if '0' <= c <= '9' { assert HEX_CHARACTERS[(c - '0') as int] == c; }
    else if 'a' <= c <= 'f' { assert HEX_CHARACTERS[10 + (c - 'a') as int] == c; }
    else if 'A' <= c <= 'F' { assert HEX_CHARACTERS[16 + (c - 'A') as int] == c; }
  }

  /** The digits in order, in either case. */
  lemma DigitTable(n: nat)
    requires n < 16
    ensures DigitValue("0123456789abcdef"[n]) == n && DigitValue("0123456789ABCDEF"[n]) == n
  {
    if n < 8 {} else {}
  }

  /** The value of a string of hex digits. */
  function HexValue(s: string): nat {
    if s == "" then 0 else 16 * HexValue(s[..|s| - 1]) + DigitValue(s[|s| - 1])
  }

  /** hex(): it stops at the first character that is no digit. */
  function Hex(s: string): nat {
    HexValue(s[..Run(IsHex, s, 0, |s|)])
  }

  function Digit(n: nat): (c: char)
    requires n < 16
    ensures DigitValue(c) == n && IsHex(c)
  {
    if n < 10 then '0' + n as char else 'a' + (n - 10) as char
  }

  /** n in hex with this many digits. */
  function Digits(n: nat, width: nat): (s: string)
    ensures |s| == width && All(IsHex, s, 0, width)
  {
    if width == 0 then "" else Digits(n / 16, width - 1) + [Digit(n % 16)]
  }

  function Power16(width: nat): nat {
    if width == 0 then 1 else 16 * Power16(width - 1)
  }

  lemma {:induction false} ValueOfDigits(n: nat, width: nat)
    requires n < Power16(width)
    ensures HexValue(Digits(n, width)) == n
  {
    if width > 0 {
      ValueOfDigits(n / 16, width - 1);
      assert Digits(n, width)[..width - 1] == Digits(n / 16, width - 1);
    }
  }

  lemma HexOfDigits(n: nat, width: nat)
    requires n < Power16(width)
    ensures Hex(Digits(n, width)) == n
  {
    ValueOfDigits(n, width);
    Parts.Whole(Digits(n, width));
    RunIs(IsHex, Digits(n, width), 0, width, width);
  }

  // ---- The patterns ------------------------------------------------------------------------------------
  //
  // A match is given by positions in the line.  In both patterns each class of characters that repeats is followed
  // by something outside the class, or by the end of the match, so that the matcher never gains by giving characters
  // back: the longest run is the only one.

  /** Behind :? */
  function Colon(s: string, at: nat): (end: nat)
    ensures at <= end <= at + 1 && (at <= |s| ==> end <= |s|)
  {
    if at < |s| && s[at] == ':' then at + 1 else at
  }

  /** Behind :?[a-f\d]{width}\s* */
  function Group(s: string, at: nat, width: nat): (end: Option<nat>)
    ensures end.Some? ==> at + width <= end.value <= |s|
  {
    var c := Colon(s, at);
    if All(IsHex, s, c, c + width) then Some(Run(IsBlank, s, c + width, |s|)) else None
  }

  /** Behind (:?[a-f\d]{width}\s*){count} */
  function Groups(s: string, at: nat, width: nat, count: nat): (end: Option<nat>)
    requires width > 0 && at <= |s|
    ensures end.Some? ==> at <= end.value <= |s|
    decreases |s| - at
  {
    if count == 0 then Some(at)
    else
      var next := Group(s, at, width);
      if next.Some? then Groups(s, next.value, width, count - 1) else None
  }

  /** Behind the cells: eight words if that is possible, or 16 bytes. */
  function CellsEnd(s: string, at: nat): (end: Option<nat>)
    requires at <= |s|
    ensures end.Some? ==> at <= end.value <= |s|
  {
    var words := Groups(s, at, 4, 8);
    if words.Some? then words else Groups(s, at, 2, 16)
  }

  /** The address is s[from..addressEnd], and the cells are in s[cells..end]. */
  datatype RowMatch = RowMatch(from: nat, addressEnd: nat, cells: nat, end: nat)

  /** The row pattern from `from` on, after the optional start. */
  function RowFrom(s: string, from: nat): (m: Option<RowMatch>)
    requires from <= |s|
    ensures m.Some? ==> m.value.from == from <= m.value.addressEnd <= m.value.cells <= m.value.end <= |s|
  {
    var n := Run(IsHex, s, from, |s|);
    var c := Colon(s, n);
    var at := Run(IsBlank, s, c, |s|);
    if !(2 <= n - from <= 8) || at == c then None
    else
      var end := CellsEnd(s, at);
      if end.Some? then Some(RowMatch(from, n, at, end.value)) else None
  }

  /** The closing pattern from `from` on: the address is s[from..end]. */
  function ClosingFrom(s: string, from: nat): (end: Option<nat>)
    requires from <= |s|
    ensures end.Some? ==> from <= end.value <= |s|
  {
    var n := Run(IsHex, s, from, |s|);
    if 2 <= n - from <= 8 && All(IsBlank, s, Colon(s, n), |s|) then Some(n) else None
  }

  /** (?:0000 )? at the start; a match with it comes before one without. */
  predicate HasStart(s: string) {
    "0000 " <= s
  }

  /** /^(?:0000 )?([a-f\d]{2,8}):?\s+((:?[a-f\d]{4}\s*){8}|(:?[a-f\d]{2}\s*){16})/i */
  function RowPattern(s: string): (m: Option<RowMatch>)
    ensures m.Some? ==> m.value.from <= m.value.addressEnd <= m.value.cells <= m.value.end <= |s|
  {
    if HasStart(s) && RowFrom(s, 5).Some? then RowFrom(s, 5) else RowFrom(s, 0)
  }

  /** /^(?:0000 )?([a-f\d]{2,8}):?\s*$/i, with $1 */
  function ClosingPattern(s: string): Option<string> {
    if HasStart(s) && ClosingFrom(s, 5).Some? then Some(s[5..ClosingFrom(s, 5).value])
    else if ClosingFrom(s, 0).Some? then Some(s[..ClosingFrom(s, 0).value])
    else None
  }

  /** split(/\s+/) of s[at..end], which does not start with a blank. */
  function Tokens(s: string, at: nat, end: nat): seq<string>
    requires at <= end <= |s|
    decreases end - at
  {
    if at == end then []
    else if IsBlank(s[at]) then Tokens(s, at + 1, end)
    else
      var n := Run(IsInk, s, at, end);
      [s[at..n]] + Tokens(s, n, end)
  }

  predicate IsInk(c: char) {
    !IsBlank(c)
  }

  // ---- The functions decide the patterns -----------------------------------------------------------------

  /** s[from..end] is of the form :?[a-f\d]{width}\s* */
  predicate InGroup(s: string, from: nat, end: nat, width: nat) {
    var c := Colon(s, from);
    All(IsHex, s, c, c + width) && All(IsBlank, s, c + width, end)
  }

  /** The cuts divide s into consecutive texts of this form. */
  predicate InGroups(s: string, cuts: seq<nat>, width: nat) {
    forall i :: 0 <= i < |cuts| - 1 ==> InGroup(s, cuts[i], cuts[i + 1], width)
  }

  /** The row pattern from `from` on can match with the address, the colon and the blanks ending here. */
  ghost predicate RowShape(s: string, from: nat, n: nat, c: nat, at: nat) {
    && 2 <= n - from <= 8 && All(IsHex, s, from, n)
    && (c == n || (c == n + 1 && n < |s| && s[n] == ':')) && c < at && All(IsBlank, s, c, at)
    && exists cuts: seq<nat> :: |cuts| > 0 && cuts[0] == at && IsCells(s, cuts)
  }

  predicate IsCells(s: string, cuts: seq<nat>) {
    (|cuts| == 9 && InGroups(s, cuts, 4)) || (|cuts| == 17 && InGroups(s, cuts, 2))
  }

  lemma {:induction false} GroupsFit(s: string, at: nat, width: nat, count: nat) returns (cuts: seq<nat>)
    requires width > 0 && at <= |s| && Groups(s, at, width, count).Some?
    ensures |cuts| == count + 1 && cuts[0] == at && cuts[count] == Groups(s, at, width, count).value
    ensures InGroups(s, cuts, width)
    decreases |s| - at
  {
    if count == 0 {
      cuts := [at];
    } else {
      var next := Group(s, at, width).value;
      var rest := GroupsFit(s, next, width, count - 1);
      cuts := [at] + rest;
      forall i | 0 <= i < |cuts| - 1 ensures InGroup(s, cuts[i], cuts[i + 1], width) {
        if i > 0 { assert InGroup(s, rest[i - 1], rest[i], width); }
      }
    }
  }

  /** A text of this form starts with no blank; a group that is followed by no blank ends where the function says. */
  lemma GroupFound(s: string, from: nat, end: nat, width: nat)
    requires width > 0 && InGroup(s, from, end, width)
    ensures from < end && !IsBlank(s[from])
    ensures Group(s, from, width).Some? && (end < |s| && !IsBlank(s[end]) ==> Group(s, from, width) == Some(end))
  {
    var c := Colon(s, from);
    if c == from { assert IsHex(s[c]); }
    if end < |s| && !IsBlank(s[end]) { RunIs(IsBlank, s, c + width, |s|, end); }
  }

  lemma {:induction false} GroupsFound(s: string, cuts: seq<nat>, width: nat)
    requires width > 0 && |cuts| > 0 && cuts[0] <= |s| && InGroups(s, cuts, width)
    ensures Groups(s, cuts[0], width, |cuts| - 1).Some?
    decreases |cuts|
  {
    if |cuts| > 1 {
      assert InGroup(s, cuts[0], cuts[1], width);
      GroupFound(s, cuts[0], cuts[1], width);
      if |cuts| > 2 {
        assert InGroup(s, cuts[1], cuts[2], width);
        GroupFound(s, cuts[1], cuts[2], width);
        forall i | 0 <= i < |cuts[1..]| - 1 ensures InGroup(s, cuts[1..][i], cuts[1..][i + 1], width) {
          assert InGroup(s, cuts[i + 1], cuts[i + 2], width);
        }
        GroupsFound(s, cuts[1..], width);
      }
    }
  }

  lemma CellsFit(s: string, at: nat) returns (cuts: seq<nat>)
    requires at <= |s| && CellsEnd(s, at).Some?
    ensures |cuts| > 0 && cuts[0] == at && IsCells(s, cuts)
  {
    if Groups(s, at, 4, 8).Some? { cuts := GroupsFit(s, at, 4, 8); } else { cuts := GroupsFit(s, at, 2, 16); }
  }

  lemma CellsFound(s: string, cuts: seq<nat>)
    requires |cuts| > 0 && cuts[0] <= |s| && IsCells(s, cuts)
    ensures CellsEnd(s, cuts[0]).Some? && cuts[0] < |s| && !IsBlank(s[cuts[0]])
  {
    var width := if |cuts| == 9 then 4 else 2;
    assert InGroup(s, cuts[0], cuts[1], width);
    GroupFound(s, cuts[0], cuts[1], width);
    GroupsFound(s, cuts, width);
  }

  /** The function finds a match of the row pattern if and only if there is one, and the address and the start of
      the cells are the only ones possible. */
  lemma RowDecided(s: string, from: nat, n: nat, c: nat, at: nat)
    requires from <= |s|
    ensures RowShape(s, from, n, c, at) <==>
      RowFrom(s, from).Some? && RowFrom(s, from).value.addressEnd == n && Colon(s, n) == c && RowFrom(s, from).value.cells == at
  {
    if RowShape(s, from, n, c, at) {
      var cuts: seq<nat> :| |cuts| > 0 && cuts[0] == at && IsCells(s, cuts);
      CellsFound(s, cuts);
      AddressEnds(s, from, n, c, at);
    }
    if RowFrom(s, from).Some? {
      var m := RowFrom(s, from).value;
      var cuts := CellsFit(s, m.cells);
    }
  }

  lemma AddressEnds(s: string, from: nat, n: nat, c: nat, at: nat)
    requires from <= n && All(IsHex, s, from, n) && (c == n || (c == n + 1 && n < |s| && s[n] == ':'))
    requires c < at && All(IsBlank, s, c, at) && (at < |s| ==> !IsBlank(s[at]))
    ensures Run(IsHex, s, from, |s|) == n && Colon(s, n) == c && Run(IsBlank, s, c, |s|) == at
  {
    RunIs(IsHex, s, from, |s|, n);
    RunIs(IsBlank, s, c, |s|, at);
  }

  /** How the closing pattern, without its optional start, takes s apart. */
  predicate ClosingShape(s: string, from: nat, n: nat, c: nat) {
    && 2 <= n - from <= 8 && All(IsHex, s, from, n)
    && (c == n || (c == n + 1 && n < |s| && s[n] == ':')) && All(IsBlank, s, c, |s|)
  }

  lemma ClosingDecided(s: string, from: nat, n: nat)
    requires from <= |s|
    ensures ClosingFrom(s, from) == Some(n) <==> exists c :: ClosingShape(s, from, n, c)
  {
    if ClosingFrom(s, from) == Some(n) {
      assert ClosingShape(s, from, n, Colon(s, n));
    }
    if c :| ClosingShape(s, from, n, c) {
      RunIs(IsHex, s, from, |s|, n);
    }
  }

  /** Where the patterns may start. */
  predicate MayStart(s: string, from: nat) {
    from == 0 || (from == 5 && "0000 " <= s)
  }

  /** There is a match of the row pattern. */
  ghost predicate IsRow(s: string) {
    exists from, n, c, at :: MayStart(s, from) && RowShape(s, from, n, c, at)
  }

  /** There is a match of the closing pattern. */
  ghost predicate IsClosing(s: string) {
    exists from, n, c :: MayStart(s, from) && ClosingShape(s, from, n, c)
  }

  lemma RowPatternDecided(s: string)
    ensures RowPattern(s).Some? <==> IsRow(s)
  {
    if RowPattern(s).Some? {
      var m := RowPattern(s).value;
      RowDecided(s, m.from, m.addressEnd, Colon(s, m.addressEnd), m.cells);
    }
    if from, n, c, at :| MayStart(s, from) && RowShape(s, from, n, c, at) {
      RowDecided(s, from, n, c, at);
    }
  }

  lemma ClosingPatternDecided(s: string)
    ensures ClosingPattern(s).Some? <==> IsClosing(s)
  {
    if HasStart(s) && ClosingFrom(s, 5).Some? {
      ClosingDecided(s, 5, ClosingFrom(s, 5).value);
    } else if ClosingFrom(s, 0).Some? {
      ClosingDecided(s, 0, ClosingFrom(s, 0).value);
    }
    if from, n, c :| MayStart(s, from) && ClosingShape(s, from, n, c) {
      ClosingDecided(s, from, n);
    }
  }

  /** A line that does not start with a digit matches neither. */
  lemma NoDigitFirst(s: string)
    requires s == "" || !IsHex(s[0])
    ensures !IsRow(s) && !IsClosing(s)
  {
    if s != "" && !IsHex(s[0]) {
      assert "0000 "[0] == '0' && s[0] != '0';
    }
  }
}
