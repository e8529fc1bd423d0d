/** Characters and lines of a rec file: what `fgets` hands out, and how a footprint is written and read. */
module RecText {

  /** `char s[1024]`: a call of `fgets` takes at most one character less. */
  const LINE_MAX: nat := 1023

  // ---------------------------------------------------------------- fgets

  /** The first n characters are what one call takes: up to a newline, or the buffer size, or the end of the file. */
  ghost predicate IsChunk(text: string, n: nat) {
    && 0 < n <= |text| && n <= LINE_MAX
    && (forall i :: 0 <= i < n - 1 ==> text[i] != '\n')
    && (text[n - 1] == '\n' || n == LINE_MAX || n == |text|)
  }

  function ChunkFrom(text: string, n: nat): (end: nat)
    requires n < |text| && n < LINE_MAX && forall i :: 0 <= i < n ==> text[i] != '\n'
    ensures IsChunk(text, end)
    decreases |text| - n
  {
    if text[n] == '\n' || n + 1 == LINE_MAX || n + 1 == |text| then n + 1 else ChunkFrom(text, n + 1)
  }

  /** The file as the successive calls of `fgets` see it. */
  function Chunks(text: string): (lines: seq<string>) {
    if text == "" then [] else
    var n := ChunkFrom(text, 0);
    [text[..n]] + Chunks(text[n..])
  }

  lemma ChunkUnique(text: string, n: nat, m: nat)
    requires IsChunk(text, n) && IsChunk(text, m)
    ensures n == m
  {
  }

  lemma FirstChunk(text: string, n: nat)
    requires IsChunk(text, n)
    ensures Chunks(text) == [text[..n]] + Chunks(text[n..])
  {
    ChunkUnique(text, n, ChunkFrom(text, 0));
  }

  function Concat(lines: seq<string>): (text: string) {
    if lines == [] then "" else lines[0] + Concat(lines[1..])
  }

  /** A line as printed: a newline at its end and nowhere else, and no null character. */
  ghost predicate IsLine(s: string) {
    s != "" && s[|s| - 1] == '\n' && (forall i :: 0 <= i < |s| - 1 ==> s[i] != '\n') && '\0' !in s
  }

  /** A short line at the start of a text is the first chunk. */
  lemma LineIsChunk(line: string, rest: string)
    requires IsLine(line) && |line| < LINE_MAX
    ensures IsChunk(line + rest, |line|)
    ensures (line + rest)[..|line|] == line && (line + rest)[|line|..] == rest
  {
    var text := line + rest;
    assert forall i :: 0 <= i < |line| ==> text[i] == line[i];
  }

  /** Short lines are read back one by one. */
  lemma {:induction false} ChunksOfLines(lines: seq<string>)
    requires forall l {:trigger l in lines} :: l in lines ==> IsLine(l) && |l| < LINE_MAX
    ensures Chunks(Concat(lines)) == lines
  {
    if lines != [] {
      var first, rest := lines[0], lines[1..];
      assert first in lines && forall l {:trigger l in rest} :: l in rest ==> l in lines;
      LineIsChunk(first, Concat(rest));
      FirstChunk(first + Concat(rest), |first|);
      ChunksOfLines(rest);
      assert lines == [first] + rest;
    }
  }

  /** A long line at the start of a text fills the buffer. */
  lemma LongLineIsChunk(line: string, rest: string)
    requires IsLine(line) && |line| >= LINE_MAX
    ensures IsChunk(line + rest, LINE_MAX) && (line + rest)[..LINE_MAX] == line[..LINE_MAX]
  {
    var text := line + rest;
    assert forall i :: 0 <= i < |line| ==> text[i] == line[i];
  }

  /** A line that does not fit gives a full buffer. */
  lemma {:induction false} LongLineFillsBuffer(lines: seq<string>, k: nat) returns (m: nat)
    requires forall l {:trigger l in lines} :: l in lines ==> IsLine(l)
    requires k < |lines| && |lines[k]| >= LINE_MAX && forall i :: 0 <= i < k ==> |lines[i]| < LINE_MAX
    ensures m < |Chunks(Concat(lines))| && Chunks(Concat(lines))[m] == lines[k][..LINE_MAX]
    decreases k
  {
    var first, rest := lines[0], lines[1..];
    assert first in lines && forall l {:trigger l in rest} :: l in rest ==> l in lines;
    if k == 0 {
      LongLineIsChunk(first, Concat(rest));
      FirstChunk(first + Concat(rest), LINE_MAX);
      m := 0;
    } else {
      LineIsChunk(first, Concat(rest));
      FirstChunk(first + Concat(rest), |first|);
      var m' := LongLineFillsBuffer(rest, k - 1);
      m := m' + 1;
    }
  }

  /** What the string functions see of a buffer: up to the first null character. */
  function CString(s: string): (r: string)
    ensures '\0' !in r && r <= s && (|r| < |s| ==> s[|r|] == '\0')
    ensures '\0' !in s ==> r == s
  {
    if s == "" || s[0] == '\0' then "" else [s[0]] + CString(s[1..])
  }

  /** `fgets` on the file at this position. */
  method ReadChunk(text: string, pos: nat) returns (next: nat)
    requires pos < |text|
    ensures next <= |text| && pos < next && IsChunk(text[pos..], next - pos)
  {
    next := pos + 1;
    while next < |text| && next - pos < LINE_MAX && text[next - 1] != '\n'
      invariant pos < next <= |text| && next - pos <= LINE_MAX
      invariant forall i :: pos <= i < next - 1 ==> text[i] != '\n'
    {
      next := next + 1;
    }
  }

  // ---------------------------------------------------------------- hexadecimal numbers

  type Digit = d: nat | d < 16

  /** The digits that `%x` writes. */
  function HexChar(d: Digit): (c: char) {
    "0123456789abcdef"[d]
  }

  predicate IsHex(c: char) {
    '0' <= c <= '9' || 'a' <= c <= 'f' || 'A' <= c <= 'F'
  }

  function HexDigit(c: char): (d: Digit)
    requires IsHex(c)
  {
    if c <= '9' then (c - '0') as nat else if c <= 'F' then (c - 'A') as nat + 10 else (c - 'a') as nat + 10
  }

  predicate IsLowerHex(c: char) {
    '0' <= c <= '9' || 'a' <= c <= 'f'
  }

  /** `%0<width>x` of a number that needs no more digits than that. */
  function ToHex(n: nat, width: nat): (s: string)
    ensures |s| == width && forall i :: 0 <= i < width ==> IsHex(s[i]) && IsLowerHex(s[i])
  {
    if width == 0 then "" else ToHex(n / 16, width - 1) + [HexChar(n % 16)]
  }

  /** The number that the leading hexadecimal digits stand for, after the digits so far. */
  function HexValue(s: string, sofar: nat): (n: nat) {
    if s == "" || !IsHex(s[0]) then sofar else HexValue(s[1..], 16 * sofar + HexDigit(s[0]))
  }

  predicate IsSpace(c: char) {
    c == ' ' || '\t' <= c <= '\r'
  }

  function SkipSpace(s: string): (r: string) {
    if s != "" && IsSpace(s[0]) then SkipSpace(s[1..]) else s
  }

  const ULONG_MAX: nat := 0xffff_ffff_ffff_ffff

  /** `strtoul(s, NULL, 16)`, section 7.22.1.4 of ISO C 2011: white space, a sign, a prefix 0x, digits; a number out of
      range gives the largest one, and a minus sign negates in the unsigned type. */
  function StrToUL(s: string): (n: nat)
    ensures n <= ULONG_MAX
  {
    var t := SkipSpace(s);
    var negative := t != "" && t[0] == '-';
    var u := if t != "" && (t[0] == '-' || t[0] == '+') then t[1..] else t;
    var v := if |u| >= 2 && u[0] == '0' && (u[1] == 'x' || u[1] == 'X') then u[2..] else u;
    var value := HexValue(v, 0);
    if value > ULONG_MAX then ULONG_MAX
    else if negative && value != 0 then ULONG_MAX + 1 - value
    else value
  }

  const UINT32: nat := 0x1_0000_0000

  /** n with that many hexadecimal digits 0 after it. */
  function Shift16(n: nat, width: nat): (r: nat) {
    if width == 0 then n else 16 * Shift16(n, width - 1)
  }

  lemma HexCharDigit(d: Digit)
    ensures IsHex(HexChar(d)) && HexDigit(HexChar(d)) == d
    ensures d >= 10 ==> HexDigit("ABCDEF"[d - 10]) == d
  {
  }

  ghost predicate HexDigits(s: string) {
    forall i {:trigger s[i]} :: 0 <= i < |s| ==> IsHex(s[i])
  }

  /** What the digits stand for, by position. */
  ghost function Positional(digits: string): (n: nat)
    requires HexDigits(digits)
  {
    if digits == "" then 0 else 16 * Positional(digits[..|digits| - 1]) + HexDigit(digits[|digits| - 1])
  }

  /** Reading digits, and then whatever follows them. */
  lemma {:induction false} HexValueOfDigits(digits: string, rest: string, sofar: nat)
    requires HexDigits(digits)
    ensures HexValue(digits + rest, sofar) == HexValue(rest, Shift16(sofar, |digits|) + Positional(digits))
    decreases |digits|
  {
    if digits == "" {
      assert digits + rest == rest;
    } else {
      var front, c := digits[..|digits| - 1], digits[|digits| - 1];
      assert digits + rest == front + ([c] + rest);
      HexValueOfDigits(front, [c] + rest, sofar);
      assert ([c] + rest)[1..] == rest;
    }
  }

  lemma {:induction false} ShiftZero(width: nat)
    ensures Shift16(0, width) == 0
  {
    if width != 0 {
      ShiftZero(width - 1);
    }
  }

  /** The text goes on with something that is not part of the number. */
  ghost predicate Stops(rest: string) {
    rest == "" || (!IsHex(rest[0]) && rest[0] != 'x' && rest[0] != 'X')
  }

  function Clamped(n: nat): (r: nat) {
    if n > ULONG_MAX then ULONG_MAX else n
  }

  /** Text that starts with a digit, and with no prefix. */
  ghost predicate Unadorned(s: string) {
    s != "" && IsHex(s[0]) && !(|s| >= 2 && s[0] == '0' && (s[1] == 'x' || s[1] == 'X'))
  }

  lemma DigitsUnadorned(digits: string, rest: string)
    requires digits != "" && HexDigits(digits) && Stops(rest)
    ensures Unadorned(digits + rest) && HexValue(digits + rest, 0) == Positional(digits)
  {
    var s := digits + rest;
    assert s[0] == digits[0] && IsHex(digits[0]);
    assert |digits| >= 2 ==> s[1] == digits[1] && IsHex(digits[1]);
    assert |digits| == 1 && |s| >= 2 ==> s[1] == rest[0];
    HexValueOfDigits(digits, rest, 0);
    ShiftZero(|digits|);
  }

  /** Digits, however many, are read as the number they stand for, or as the largest one. */
  lemma DigitsReadBack(digits: string, rest: string)
    requires digits != "" && HexDigits(digits) && Stops(rest)
    ensures StrToUL(digits + rest) == Clamped(Positional(digits))
  {
    DigitsUnadorned(digits, rest);
    assert SkipSpace(digits + rest) == digits + rest;
  }

  lemma SignForms(s: string)
    requires Unadorned(s)
    ensures StrToUL(['+'] + s) == Clamped(HexValue(s, 0))
    ensures HexValue(s, 0) <= ULONG_MAX ==>
      StrToUL(['-'] + s) == if HexValue(s, 0) == 0 then 0 else ULONG_MAX + 1 - HexValue(s, 0)
  {
    assert (['+'] + s)[1..] == s && (['-'] + s)[1..] == s;
  }

  lemma PrefixForm(s: string)
    ensures StrToUL(['0', 'x'] + s) == StrToUL(['0', 'X'] + s) == Clamped(HexValue(s, 0))
  {
    assert (['0', 'x'] + s)[2..] == s && (['0', 'X'] + s)[2..] == s;
  }

  lemma SpaceForm(s: string, space: char)
    requires IsSpace(space)
    ensures StrToUL([space] + s) == StrToUL(s)
  {
    assert ([space] + s)[1..] == s;
  }

  /** White space in front does not matter, nor do a plus sign and the prefix 0x; a minus sign negates in the unsigned
      type. */
  lemma OtherForms(digits: string, rest: string, space: char)
    requires digits != "" && HexDigits(digits) && Stops(rest) && IsSpace(space)
    ensures StrToUL([space] + (digits + rest)) == Clamped(Positional(digits))
    ensures StrToUL(['+'] + (digits + rest)) == Clamped(Positional(digits))
    ensures StrToUL(['0', 'x'] + (digits + rest)) == Clamped(Positional(digits))
    ensures 0 < Positional(digits) <= ULONG_MAX ==>
      StrToUL(['-'] + (digits + rest)) + Positional(digits) == ULONG_MAX + 1
  {
    DigitsUnadorned(digits, rest);
    DigitsReadBack(digits, rest);
    SpaceForm(digits + rest, space);
    SignForms(digits + rest);
    PrefixForm(digits + rest);
  }

  // ---------------------------------------------------------------- printed numbers

  lemma PositionalNext(front: string, d: Digit)
    requires HexDigits(front)
    ensures HexDigits(front + [HexChar(d)]) && Positional(front + [HexChar(d)]) == 16 * Positional(front) + d
  {
    HexCharDigit(d);
    assert (front + [HexChar(d)])[..|front|] == front;
  }

  lemma {:induction false} PositionalOfToHex(n: nat, width: nat)
    requires n < Shift16(1, width)
    ensures HexDigits(ToHex(n, width)) && Positional(ToHex(n, width)) == n
  {
    if width != 0 {
      PositionalOfToHex(n / 16, width - 1);
      PositionalNext(ToHex(n / 16, width - 1), n % 16);
    }
  }

  /** `%lx`: no more digits than needed. */
  function HexText(n: nat): (s: string)
    ensures s != "" && (s[0] == '0' ==> n == 0) && forall i :: 0 <= i < |s| ==> IsLowerHex(s[i])
  {
    (if n < 16 then "" else HexText(n / 16)) + [HexChar(n % 16)]
  }

  lemma {:induction false} PositionalOfHexText(n: nat)
    ensures HexDigits(HexText(n)) && Positional(HexText(n)) == n
  {
    if n < 16 {
      PositionalNext("", n);
      assert HexText(n) == "" + [HexChar(n)];
    } else {
      PositionalOfHexText(n / 16);
      PositionalNext(HexText(n / 16), n % 16);
    }
  }

  /** A number that fits survives being printed with `%lx` and read back from the rest of the line. */
  lemma HexTextRoundTrip(n: nat)
    requires n <= ULONG_MAX
    ensures StrToUL(HexText(n) + "\n") == n
  {
    PositionalOfHexText(n);
    DigitsReadBack(HexText(n), "\n");
  }

  lemma EightDigits()
    ensures Shift16(1, 8) == UINT32
  {
    assert Shift16(1, 2) == 256;
    assert Shift16(1, 4) == 65536;
    assert Shift16(1, 6) == 16777216;
  }

  /** A footprint survives being printed with `%08x` and read back from the rest of the line. */
  lemma FootprintRoundTrip(n: nat)
    requires n < UINT32
    ensures StrToUL(ToHex(n, 8) + "\n") == n
  {
    EightDigits();
    HexRoundTrip(n, 8, "\n");
  }

  lemma HexRoundTrip(n: nat, width: nat, rest: string)
    requires n < UINT32 == Shift16(1, width) && width != 0 && Stops(rest)
    ensures StrToUL(ToHex(n, width) + rest) == n
  {
    PositionalOfToHex(n, width);
    DigitsReadBack(ToHex(n, width), rest);
  }
}
