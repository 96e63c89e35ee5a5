/**
 * Bytes and the handful of Python string operations the object model relies on:
 * ASCII encoding and decoding, str(n) for a length, int() of a header field,
 * str.split(), str.split(None, 1), str.strip(), str.splitlines(), str.lower()
 * and str.split(":", 1).
 */
module Text {
  import opened Outcomes

  newtype byte = x: int | 0 <= x < 256

  // ---------------------------------------------------------------- ASCII

  predicate IsAsciiChar(c: char) { c as int < 128 }

  predicate IsAscii(s: string) { forall i :: 0 <= i < |s| ==> IsAsciiChar(s[i]) }

  /** The bytes of an ASCII string, one per character. */
  function AsciiBytes(s: string): (b: seq<byte>)
    requires IsAscii(s)
    ensures |b| == |s|
    ensures forall i :: 0 <= i < |s| ==> b[i] as int == s[i] as int
  {
    seq(|s|, i requires 0 <= i < |s| => s[i] as int as byte)
  }

  /** str.encode("ascii"): fails on any character outside ASCII. */
  function EncodeAscii(s: string): (r: Result<seq<byte>>)
    ensures r.Success? <==> IsAscii(s)
    ensures r.Success? ==> |r.value| == |s|
  {
    if IsAscii(s) then Success(AsciiBytes(s)) else Failure(NotAscii)
  }

  /** bytes.decode("ascii"): fails on any byte of 128 or more. */
  function DecodeAscii(b: seq<byte>): (r: Result<string>)
    ensures r.Success? <==> forall i :: 0 <= i < |b| ==> b[i] < 128
    ensures r.Success? ==> IsAscii(r.value) && |r.value| == |b|
  {
    if forall i :: 0 <= i < |b| ==> b[i] < 128
    then Success(seq(|b|, i requires 0 <= i < |b| => b[i] as int as char))
    else Failure(NotAscii)
  }

  lemma DecodeEncodedAscii(s: string)
    requires IsAscii(s)
    ensures DecodeAscii(AsciiBytes(s)) == Success(s)
  {
    var b := AsciiBytes(s);
    assert forall i :: 0 <= i < |b| ==> b[i] < 128 && b[i] as int as char == s[i] by {
      forall i | 0 <= i < |b| ensures b[i] < 128 && b[i] as int as char == s[i] {
        assert b[i] as int == s[i] as int;
      }
    }
    var t := seq(|b|, i requires 0 <= i < |b| => b[i] as int as char);
    assert t == s;
  }

  lemma AsciiBytesAppend(a: string, b: string)
    requires IsAscii(a) && IsAscii(b)
    ensures IsAscii(a + b) && AsciiBytes(a + b) == AsciiBytes(a) + AsciiBytes(b)
  {
    assert IsAscii(a + b) by {
      forall i | 0 <= i < |a + b| ensures IsAsciiChar((a + b)[i]) {
        if i >= |a| { assert (a + b)[i] == b[i - |a|]; }
      }
    }
  }

  // ---------------------------------------------------------- whitespace

  /** str.isspace() for one character. */
  predicate IsSpace(c: char) {
    var n := c as int;
    9 <= n <= 13 || 28 <= n <= 32 || n == 0x85 || n == 0xA0 || n == 0x1680
    || 0x2000 <= n <= 0x200A || n == 0x2028 || n == 0x2029 || n == 0x202F
    || n == 0x205F || n == 0x3000
  }

  /** A line boundary of str.splitlines(). */
  predicate IsLineBreak(c: char) {
    var n := c as int;
    10 <= n <= 13 || 28 <= n <= 30 || n == 0x85 || n == 0x2028 || n == 0x2029
  }

  predicate NoSpace(s: string) { forall i :: 0 <= i < |s| ==> !IsSpace(s[i]) }

  predicate NoLineBreak(s: string) { forall i :: 0 <= i < |s| ==> !IsLineBreak(s[i]) }

  /** Whitespace only (or nothing at all). */
  predicate Blank(s: string) { forall i :: 0 <= i < |s| ==> IsSpace(s[i]) }

  /** Length of the run of non-space characters that starts s. */
  function WordLength(s: string): (n: nat)
    ensures n <= |s|
    ensures NoSpace(s[..n])
    ensures n < |s| ==> IsSpace(s[n])
  {
    if s == [] || IsSpace(s[0]) then 0 else 1 + WordLength(s[1..])
  }

  /** str.lstrip(): drop the leading whitespace. */
  function TrimStart(s: string): (t: string)
    ensures |t| <= |s|
    ensures t != [] ==> !IsSpace(t[0])
  {
    if s != [] && IsSpace(s[0]) then TrimStart(s[1..]) else s
  }

  /** str.rstrip(): drop the trailing whitespace. */
  function TrimEnd(s: string): (t: string)
    ensures |t| <= |s|
    ensures t != [] ==> !IsSpace(t[|t| - 1])
  {
    if s != [] && IsSpace(s[|s| - 1]) then TrimEnd(s[..|s| - 1]) else s
  }

  /** lstrip() removes only whitespace, and only from the front. */
  lemma {:induction false} TrimStartIsSuffix(s: string)
    ensures s == s[..|s| - |TrimStart(s)|] + TrimStart(s)
    ensures forall i :: 0 <= i < |s| - |TrimStart(s)| ==> IsSpace(s[i])
  {
    if s != [] && IsSpace(s[0]) {
      TrimStartIsSuffix(s[1..]);
      assert s == [s[0]] + s[1..];
    }
  }

  /** rstrip() removes only whitespace, and only from the back. */
  lemma {:induction false} TrimEndIsPrefix(s: string)
    ensures s == TrimEnd(s) + s[|TrimEnd(s)|..]
    ensures forall i :: |TrimEnd(s)| <= i < |s| ==> IsSpace(s[i])
  {
    if s != [] && IsSpace(s[|s| - 1]) {
      TrimEndIsPrefix(s[..|s| - 1]);
      assert s == s[..|s| - 1] + [s[|s| - 1]];
    }
  }

  /** str.strip() with no argument. */
  function Strip(s: string): string {
    TrimEnd(TrimStart(s))
  }

  /** lstrip() of leading whitespace followed by text that starts with a non-space is that text. */
  lemma {:induction false} TrimStartBlank(a: string, x: string)
    requires Blank(a) && (x == [] || !IsSpace(x[0]))
    ensures TrimStart(a + x) == x
  {
    if a != [] {
      assert (a + x)[1..] == a[1..] + x;
      TrimStartBlank(a[1..], x);
    } else {
      assert a + x == x;
    }
  }

  /** rstrip() of text that ends with a non-space followed by trailing whitespace is that text. */
  lemma {:induction false} TrimEndBlank(y: string, b: string)
    requires Blank(b) && (y == [] || !IsSpace(y[|y| - 1]))
    ensures TrimEnd(y + b) == y
  {
    if b != [] {
      assert (y + b)[..|y + b| - 1] == y + b[..|b| - 1];
      TrimEndBlank(y, b[..|b| - 1]);
    } else {
      assert y + b == y;
    }
  }

  /** strip() removes exactly the whitespace around text that starts and ends with a non-space. */
  lemma StripPadded(a: string, v: string, b: string)
    requires Blank(a) && Blank(b) && v != [] && !IsSpace(v[0]) && !IsSpace(v[|v| - 1])
    ensures Strip(a + v + b) == v
  {
    assert a + v + b == a + (v + b);
    TrimStartBlank(a, v + b);
    TrimEndBlank(v, b);
  }

  lemma StripNoSpace(s: string)
    requires NoSpace(s)
    ensures Strip(s) == s
  {
  }

  /** str.split() with no argument: the maximal runs of non-space characters. */
  function Fields(s: string): (r: seq<string>)
    decreases |s|
  {
    if s == [] then []
    else if IsSpace(s[0]) then Fields(s[1..])
    else
      var n := WordLength(s);
      [s[..n]] + Fields(s[n..])
  }

  /** Leading whitespace separates no field. */
  lemma {:induction false} FieldsTrimStart(s: string)
    ensures Fields(TrimStart(s)) == Fields(s)
  {
    if s != [] && IsSpace(s[0]) {
      FieldsTrimStart(s[1..]);
    }
  }

  /** Whitespace alone holds no field. */
  lemma {:induction false} FieldsBlank(s: string)
    requires Blank(s)
    ensures Fields(s) == []
  {
    if s != [] {
      FieldsBlank(s[1..]);
    }
  }

  /** Trailing whitespace separates no field. */
  lemma {:induction false} FieldsAppendBlank(u: string, b: string)
    requires Blank(b)
    ensures Fields(u + b) == Fields(u)
    decreases |u|
  {
    if u == [] {
      assert u + b == b;
      FieldsBlank(b);
    } else if IsSpace(u[0]) {
      assert (u + b)[1..] == u[1..] + b;
      FieldsAppendBlank(u[1..], b);
    } else {
      var n := WordLength(u);
      assert u + b == u[..n] + (u[n..] + b);
      WordLengthOfWord(u[..n], u[n..] + b);
      assert (u + b)[..n] == u[..n];
      assert (u + b)[n..] == u[n..] + b;
      FieldsAppendBlank(u[n..], b);
    }
  }

  /** strip() does not change the fields. */
  lemma FieldsStrip(s: string)
    ensures Fields(Strip(s)) == Fields(s)
  {
    var t := TrimStart(s);
    FieldsTrimStart(s);
    TrimEndIsPrefix(t);
    FieldsAppendBlank(TrimEnd(t), t[|TrimEnd(t)|..]);
  }

  lemma {:induction false} WordLengthOfWord(w: string, rest: string)
    requires NoSpace(w)
    requires rest == [] || IsSpace(rest[0])
    ensures WordLength(w + rest) == |w|
  {
    if w != [] {
      assert (w + rest)[1..] == w[1..] + rest;
      WordLengthOfWord(w[1..], rest);
    }
  }

  lemma {:induction false} FieldsOfWord(w: string)
    requires w != [] && NoSpace(w)
    ensures Fields(w) == [w]
  {
    WordLengthOfWord(w, []);
    assert w + [] == w;
  }

  /** Two words joined by one space split back into those two words. */
  lemma {:induction false} FieldsOfTwoWords(a: string, b: string)
    requires a != [] && NoSpace(a) && b != [] && NoSpace(b)
    ensures Fields(a + " " + b) == [a, b]
  {
    var s := a + " " + b;
    WordLengthOfWord(a, " " + b);
    assert s == a + (" " + b);
    assert s[..|a|] == a;
    assert s[|a|..] == " " + b;
    assert (" " + b)[1..] == b;
    FieldsOfWord(b);
  }

  /** str.split(None, 1): the first word and, if anything follows, the rest after the space run. */
  function SplitOnce(s: string): (r: seq<string>)
    ensures |r| <= 2
    ensures |r| == 2 ==> r[1] != [] && !IsSpace(r[1][0])
  {
    var t := TrimStart(s);
    if t == [] then []
    else
      var n := WordLength(t);
      var rest := TrimStart(t[n..]);
      if rest == [] then [t[..n]] else [t[..n], rest]
  }

  lemma TrimStartOfWord(s: string)
    requires s != [] && !IsSpace(s[0])
    ensures TrimStart(s) == s
  {
  }

  /**
   * str.split(None, 1) of a word, a whitespace run and a rest that starts with a
   * non-space gives the word and the rest, whatever whitespace the rest holds.
   */
  lemma SplitOnceOfWordAndRest(w: string, g: string, rest: string)
    requires w != [] && NoSpace(w) && g != [] && Blank(g) && rest != [] && !IsSpace(rest[0])
    ensures SplitOnce(w + g + rest) == [w, rest]
  {
    var s := w + g + rest;
    assert s == w + (g + rest);
    assert s[0] == w[0];
    TrimStartOfWord(s);
    WordLengthOfWord(w, g + rest);
    assert s[..|w|] == w && s[|w|..] == g + rest;
    TrimStartBlank(g, rest);
  }

  /** str.split(None, 1) gives fewer than two parts exactly when str.split() does. */
  lemma SplitOnceCount(s: string)
    ensures |SplitOnce(s)| < 2 <==> |Fields(s)| < 2
  {
    var t := TrimStart(s);
    FieldsTrimStart(s);
    if t != [] {
      var n := WordLength(t);
      var rest := TrimStart(t[n..]);
      FieldsTrimStart(t[n..]);
      assert Fields(t) == [t[..n]] + Fields(t[n..]);
      if rest != [] {
        assert Fields(rest) == [rest[..WordLength(rest)]] + Fields(rest[WordLength(rest)..]);
      }
    }
  }

  // ---------------------------------------------------------- splitlines

  /** Index of the first line boundary in s, or |s| when there is none. */
  function FirstBreak(s: string): (i: nat)
    ensures i <= |s|
    ensures NoLineBreak(s[..i])
    ensures i < |s| ==> IsLineBreak(s[i])
  {
    if s == [] || IsLineBreak(s[0]) then 0 else 1 + FirstBreak(s[1..])
  }

  /** str.splitlines(): split at every line boundary ("\r\n" counts as one); no trailing empty line. */
  function SplitLines(s: string): (r: seq<string>)
    decreases |s|
  {
    if s == [] then []
    else
      var i := FirstBreak(s);
      if i == |s| then [s]
      else
        var next := if s[i] == '\r' && i + 1 < |s| && s[i + 1] == '\n' then i + 2 else i + 1;
        [s[..i]] + SplitLines(s[next..])
  }

  lemma {:induction false} FirstBreakOfLine(line: string, rest: string)
    requires NoLineBreak(line)
    requires rest == [] || IsLineBreak(rest[0])
    ensures FirstBreak(line + rest) == |line|
  {
    if line != [] {
      assert (line + rest)[1..] == line[1..] + rest;
      FirstBreakOfLine(line[1..], rest);
    }
  }

  /** A break-free line followed by "\n" is split off as one line. */
  lemma SplitLinesCons(line: string, rest: string)
    requires NoLineBreak(line)
    ensures SplitLines(line + "\n" + rest) == [line] + SplitLines(rest)
  {
    var s := line + "\n" + rest;
    assert s == line + ("\n" + rest);
    FirstBreakOfLine(line, "\n" + rest);
    assert s[..|line|] == line;
    assert s[|line| + 1..] == rest;
  }

  lemma SplitLinesSingle(line: string)
    requires line != [] && NoLineBreak(line)
    ensures SplitLines(line) == [line]
  {
    FirstBreakOfLine(line, []);
    assert line + [] == line;
  }

  // ---------------------------------------------------------- keys

  /** str.lower() on ASCII text. */
  function LowerAscii(s: string): (r: string)
    ensures |r| == |s|
  {
    seq(|s|, i requires 0 <= i < |s| =>
      if 'A' <= s[i] <= 'Z' then (s[i] as int + 32) as char else s[i])
  }

  /** Index of the first ':' in s, or |s| when there is none. */
  function ColonIndex(s: string): (i: nat)
    ensures i <= |s|
    ensures ':' !in s[..i]
    ensures i < |s| ==> s[i] == ':'
  {
    if s == [] || s[0] == ':' then 0 else 1 + ColonIndex(s[1..])
  }

  lemma {:induction false} ColonIndexOfKey(key: string, rest: string)
    requires ':' !in key
    ensures ColonIndex(key + ":" + rest) == |key|
  {
    if key != [] {
      assert (key + ":" + rest)[1..] == key[1..] + ":" + rest;
      ColonIndexOfKey(key[1..], rest);
    }
  }

  // ---------------------------------------------------------- integers

  predicate IsDigit(c: char) { '0' <= c <= '9' }

  function DigitValue(c: char): nat { if IsDigit(c) then c as int - '0' as int else 0 }

  function DigitChar(d: nat): (c: char)
    requires d < 10
    ensures IsDigit(c) && DigitValue(c) == d
  {
    (d + '0' as int) as char
  }

  /** str(n) for a non-negative integer: decimal digits, no leading zero. */
  function Decimal(n: nat): (s: string)
    ensures s != []
    ensures forall i :: 0 <= i < |s| ==> IsDigit(s[i])
    ensures n > 0 ==> s[0] != '0'
  {
    if n < 10 then [DigitChar(n)] else Decimal(n / 10) + [DigitChar(n % 10)]
  }

  /** The text accepted by int() after the sign: digits, single underscores between digits. */
  predicate IsDigitRun(t: string) {
    && t != []
    && IsDigit(t[0])
    && forall i :: 0 <= i < |t| ==> IsDigit(t[i]) || (t[i] == '_' && i + 1 < |t| && IsDigit(t[i + 1]))
  }

  /** The value of a digit run, underscores ignored. */
  function DigitsValue(t: string): nat {
    if t == [] then 0
    else if t[|t| - 1] == '_' then DigitsValue(t[..|t| - 1])
    else DigitsValue(t[..|t| - 1]) * 10 + DigitValue(t[|t| - 1])
  }

  /** int(s) for base-10 text without surrounding whitespace. */
  function ParseInt(s: string): Option<int> {
    if s != [] && (s[0] == '+' || s[0] == '-') then
      if IsDigitRun(s[1..]) then
        var v: int := DigitsValue(s[1..]);
        Some(if s[0] == '-' then -v else v)
      else None
    else if IsDigitRun(s) then Some(DigitsValue(s))
    else None
  }

  lemma {:induction false} DigitsValueOfDecimal(n: nat)
    ensures DigitsValue(Decimal(n)) == n
  {
    if n >= 10 {
      var s := Decimal(n);
      assert s[..|s| - 1] == Decimal(n / 10);
      DigitsValueOfDecimal(n / 10);
    }
  }

  /** int(str(n)) == n: the declared length reads back as written. */
  lemma ParseDecimal(n: nat)
    ensures ParseInt(Decimal(n)) == Some(n)
  {
    DigitsValueOfDecimal(n);
  }

  lemma DecimalIsAsciiWord(n: nat)
    ensures IsAscii(Decimal(n)) && NoSpace(Decimal(n))
  {
  }
}
