/** The Python string operations that the style checker uses. */
module PyStrings {

  /** str.isspace for one character. */
  predicate IsSpace(c: char) {
    var n := c as int;
    || 9 <= n <= 13 || 28 <= n <= 32 || n == 0x85 || n == 0xA0 || n == 0x1680
    || 0x2000 <= n <= 0x200A || n == 0x2028 || n == 0x2029 || n == 0x202F || n == 0x205F || n == 0x3000
  }

  function LStrip(p: char -> bool, s: string): string {
    if s != [] && p(s[0]) then LStrip(p, s[1..]) else s
  }

  function RStrip(p: char -> bool, s: string): string {
    if s != [] && p(s[|s| - 1]) then RStrip(p, s[..|s| - 1]) else s
  }

  function Strip(p: char -> bool, s: string): string {
    RStrip(p, LStrip(p, s))
  }

  ghost predicate All(p: char -> bool, s: string) {
    forall i :: 0 <= i < |s| ==> p(s[i])
  }

  /** Neither end of s would be stripped. */
  ghost predicate Solid(p: char -> bool, s: string) {
    s != [] ==> !p(s[0]) && !p(s[|s| - 1])
  }

  lemma {:induction false} LStripSplit(p: char -> bool, s: string) returns (n: nat)
    ensures n <= |s| && LStrip(p, s) == s[n..] && All(p, s[..n])
    ensures n < |s| ==> !p(s[n])
  {
    if s != [] && p(s[0]) {
      var m := LStripSplit(p, s[1..]);
      n := m + 1;
      assert s[1..][m..] == s[n..];
      forall i | 0 <= i < n ensures p(s[..n][i]) {
        assert i > 0 ==> s[..n][i] == s[1..][..m][i - 1];
      }
    } else {
      n := 0;
    }
  }

  lemma {:induction false} RStripSplit(p: char -> bool, s: string) returns (n: nat)
    ensures n <= |s| && RStrip(p, s) == s[..n] && All(p, s[n..])
    ensures n > 0 ==> !p(s[n - 1])
  {
    if s != [] && p(s[|s| - 1]) {
      n := RStripSplit(p, s[..|s| - 1]);
      assert s[..|s| - 1][..n] == s[..n];
      forall i | 0 <= i < |s| - n ensures p(s[n..][i]) {
        assert i < |s| - 1 - n ==> s[n..][i] == s[..|s| - 1][n..][i];
      }
    } else {
      n := |s|;
    }
  }

  /** What strip takes off, and what it leaves. */
  lemma StripSplit(p: char -> bool, s: string) returns (a: string, b: string)
    ensures s == a + Strip(p, s) + b && All(p, a) && All(p, b) && Solid(p, Strip(p, s))
  {
    var n := LStripSplit(p, s);
    var rest := s[n..];
    var m := RStripSplit(p, rest);
    a, b := s[..n], rest[m..];
    assert s == s[..n] + s[n..];
    assert rest == rest[..m] + rest[m..];
  }

  lemma {:induction false} LStripPrefix(p: char -> bool, a: string, x: string)
    requires All(p, a) && (x != [] ==> !p(x[0]))
    ensures LStrip(p, a + x) == x
  {
    if a == [] {
      assert a + x == x;
    } else {
      assert (a + x)[1..] == a[1..] + x;
      LStripPrefix(p, a[1..], x);
    }
  }

  lemma {:induction false} RStripSuffix(p: char -> bool, x: string, b: string)
    requires All(p, b) && (x != [] ==> !p(x[|x| - 1]))
    ensures RStrip(p, x + b) == x
  {
    if b == [] {
      assert x + b == x;
    } else {
      assert (x + b)[..|x + b| - 1] == x + b[..|b| - 1];
      RStripSuffix(p, x, b[..|b| - 1]);
    }
  }

  /** Strip finds a solid middle. */
  lemma StripAround(p: char -> bool, a: string, x: string, b: string)
    requires All(p, a) && All(p, b) && x != [] && Solid(p, x)
    ensures Strip(p, a + x + b) == x
  {
    assert a + x + b == a + (x + b);
    LStripPrefix(p, a, x + b);
    RStripSuffix(p, x, b);
  }

  // ---- str.expandtabs(4) ----

  const TAB_SIZE := 4

  function Spaces(n: nat): (s: string)
    ensures |s| == n && forall i :: 0 <= i < n ==> s[i] == ' '
  {
    seq(n, _ => ' ')
  }

  function NextColumn(c: char, column: nat): nat {
    if c == '\t' then column + TAB_SIZE - column % TAB_SIZE
    else if c == '\n' || c == '\r' then 0
    else column + 1
  }

  function ExpandChar(c: char, column: nat): (s: string)
    ensures s != [] && '\t' !in s
  {
    if c == '\t' then Spaces(TAB_SIZE - column % TAB_SIZE) else [c]
  }

  function ExpandFrom(s: string, column: nat): (r: string)
    ensures |r| >= |s|
  {
    if s == [] then [] else ExpandChar(s[0], column) + ExpandFrom(s[1..], NextColumn(s[0], column))
  }

  function ExpandTabs(s: string): string {
    ExpandFrom(s, 0)
  }

  function ColumnAfter(s: string, column: nat): nat {
    if s == [] then column else ColumnAfter(s[1..], NextColumn(s[0], column))
  }

  lemma {:induction false} ExpandAppend(a: string, b: string, column: nat)
    ensures ExpandFrom(a + b, column) == ExpandFrom(a, column) + ExpandFrom(b, ColumnAfter(a, column))
  {
    if a == [] {
      assert a + b == b;
    } else {
      assert (a + b)[1..] == a[1..] + b;
      ExpandAppend(a[1..], b, NextColumn(a[0], column));
    }
  }

  lemma {:induction false} ExpandHasNoTabs(s: string, column: nat)
    ensures '\t' !in ExpandFrom(s, column)
  {
    if s == [] {
    } else {
      ExpandHasNoTabs(s[1..], NextColumn(s[0], column));
    }
  }

  lemma {:induction false} ExpandClean(s: string, column: nat)
    requires '\t' !in s
    ensures ExpandFrom(s, column) == s
  {
    if s == [] {
    } else {
      assert s[0] in s;
      assert forall c :: c in s[1..] ==> c in s;
      ExpandClean(s[1..], NextColumn(s[0], column));
    }
  }

  lemma {:induction false} ExpandOnlySpaces(s: string, column: nat)
    requires All(IsSpace, s)
    ensures All(IsSpace, ExpandFrom(s, column))
  {
    if s == [] {
    } else {
      ExpandOnlySpaces(s[1..], NextColumn(s[0], column));
    }
  }

  lemma {:induction false} ExpandKeepsOut(s: string, column: nat, c: char)
    requires c !in s && c != ' '
    ensures c !in ExpandFrom(s, column)
  {
    if s == [] {
    } else {
      assert s[0] in s;
      assert forall d :: d in s[1..] ==> d in s;
      ExpandKeepsOut(s[1..], NextColumn(s[0], column), c);
    }
  }

  // ---- str.replace ----

  function Replace(s: string, from: string, to: string): string
    requires from != []
  {
    if |s| < |from| then s
    else if s[..|from|] == from then to + Replace(s[|from|..], from, to)
    else [s[0]] + Replace(s[1..], from, to)
  }

  lemma NotInTail(s: string, c: char)
    requires s != [] && c !in s
    ensures s[0] != c && c !in s[1..]
  {
    assert s == [s[0]] + s[1..];
  }

  lemma ReplaceSkips(s: string, from: string, to: string)
    requires from != [] && s != [] && s[0] != from[0]
    ensures Replace(s, from, to) == [s[0]] + Replace(s[1..], from, to)
  {
    if |s| >= |from| {
      assert s[..|from|][0] == s[0];
    }
  }

  lemma {:induction false} ReplaceNothing(s: string, from: string, to: string)
    requires from != [] && from[0] !in s
    ensures Replace(s, from, to) == s
  {
    if s == [] {
    } else {
      NotInTail(s, from[0]);
      ReplaceSkips(s, from, to);
      ReplaceNothing(s[1..], from, to);
    }
  }

  /** A text whose first character occurs nowhere around it is replaced once. */
  lemma {:induction false} ReplaceOnce(a: string, from: string, b: string, to: string)
    requires from != [] && from[0] !in a && from[0] !in b
    ensures Replace(a + from + b, from, to) == a + to + b
  {
    var s := a + from + b;
    if a == [] {
      assert s[..|from|] == from && s[|from|..] == b;
      ReplaceNothing(b, from, to);
    } else {
      NotInTail(a, from[0]);
      assert s[0] == a[0] && s[1..] == a[1..] + from + b;
      ReplaceSkips(s, from, to);
      ReplaceOnce(a[1..], from, b, to);
    }
  }

  // ---- Reading and writing a text file by lines ----

  function FirstNewline(s: string): (n: nat)
    ensures n <= |s| && (forall i :: 0 <= i < n ==> s[i] != '\n') && (n < |s| ==> s[n] == '\n')
  {
    if s == [] || s[0] == '\n' then 0 else 1 + FirstNewline(s[1..])
  }

  lemma NewlineAt(s: string, n: nat)
    requires n <= |s| && (forall i :: 0 <= i < n ==> s[i] != '\n') && (n < |s| ==> s[n] == '\n')
    ensures FirstNewline(s) == n
  {
    var m := FirstNewline(s);
    assert !(m < n) && !(n < m);
  }

  /** Each line keeps its newline; only the last may have none. */
  function ReadLines(s: string): seq<string> {
    if s == [] then []
    else
      var n := FirstNewline(s);
      if n == |s| then [s] else [s[..n + 1]] + ReadLines(s[n + 1..])
  }

  function WriteLines(lines: seq<string>): string {
    if lines == [] then [] else lines[0] + WriteLines(lines[1..])
  }

  predicate EndsLine(s: string) {
    s != [] && s[|s| - 1] == '\n'
  }

  /** Not empty, and no newline before the end. */
  predicate IsLine(s: string) {
    s != [] && forall i :: 0 <= i < |s| - 1 ==> s[i] != '\n'
  }

  /** Lines that can be written one after another: each is empty or a line, and ends in a newline
      unless it is the last. */
  ghost predicate AreLines(lines: seq<string>) {
    && (forall i :: 0 <= i < |lines| ==> lines[i] == [] || IsLine(lines[i]))
    && (forall i :: 0 <= i < |lines| - 1 ==> lines[i] == [] || EndsLine(lines[i]))
  }

  function NonEmpty(lines: seq<string>): seq<string> {
    if lines == [] then []
    else (if lines[0] == [] then [] else [lines[0]]) + NonEmpty(lines[1..])
  }

  lemma LinesCons(line: string, rest: seq<string>)
    requires IsLine(line) && EndsLine(line) && AreLines(rest)
    ensures AreLines([line] + rest)
  {
  }

  lemma {:induction false} ReadAreLines(s: string)
    ensures AreLines(ReadLines(s)) && WriteLines(ReadLines(s)) == s
    ensures forall i :: 0 <= i < |ReadLines(s)| ==> ReadLines(s)[i] != []
    decreases |s|
  {
    if s == [] {
    } else {
      var n := FirstNewline(s);
      if n == |s| {
        assert WriteLines([s]) == s + WriteLines([]);
      } else {
        var line, rest := s[..n + 1], s[n + 1..];
        ReadAreLines(rest);
        LinesCons(line, ReadLines(rest));
        assert s == line + rest;
        assert ([line] + ReadLines(rest))[1..] == ReadLines(rest);
      }
    }
  }

  /** Reading back what was written yields the lines that are not empty. */
  lemma {:induction false} ReadBack(lines: seq<string>)
    requires AreLines(lines)
    ensures ReadLines(WriteLines(lines)) == NonEmpty(lines)
  {
    if lines == [] {
    } else {
      var line, rest := lines[0], WriteLines(lines[1..]);
      assert forall i :: 0 <= i < |lines[1..]| ==> lines[1..][i] == lines[i + 1];
      ReadBack(lines[1..]);
      if line == [] {
        assert line + rest == rest;
      } else if EndsLine(line) {
        NewlineAt(line + rest, |line| - 1);
        assert (line + rest)[..|line|] == line && (line + rest)[|line|..] == rest;
      } else {
        assert lines[1..] == [];
        assert line + rest == line;
        NewlineAt(line, |line|);
      }
    }
  }
}
