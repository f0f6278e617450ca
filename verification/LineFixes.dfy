/** What the three fixes make of a line and of a file, character by character. */
module LineFixes {
  import opened PyStrings
  import opened StyleFixer
  import opened LineCheckers

  // ---- What a fix keeps ----

  /** The text without its white space. */
  function NonSpace(s: string): string {
    if s == [] then []
    else
      var last := s[|s| - 1];
      NonSpace(s[..|s| - 1]) + if IsSpace(last) then [] else [last]
  }

  /** Blanks, tabs and line ends are white space, and no printing character of ASCII is. */
  lemma SpaceMeans()
    ensures IsSpace(' ') && IsSpace('\t') && IsSpace('\n') && IsSpace('\r')
    ensures forall c :: '!' <= c <= '~' ==> !IsSpace(c)
  {
  }

  lemma {:induction false} NonSpaceAppend(a: string, b: string)
    ensures NonSpace(a + b) == NonSpace(a) + NonSpace(b)
  {
    if b == [] {
      assert a + b == a;
    } else {
      var n := |b| - 1;
      NonSpaceAppend(a, b[..n]);
      assert (a + b)[..|a + b| - 1] == a + b[..n];
      assert (a + b)[|a + b| - 1] == b[n];
    }
  }

  lemma {:induction false} NonSpaceOfSpaces(s: string)
    requires All(IsSpace, s)
    ensures NonSpace(s) == []
  {
    if s == [] {
    } else {
      NonSpaceOfSpaces(s[..|s| - 1]);
    }
  }

  /** Fixing any one line keeps all that is not white space, in order. */
  ghost predicate KeepsText(rules: Rules) {
    forall line :: NonSpace(FixLine(rules, line)) == NonSpace(line)
  }

  lemma {:induction false} LinesKeepText(rules: Rules, enabled: bool, lines: seq<string>)
    requires KeepsText(rules)
    ensures NonSpace(WriteLines(FixFrom(rules, enabled, lines))) == NonSpace(WriteLines(lines))
    decreases |lines|
  {
    if lines == [] {
    } else {
      var fixed := FixIfChecked(rules, enabled, lines[0]);
      var rest := FixFrom(rules, EnabledAfter(rules, enabled, lines[0]), lines[1..]);
      LinesKeepText(rules, EnabledAfter(rules, enabled, lines[0]), lines[1..]);
      assert NonSpace(fixed) == NonSpace(lines[0]);
      NonSpaceAppend(fixed, WriteLines(rest));
      NonSpaceAppend(lines[0], WriteLines(lines[1..]));
      assert ([fixed] + rest)[1..] == rest;
    }
  }

  lemma FixKeepsText(rules: Rules, content: string)
    requires KeepsText(rules)
    ensures NonSpace(FixFile(rules, content)) == NonSpace(content)
  {
    ReadAreLines(content);
    LinesKeepText(rules, true, ReadLines(content));
  }

  // ---- Trailing whitespace ----

  /** A line loses just the white space at its end, and gets a newline; it is compliant if that is what it
      was. */
  lemma WhitespaceMeans(line: string) returns (n: nat)
    ensures n <= |line| && CheckWhitespaceLine(line).fixed == line[..n] + "\n"
    ensures All(IsSpace, line[n..]) && (n == 0 || !IsSpace(line[n - 1]))
    ensures CheckWhitespaceLine(line).compliant <==> line == line[..n] + "\n"
  {
    n := RStripSplit(IsSpace, line);
  }

  lemma WhitespaceKeepsText()
    ensures KeepsText(WHITESPACE)
  {
    forall line ensures NonSpace(FixLine(WHITESPACE, line)) == NonSpace(line) {
      var n := WhitespaceMeans(line);
      assert line == line[..n] + line[n..];
      NonSpaceAppend(line[..n], line[n..]);
      NonSpaceAppend(line[..n], "\n");
      NonSpaceOfSpaces(line[n..]);
      NonSpaceOfSpaces("\n");
    }
  }

  // ---- Tabs ----

  /** How many characters follow the last line break. */
  function AfterBreak(s: string): nat {
    if s == [] || s[|s| - 1] == '\n' || s[|s| - 1] == '\r' then 0 else AfterBreak(s[..|s| - 1]) + 1
  }

  lemma {:induction false} ColumnAppend(a: string, b: string, column: nat)
    ensures ColumnAfter(a + b, column) == ColumnAfter(b, ColumnAfter(a, column))
  {
    if a == [] {
      assert a + b == b;
    } else {
      assert (a + b)[1..] == a[1..] + b;
      ColumnAppend(a[1..], b, NextColumn(a[0], column));
    }
  }

  lemma {:induction false} AfterBreakSpaces(s: string, n: nat)
    ensures AfterBreak(s + Spaces(n)) == AfterBreak(s) + n
  {
    if n == 0 {
      assert s + Spaces(0) == s;
    } else {
      AfterBreakSpaces(s, n - 1);
      assert (s + Spaces(n))[..|s| + n - 1] == s + Spaces(n - 1);
    }
  }

  lemma OneCharacter(c: char, column: nat)
    ensures ExpandFrom([c], column) == ExpandChar(c, column) && ColumnAfter([c], column) == NextColumn(c, column)
  {
    assert [c][1..] == "";
    assert ExpandFrom("", NextColumn(c, column)) == "" && ExpandChar(c, column) + "" == ExpandChar(c, column);
  }

  lemma ExpandOneMore(s: string, c: char)
    ensures ExpandTabs(s + [c]) == ExpandTabs(s) + ExpandChar(c, ColumnAfter(s, 0))
    ensures ColumnAfter(s + [c], 0) == NextColumn(c, ColumnAfter(s, 0))
  {
    ExpandAppend(s, [c], 0);
    ColumnAppend(s, [c], 0);
    OneCharacter(c, ColumnAfter(s, 0));
  }

  /** The column is counted in the expanded text. */
  lemma {:induction false} ColumnIsAfterBreak(s: string)
    ensures ColumnAfter(s, 0) == AfterBreak(ExpandTabs(s))
  {
    if s == [] {
    } else {
      var front, c := s[..|s| - 1], s[|s| - 1];
      var column := ColumnAfter(front, 0);
      ColumnIsAfterBreak(front);
      ExpandOneMore(front, c);
      assert s == front + [c];
      if c == '\t' {
        AfterBreakSpaces(ExpandTabs(front), TAB_SIZE - column % TAB_SIZE);
      } else {
        var expanded := ExpandTabs(front) + [c];
        assert expanded[..|expanded| - 1] == ExpandTabs(front) && expanded[|expanded| - 1] == c;
      }
    }
  }

  /** A tab becomes one to four blanks that end at a column divisible by four. */
  lemma TabMeans(s: string) returns (n: nat)
    ensures 1 <= n <= 4 && (AfterBreak(ExpandTabs(s)) + n) % 4 == 0
    ensures ExpandTabs(s + ['\t']) == ExpandTabs(s) + seq(n, _ => ' ')
  {
    ExpandOneMore(s, '\t');
    ColumnIsAfterBreak(s);
    var column := ColumnAfter(s, 0);
    n := TAB_SIZE - column % TAB_SIZE;
    assert column + n == 4 * (column / 4 + 1);
    assert Spaces(n) == seq(n, _ => ' ');
  }

  /** Every other character stays. */
  lemma OtherMeans(s: string, c: char)
    ensures ExpandTabs("") == ""
    ensures c != '\t' ==> ExpandTabs(s + [c]) == ExpandTabs(s) + [c]
  {
    ExpandOneMore(s, c);
  }

  lemma TabsLineMeans(line: string)
    ensures CheckTabsLine(line).compliant <==> '\t' !in line
    ensures !CheckTabsLine(line).compliant ==> CheckTabsLine(line).fixed == ExpandTabs(line)
  {
  }

  lemma {:induction false} ExpandKeepsText(s: string)
    ensures NonSpace(ExpandTabs(s)) == NonSpace(s)
  {
    if s == [] {
    } else {
      var front, c := s[..|s| - 1], s[|s| - 1];
      ExpandKeepsText(front);
      assert s == front + [c];
      if c == '\t' {
        var n := TabMeans(front);
        NonSpaceAppend(ExpandTabs(front), seq(n, _ => ' '));
        NonSpaceOfSpaces(seq(n, _ => ' '));
      } else {
        OtherMeans(front, c);
        NonSpaceAppend(ExpandTabs(front), [c]);
        assert NonSpace([c]) == if IsSpace(c) then [] else [c] by {
          assert [c][..0] == [];
        }
      }
    }
  }

  lemma TabsKeepText()
    ensures KeepsText(TABS)
  {
    forall line ensures NonSpace(FixLine(TABS, line)) == NonSpace(line) {
      ExpandKeepsText(line);
    }
  }

  /** Main result on what is kept: fixing white space and tabs changes nothing but white space, on any
      file. */
  lemma FixesKeepText(content: string)
    ensures NonSpace(FixFile(WHITESPACE, content)) == NonSpace(content)
    ensures NonSpace(FixFile(TABS, content)) == NonSpace(content)
  {
    WhitespaceKeepsText();
    TabsKeepText();
    FixKeepsText(WHITESPACE, content);
    FixKeepsText(TABS, content);
  }

  // ---- Licence text ----

  lemma LicenceEnds()
    ensures |GPL_LICENSE_LINES| == 10
    ensures forall k :: 0 <= k < 10 ==> GPL_LICENSE_LINES[k] != [] && GPL_LICENSE_LINES[k][0] == "TipTbMGYaF"[k]
    ensures forall k :: 0 <= k < 10 ==> GPL_LICENSE_LINES[k][|GPL_LICENSE_LINES[k]| - 1] == "ys;,fe.eeA"[k]
  {
    FirstLineText();
    assert GPL_LICENSE_LINES[0] == GPL_FIRST_LINE;
  }

  lemma LicenceTextsAreSolid(text: string)
    requires text in GPL_LICENSE_LINES
    ensures text != [] && Solid(IsJunk, text)
  {
    LicenceEnds();
    var k :| 0 <= k < |GPL_LICENSE_LINES| && GPL_LICENSE_LINES[k] == text;
    NoJunk("TipTbMGYaF"[k], "ys;,fe.eeA"[k], k);
  }

  lemma NoJunk(first: char, last: char, k: nat)
    requires k < 10 && first == "TipTbMGYaF"[k] && last == "ys;,fe.eeA"[k]
    ensures !IsJunk(first) && !IsJunk(last)
  {
  }

  lemma CommentMeans()
    ensures forall c :: IsComment(c) <==> c in {'*', '#', '/'}
  {
  }

  /** Indentation, comment marks and blanks around a text, so that stripping finds it. */
  ghost predicate Around(w1: string, c1: string, w2: string, w3: string, c2: string, w4: string) {
    && All(IsSpace, w1) && All(IsSpace, w2) && All(IsSpace, w3) && All(IsSpace, w4)
    && All(IsComment, c1) && All(IsComment, c2)
    && (c1 == "" ==> w2 == "") && (c2 == "" ==> w3 == "")
  }

  lemma SolidAround(p: char -> bool, a: string, x: string, b: string)
    requires x != [] && Solid(p, x) && (a != [] ==> !p(a[0])) && (b != [] ==> !p(b[|b| - 1]))
    ensures Solid(p, a + x + b)
  {
    var s := a + x + b;
    if a == [] {
      assert s[0] == x[0];
    } else {
      assert s[0] == a[0];
    }
    if b == [] {
      assert s[|s| - 1] == x[|x| - 1];
    } else {
      assert s[|s| - 1] == b[|b| - 1];
    }
  }

  lemma CoreAround(w1: string, c1: string, w2: string, x: string, w3: string, c2: string, w4: string)
    requires Around(w1, c1, w2, w3, c2, w4) && x != [] && Solid(IsJunk, x)
    ensures Core(Layers(w1, c1, w2, x, w3, c2, w4)) == x
  {
    SolidAround(IsComment, w2, x, w3);
    assert w2 == "" && w3 == "" ==> w2 + x + w3 == x;
    if c1 == "" && c2 == "" {
      assert c1 + (w2 + x + w3) + c2 == x;
    } else {
      SolidAround(IsSpace, c1 + w2, x, w3 + c2);
      LayersJoin(w1, c1, w2, x, w3, c2, w4);
    }
    CoreOfLayers(w1, c1, w2, x, w3, c2, w4);
  }

  lemma JunkAround(w1: string, c1: string, w2: string, w3: string, c2: string, w4: string)
    requires Around(w1, c1, w2, w3, c2, w4)
    ensures All(IsJunk, w1 + c1 + w2) && All(IsJunk, w3 + c2 + w4)
  {
  }

  /** A line of licence text, in whatever comment, is not compliant: the first keeps its comment around
      the new text, and any other becomes the empty string. */
  lemma LicenceLineGoes(w1: string, c1: string, w2: string, text: string, w3: string, c2: string, w4: string)
    requires Around(w1, c1, w2, w3, c2, w4) && text in GPL_LICENSE_LINES
    ensures var r := CheckLicensesLine(Layers(w1, c1, w2, text, w3, c2, w4));
      && !r.compliant
      && r.fixed == if text == GPL_LICENSE_LINES[0] then Layers(w1, c1, w2, SPDX_LICENSE, w3, c2, w4) else ""
  {
    LicenceTextsAreSolid(text);
    CoreAround(w1, c1, w2, text, w3, c2, w4);
    if text == GPL_FIRST_LINE {
      var a, b := w1 + c1 + w2, w3 + c2 + w4;
      LicenceTexts();
      JunkAround(w1, c1, w2, w3, c2, w4);
      JunkHas(a, 'T');
      JunkHas(b, 'T');
      LayersJoin(w1, c1, w2, text, w3, c2, w4);
      LayersJoin(w1, c1, w2, SPDX_LICENSE, w3, c2, w4);
      ReplaceOnce(a, GPL_FIRST_LINE, b, SPDX_LICENSE);
    }
  }

  /** And only such lines are not compliant. */
  lemma OnlyLicenceLinesGo(line: string)
    returns (w1: string, c1: string, w2: string, text: string, w3: string, c2: string, w4: string)
    requires !CheckLicensesLine(line).compliant
    ensures text in GPL_LICENSE_LINES && line == Layers(w1, c1, w2, text, w3, c2, w4)
    ensures All(IsSpace, w1) && All(IsSpace, w2) && All(IsSpace, w3) && All(IsSpace, w4)
    ensures All(IsComment, c1) && All(IsComment, c2)
  {
    text := Core(line);
    w1, c1, w2, w3, c2, w4 := CoreLayers(line);
  }

  lemma StarLine(text: string)
    ensures Layers(" ", "*", " ", text, "", "", "\n") == " * " + text + "\n"
  {
  }

  /** Two lines as they stand in many files: the first of the text, and one of the others. */
  lemma FirstLicenceLine()
    ensures CheckLicensesLine(" * " + ("This program is free software; " + "you can redistribute it and/or modify") + "\n")
      == LineResult(false, " * " + "SPDX-License-Identifier: GPL-2.0-only" + "\n")
  {
    LicenceEnds();
    LicenceLineGoes(" ", "*", " ", GPL_LICENSE_LINES[0], "", "", "\n");
    StarLine(GPL_LICENSE_LINES[0]);
    StarLine(SPDX_LICENSE);
  }

  lemma OtherLicenceLine()
    ensures CheckLicensesLine(" * " + ("GNU General Public License " + "for more details.") + "\n") == LineResult(false, "")
  {
    LicenceEnds();
    var text := GPL_LICENSE_LINES[6];
    Differ(text, GPL_LICENSE_LINES[0]);
    LicenceLineGoes(" ", "*", " ", text, "", "", "\n");
    StarLine(text);
  }

  lemma Differ(s: string, t: string)
    requires s != [] && t != [] && s[0] != t[0]
    ensures s != t
  {
  }

  // ---- Guards ----

  /** The guards, with any white space around them. */
  lemma GuardsMean(a: string, b: string)
    requires All(IsSpace, a) && All(IsSpace, b)
    ensures MarkOfLine(a + "// clang-format on" + b) == MarkOfLine(a + "# cmake-format: on" + b) == On
    ensures MarkOfLine(a + "# fmt: on" + b) == On
    ensures MarkOfLine(a + "// clang-format off" + b) == MarkOfLine(a + "# cmake-format: off" + b) == Off
    ensures MarkOfLine(a + "# fmt: off" + b) == Off
  {
    GuardMeans(a, "// clang-format on", b);
    GuardMeans(a, "# cmake-format: on", b);
    GuardMeans(a, "# fmt: on", b);
    GuardMeans(a, "// clang-format off", b);
    GuardMeans(a, "# cmake-format: off", b);
    GuardMeans(a, "# fmt: off", b);
    assert FORMAT_GUARD_ON[0] == "// clang-format on" && FORMAT_GUARD_ON[1] == "# cmake-format: on";
    assert FORMAT_GUARD_ON[2] == "# fmt: on";
    assert FORMAT_GUARD_OFF[0] == "// clang-format off" && FORMAT_GUARD_OFF[1] == "# cmake-format: off";
    assert FORMAT_GUARD_OFF[2] == "# fmt: off";
    OffIsNotOn();
  }

  lemma GuardMeans(a: string, text: string, b: string)
    requires All(IsSpace, a) && All(IsSpace, b) && text != [] && Solid(IsSpace, text)
    ensures MarkOfLine(a + text + b) == MarkOfText(text)
  {
    StripAround(IsSpace, a, text, b);
  }

  lemma OffIsNotOn()
    ensures forall text :: text in FORMAT_GUARD_OFF ==> text !in FORMAT_GUARD_ON
  {
    forall text | text in FORMAT_GUARD_OFF ensures text !in FORMAT_GUARD_ON {
      assert text[|text| - 1] == 'f';
    }
  }

  /** Some guard up to line i turns checking off, and none after it turns it on again. */
  ghost predicate IsOff(rules: Rules, lines: seq<string>) {
    exists k :: 0 <= k < |lines| && rules.markOf(lines[k]).Off? && NoneOn(rules, lines, k)
  }

  ghost predicate NoneOn(rules: Rules, lines: seq<string>, k: int)
    requires k >= 0
  {
    forall j :: k < j < |lines| ==> !rules.markOf(lines[j]).On?
  }

  lemma OffAppend(rules: Rules, lines: seq<string>, line: string)
    ensures IsOff(rules, lines + [line])
      <==> rules.markOf(line).Off? || (IsOff(rules, lines) && !rules.markOf(line).On?)
  {
    var all := lines + [line];
    assert all[|lines|] == line;
    if rules.markOf(line).Off? {
      assert NoneOn(rules, all, |lines|);
    }
    if IsOff(rules, lines) && !rules.markOf(line).On? {
      var k :| 0 <= k < |lines| && rules.markOf(lines[k]).Off? && NoneOn(rules, lines, k);
      assert all[k] == lines[k] && NoneOn(rules, all, k);
    }
    if IsOff(rules, all) && !rules.markOf(line).Off? {
      var k :| 0 <= k < |all| && rules.markOf(all[k]).Off? && NoneOn(rules, all, k);
      assert k < |lines| && all[k] == lines[k];
      forall j | k < j < |lines| ensures !rules.markOf(lines[j]).On? {
        assert all[j] == lines[j];
      }
      assert NoneOn(rules, lines, k);
    }
  }

  lemma {:induction false} EnabledMeans(rules: Rules, lines: seq<string>)
    ensures EnabledAt(rules, true, lines) <==> !IsOff(rules, lines)
  {
    if lines == [] {
    } else {
      var front, last := lines[..|lines| - 1], lines[|lines| - 1];
      EnabledMeans(rules, front);
      EnabledAppend(rules, true, front, last);
      OffAppend(rules, front, last);
      assert lines == front + [last];
    }
  }

  /** Line i is left alone: guards are respected, checking is off there, and it is no guard itself. */
  ghost predicate IsGuarded(rules: Rules, lines: seq<string>, i: nat)
    requires i < |lines|
  {
    rules.respectGuards && rules.markOf(lines[i]).Plain? && IsOff(rules, lines[..i + 1])
  }

  lemma CheckedMeans(rules: Rules, lines: seq<string>, i: nat)
    requires i < |lines|
    ensures IsChecked(rules, EnabledAt(rules, true, lines[..i]), lines[i]) <==> !IsGuarded(rules, lines, i)
  {
    EnabledMeans(rules, lines[..i + 1]);
    EnabledAppend(rules, true, lines[..i], lines[i]);
    assert lines[..i + 1] == lines[..i] + [lines[i]];
  }

  /** Guarded lines stay and all others are fixed. */
  lemma {:induction false} FixedLineByLine(rules: Rules, lines: seq<string>, i: nat)
    requires i < |lines|
    ensures FixFrom(rules, true, lines)[i] == if IsGuarded(rules, lines, i) then lines[i] else FixLine(rules, lines[i])
    decreases |lines|
  {
    var n := |lines| - 1;
    var front, last := lines[..n], lines[n];
    FixAppend(rules, true, front, last);
    assert lines == front + [last];
    if i == n {
      CheckedMeans(rules, lines, i);
    } else {
      FixedLineByLine(rules, front, i);
      assert front[..i + 1] == lines[..i + 1];
    }
  }

  /** A file is compliant when each line that is not guarded is. */
  lemma {:induction false} CompliantLineByLine(rules: Rules, lines: seq<string>)
    ensures CompliantFrom(rules, true, lines)
      <==> forall i :: 0 <= i < |lines| ==> IsGuarded(rules, lines, i) || rules.check(lines[i]).compliant
  {
    if lines == [] {
    } else {
      var n := |lines| - 1;
      var front, last := lines[..n], lines[n];
      CompliantLineByLine(rules, front);
      CompliantAppend(rules, true, front, last);
      CheckedMeans(rules, lines, n);
      assert lines == front + [last] && lines[..n] == front;
      forall i | 0 <= i < n ensures IsGuarded(rules, front, i) <==> IsGuarded(rules, lines, i) {
        assert front[..i + 1] == lines[..i + 1] && front[i] == lines[i];
      }
      assert forall i :: 0 <= i < n ==> front[i] == lines[i];
    }
  }

  /** Guards keep tabs and licence text, but not trailing whitespace. */
  lemma WhoRespectsGuards()
    ensures TABS.respectGuards && LICENSES.respectGuards && !WHITESPACE.respectGuards
    ensures TABS.markOf == LICENSES.markOf == MarkOfLine
  {
  }
}
