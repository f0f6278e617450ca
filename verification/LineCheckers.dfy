/** The line checkers of utils/check-style-clang-format.py for trailing whitespace, tabs and licence
    text, and what running them one after another achieves. */
module LineCheckers {
  import opened PyStrings
  import opened StyleFixer

  // ---- The guards ----

  const FORMAT_GUARD_ON := ["// clang-format on", "# cmake-format: on", "# fmt: on"]

  const FORMAT_GUARD_OFF := ["// clang-format off", "# cmake-format: off", "# fmt: off"]

  /** A stripped line as a guard. */
  function MarkOfText(text: string): Mark {
    if text in FORMAT_GUARD_ON then On else if text in FORMAT_GUARD_OFF then Off else Plain
  }

  function MarkOfLine(line: string): Mark {
    MarkOfText(Strip(IsSpace, line))
  }

  lemma GuardTexts(text: string)
    requires !MarkOfText(text).Plain?
    ensures 0 < |text| < 20 && '\t' !in text && Solid(IsSpace, text)
  {
  }

  // ---- Trailing whitespace ----

  function CheckWhitespaceLine(line: string): LineResult {
    var fixed := RStrip(IsSpace, line) + "\n";
    LineResult(fixed == line, fixed)
  }

  lemma WhitespaceFixes(line: string)
    requires IsLine(line)
    ensures IsLine(CheckWhitespaceLine(line).fixed) && EndsLine(CheckWhitespaceLine(line).fixed)
    ensures CheckWhitespaceLine(CheckWhitespaceLine(line).fixed).compliant
  {
    var n := RStripSplit(IsSpace, line);
    RStripSuffix(IsSpace, line[..n], "\n");
  }

  // ---- Tabs ----

  function CheckTabsLine(line: string): LineResult {
    if '\t' in line then LineResult(false, ExpandTabs(line)) else LineResult(true, line)
  }

  /** A line is a text without newline, with or without a newline after it. */
  lemma LineSplit(line: string) returns (text: string)
    requires IsLine(line)
    ensures '\n' !in text && line == text + if EndsLine(line) then "\n" else ""
  {
    text := if EndsLine(line) then line[..|line| - 1] else line;
  }

  lemma ExpandLine(line: string)
    requires IsLine(line)
    ensures IsLine(ExpandTabs(line)) && (EndsLine(line) ==> EndsLine(ExpandTabs(line)))
  {
    var text := LineSplit(line);
    ExpandKeepsOut(text, 0, '\n');
    if EndsLine(line) {
      ExpandAppend(text, "\n", 0);
      ExpandClean("\n", ColumnAfter(text, 0));
      var expanded := ExpandFrom(text, 0);
      assert ExpandTabs(line) == expanded + "\n";
      forall i | 0 <= i < |expanded| ensures expanded[i] != '\n' {
        assert expanded[i] in expanded;
      }
    } else {
      var expanded := ExpandFrom(text, 0);
      forall i | 0 <= i < |expanded| ensures expanded[i] != '\n' {
        assert expanded[i] in expanded;
      }
      assert text + "" == text;
    }
  }

  lemma ExpandAround(a: string, x: string, b: string)
    requires '\t' !in x
    ensures ExpandTabs(a + x + b) == ExpandFrom(a, 0) + x + ExpandFrom(b, ColumnAfter(x, ColumnAfter(a, 0)))
  {
    var column := ColumnAfter(a, 0);
    assert a + x + b == a + (x + b);
    ExpandAppend(a, x + b, 0);
    ExpandAppend(x, b, column);
    ExpandClean(x, column);
  }

  lemma ExpandKeepsGuard(line: string)
    requires !MarkOfLine(line).Plain?
    ensures Strip(IsSpace, ExpandTabs(line)) == Strip(IsSpace, line)
  {
    var guard := Strip(IsSpace, line);
    var a, b := StripSplit(IsSpace, line);
    GuardTexts(guard);
    var column := ColumnAfter(guard, ColumnAfter(a, 0));
    ExpandAround(a, guard, b);
    ExpandOnlySpaces(a, 0);
    ExpandOnlySpaces(b, column);
    StripAround(IsSpace, ExpandFrom(a, 0), guard, ExpandFrom(b, column));
  }

  // ---- Licence text ----

  const GPL_FIRST_LINE := "This program is free software; " + "you can redistribute it and/or modify"

  const GPL_LICENSE_LINES := [
    GPL_FIRST_LINE,
    "it under the terms of the GNU General " + "Public License version 2 as",
    "published by the Free " + "Software Foundation;",
    "This program is distributed in the " + "hope that it will be useful,",
    "but WITHOUT ANY WARRANTY; without " + "even the implied warranty of",
    "MERCHANTABILITY or FITNESS FOR " + "A PARTICULAR PURPOSE.  See the",
    "GNU General Public License " + "for more details.",
    "You should have received a copy of " + "the GNU General Public License",
    "along with this program; if not, " + "write to the Free Software",
    "Foundation, Inc., 59 Temple Place, Suite " + "330, Boston, MA  02111-1307  USA"
  ]

  const SPDX_LICENSE := "SPDX-License-Identifier: GPL-2.0-only"

  predicate IsComment(c: char) {
    c == '*' || c == '#' || c == '/'
  }

  function Core(line: string): string {
    Strip(IsSpace, Strip(IsComment, Strip(IsSpace, line)))
  }

  predicate IsGpl(text: string) {
    text in GPL_LICENSE_LINES
  }

  function SpdxFor(line: string): string {
    Replace(line, GPL_FIRST_LINE, SPDX_LICENSE)
  }

  /** The first line of the licence text is replaced, the others are deleted. */
  function CheckLicensesLine(line: string): LineResult {
    if IsGpl(Core(line)) then LineResult(false, if Core(line) == GPL_FIRST_LINE then SpdxFor(line) else "")
    else LineResult(true, line)
  }

  lemma GplTexts(text: string)
    requires IsGpl(text)
    ensures |text| >= 40
  {
  }

  predicate IsJunk(c: char) {
    IsSpace(c) || IsComment(c)
  }

  lemma LicenceTexts()
    ensures GPL_FIRST_LINE[0] == 'T' && GPL_FIRST_LINE != []
    ensures |SPDX_LICENSE| == 37 && Solid(IsJunk, SPDX_LICENSE)
    ensures '\n' !in SPDX_LICENSE && '\t' !in SPDX_LICENSE && !IsJunk('T')
  {
    FirstLineText();
    SpdxText();
  }

  lemma FirstLineText()
    ensures GPL_FIRST_LINE[0] == 'T' && GPL_FIRST_LINE != []
  {
  }

  lemma SpdxText()
    ensures |SPDX_LICENSE| == 37 && Solid(IsJunk, SPDX_LICENSE)
    ensures '\n' !in SPDX_LICENSE && '\t' !in SPDX_LICENSE
  {
  }

  /** Whether the ends of a text would be stripped depends on its outside only. */
  lemma SolidSwap(p: char -> bool, a: string, m: string, b: string, m': string)
    requires m != [] && m' != [] && Solid(p, a + m + b) && !p(m'[0]) && !p(m'[|m'| - 1])
    ensures Solid(p, a + m' + b)
  {
    var s, s' := a + m + b, a + m' + b;
    if a != [] {
      assert s[0] == a[0] == s'[0];
    } else {
      assert s'[0] == m'[0];
    }
    if b != [] {
      assert s[|s| - 1] == b[|b| - 1] == s'[|s'| - 1];
    } else {
      assert s'[|s'| - 1] == m'[|m'| - 1];
    }
  }

  /** The layers that Core takes off, from the outside in. */
  function Layers(w1: string, c1: string, w2: string, x: string, w3: string, c2: string, w4: string): string {
    w1 + (c1 + (w2 + x + w3) + c2) + w4
  }

  lemma LayersJoin(w1: string, c1: string, w2: string, x: string, w3: string, c2: string, w4: string)
    ensures Layers(w1, c1, w2, x, w3, c2, w4) == (w1 + c1 + w2) + x + (w3 + c2 + w4)
    ensures c1 + (w2 + x + w3) + c2 == (c1 + w2) + x + (w3 + c2)
  {
  }

  lemma CoreLayers(line: string)
    returns (w1: string, c1: string, w2: string, w3: string, c2: string, w4: string)
    ensures line == Layers(w1, c1, w2, Core(line), w3, c2, w4)
    ensures All(IsSpace, w1) && All(IsSpace, w2) && All(IsSpace, w3) && All(IsSpace, w4)
    ensures All(IsComment, c1) && All(IsComment, c2)
    ensures Solid(IsSpace, c1 + (w2 + Core(line) + w3) + c2) && Solid(IsComment, w2 + Core(line) + w3)
    ensures Solid(IsSpace, Core(line))
  {
    var s1 := Strip(IsSpace, line);
    var s2 := Strip(IsComment, s1);
    w1, w4 := StripSplit(IsSpace, line);
    c1, c2 := StripSplit(IsComment, s1);
    w2, w3 := StripSplit(IsSpace, s2);
  }

  lemma CoreOfLayers(w1: string, c1: string, w2: string, x: string, w3: string, c2: string, w4: string)
    requires All(IsSpace, w1) && All(IsSpace, w2) && All(IsSpace, w3) && All(IsSpace, w4)
    requires All(IsComment, c1) && All(IsComment, c2) && x != []
    requires Solid(IsSpace, c1 + (w2 + x + w3) + c2) && Solid(IsComment, w2 + x + w3) && Solid(IsSpace, x)
    ensures Core(Layers(w1, c1, w2, x, w3, c2, w4)) == x
    ensures |Strip(IsSpace, Layers(w1, c1, w2, x, w3, c2, w4))| >= |x|
  {
    var t2 := w2 + x + w3;
    StripAround(IsSpace, w1, c1 + t2 + c2, w4);
    StripAround(IsComment, c1, t2, c2);
    StripAround(IsSpace, w2, x, w3);
  }

  /** The text around the core can hold another core. */
  lemma CoreSwap(line: string, x: string) returns (a: string, b: string)
    requires Core(line) != [] && x != [] && Solid(IsJunk, x)
    ensures line == a + Core(line) + b && All(IsJunk, a) && All(IsJunk, b)
    ensures Core(a + x + b) == x && |Strip(IsSpace, a + x + b)| >= |x|
    ensures !IsSpace(Core(line)[|Core(line)| - 1])
  {
    var core := Core(line);
    var w1, c1, w2, w3, c2, w4 := CoreLayers(line);
    a, b := w1 + c1 + w2, w3 + c2 + w4;
    LayersJoin(w1, c1, w2, core, w3, c2, w4);
    LayersJoin(w1, c1, w2, x, w3, c2, w4);
    SolidSwap(IsComment, w2, core, w3, x);
    SolidSwap(IsSpace, c1 + w2, core, w3 + c2, x);
    CoreOfLayers(w1, c1, w2, x, w3, c2, w4);
  }

  /** The core is part of the stripped line. */
  lemma CoreIsShorter(line: string)
    ensures |Core(line)| <= |Strip(IsSpace, line)|
  {
    var s1 := Strip(IsSpace, line);
    var c1, c2 := StripSplit(IsComment, s1);
    var w2, w3 := StripSplit(IsSpace, Strip(IsComment, s1));
  }

  lemma JunkHas(a: string, c: char)
    requires All(IsJunk, a) && !IsJunk(c)
    ensures c !in a
  {
  }

  /** Only the first licence line is rewritten, and its comment marks and indentation stay. */
  lemma SpdxReplaces(line: string) returns (a: string, b: string)
    requires Core(line) == GPL_FIRST_LINE
    ensures line == a + GPL_FIRST_LINE + b && SpdxFor(line) == a + SPDX_LICENSE + b
    ensures All(IsJunk, a) && All(IsJunk, b) && (b == [] ==> !EndsLine(line))
    ensures Core(SpdxFor(line)) == SPDX_LICENSE && MarkOfLine(SpdxFor(line)) == Plain
  {
    LicenceTexts();
    a, b := CoreSwap(line, SPDX_LICENSE);
    JunkHas(a, 'T');
    JunkHas(b, 'T');
    ReplaceOnce(a, GPL_FIRST_LINE, b, SPDX_LICENSE);
    if MarkOfLine(SpdxFor(line)) != Plain {
      GuardTexts(Strip(IsSpace, SpdxFor(line)));
    }
  }

  lemma LicenceLineIsNoGuard(line: string)
    requires !CheckLicensesLine(line).compliant
    ensures MarkOfLine(line) == Plain
  {
    GplTexts(Core(line));
    CoreIsShorter(line);
    if MarkOfLine(line) != Plain {
      GuardTexts(Strip(IsSpace, line));
    }
  }

  lemma SpdxLine(line: string)
    requires IsLine(line) && Core(line) == GPL_FIRST_LINE
    ensures IsLine(SpdxFor(line)) && (EndsLine(line) ==> EndsLine(SpdxFor(line)))
    ensures CheckLicensesLine(SpdxFor(line)).compliant
  {
    LicenceTexts();
    var a, b := SpdxReplaces(line);
    var s, s' := line, SpdxFor(line);
    var n, n' := |GPL_FIRST_LINE|, |SPDX_LICENSE|;
    forall i | 0 <= i < |s'| - 1 ensures s'[i] != '\n' {
      if i < |a| {
        assert s'[i] == s[i];
      } else if i < |a| + n' {
        assert s'[i] == SPDX_LICENSE[i - |a|];
        assert SPDX_LICENSE[i - |a|] in SPDX_LICENSE;
      } else {
        assert s'[i] == b[i - |a| - n'] == s[i - n' + n];
      }
    }
    if EndsLine(line) {
      assert s'[|s'| - 1] == b[|b| - 1] == s[|s| - 1];
    }
    if IsGpl(SPDX_LICENSE) {
      GplTexts(SPDX_LICENSE);
    }
  }

  // ---- The three checkers obey the laws ----

  const WHITESPACE := Rules(CheckWhitespaceLine, false, MarkOfLine)

  const TABS := Rules(CheckTabsLine, true, MarkOfLine)

  const LICENSES := Rules(CheckLicensesLine, true, MarkOfLine)

  lemma WhitespaceIsLineFixer()
    ensures IsLineFixer(WHITESPACE)
  {
    forall line | IsLine(line) ensures FixesLine(WHITESPACE, line) && KeepsGuard(WHITESPACE, line) {
      WhitespaceFixes(line);
    }
  }

  lemma TabsIsLineFixer()
    ensures IsLineFixer(TABS)
  {
    forall line | IsLine(line) ensures FixesLine(TABS, line) && KeepsGuard(TABS, line) {
      ExpandLine(line);
      ExpandHasNoTabs(line, 0);
      if MarkOfLine(line) != Plain {
        ExpandKeepsGuard(line);
      }
    }
  }

  lemma LicensesIsLineFixer()
    ensures IsLineFixer(LICENSES)
  {
    forall line | IsLine(line) ensures FixesLine(LICENSES, line) && KeepsGuard(LICENSES, line) {
      if !CheckLicensesLine(line).compliant {
        LicenceLineIsNoGuard(line);
        if Core(line) == GPL_FIRST_LINE {
          SpdxLine(line);
        }
      }
    }
  }

  /** For each of the three checkers, on any file: after a fix the check passes, and a second fix
      changes nothing. */
  lemma EachFixIsFinal(rules: Rules, content: string)
    requires rules == WHITESPACE || rules == TABS || rules == LICENSES
    ensures IsCompliant(rules, FixFile(rules, content))
    ensures FixFile(rules, FixFile(rules, content)) == FixFile(rules, content)
  {
    WhitespaceIsLineFixer();
    TabsIsLineFixer();
    LicensesIsLineFixer();
    FixIsFinal(rules, content);
  }

  /** Expanding tabs can make a guard of a line that was none: here the tab stands in column 15 and
      becomes a single space. */
  lemma TabFixMakesGuard()
    ensures MarkOfLine("// clang-format" + "\t" + "off" + "\n") == Plain
    ensures MarkOfLine(CheckTabsLine("// clang-format" + "\t" + "off" + "\n").fixed) == Off
  {
    var head := "// clang-format";
    var line := head + "\t" + "off" + "\n";
    assert head[0] == '/';
    TabInColumn15(head, "off\n");
    assert line == head + "\t" + "off\n";
    assert line[15] == '\t';
    MarkOfTrimmed(head + "\t" + "off");
    assert (head + "\t" + "off")[15] == '\t';
    if MarkOfText(head + "\t" + "off") != Plain {
      GuardTexts(head + "\t" + "off");
    }
    assert head + " " + "off\n" == head + " " + "off" + "\n";
    MarkOfTrimmed(head + " " + "off");
    assert head + " " + "off" == FORMAT_GUARD_OFF[0];
  }

  lemma MarkOfTrimmed(text: string)
    requires text != [] && Solid(IsSpace, text)
    ensures MarkOfLine(text + "\n") == MarkOfText(text)
  {
    StripAround(IsSpace, "", text, "\n");
    assert "" + text + "\n" == text + "\n";
  }

  lemma ExpandOneTab()
    ensures ExpandFrom("\t", 15) == " "
  {
    assert "\t"[1..] == "" && ExpandFrom("", 16) == "";
    assert ExpandFrom("\t", 15) == ExpandChar('\t', 15) + ExpandFrom("", 16);
    assert ExpandChar('\t', 15) == " ";
  }

  lemma TabInColumn15(head: string, tail: string)
    requires |head| == 15 && '\t' !in tail && forall i :: 0 <= i < |head| ==> head[i] !in {'\t', '\n', '\r'}
    ensures ExpandTabs(head + "\t" + tail) == head + " " + tail
  {
    PlainColumns(head, 0);
    assert head + "\t" + tail == head + ("\t" + tail);
    ExpandAppend(head, "\t" + tail, 0);
    ExpandClean(head, 0);
    ExpandAppend("\t", tail, 15);
    ExpandOneTab();
    ExpandClean(tail, ColumnAfter("\t", 15));
  }

  lemma {:induction false} PlainColumns(s: string, column: nat)
    requires forall i :: 0 <= i < |s| ==> s[i] !in {'\t', '\n', '\r'}
    ensures ColumnAfter(s, column) == column + |s|
  {
    if s == [] {
    } else {
      PlainColumns(s[1..], column + 1);
    }
  }

  // ---- One fix after another ----

  /** A line is free of trailing whitespace if it is a newline after nothing or after a character
      that is no space. */
  lemma TrimmedLine(text: string)
    requires text != [] ==> !IsSpace(text[|text| - 1])
    ensures CheckWhitespaceLine(text + "\n").compliant
  {
    RStripSuffix(IsSpace, text, "\n");
  }

  lemma TrimmedText(line: string) returns (text: string)
    requires CheckWhitespaceLine(line).compliant
    ensures line == text + "\n" && (text != [] ==> !IsSpace(text[|text| - 1]))
  {
    var n := RStripSplit(IsSpace, line);
    text := line[..n];
  }

  lemma ExpandKeepsLast(text: string)
    requires text != [] && !IsSpace(text[|text| - 1])
    ensures ExpandTabs(text) != [] && ExpandTabs(text)[|ExpandTabs(text)| - 1] == text[|text| - 1]
  {
    var front, last := text[..|text| - 1], [text[|text| - 1]];
    assert text == front + last && !IsSpace(last[0]);
    ExpandAppend(front, last, 0);
    ExpandClean(last, ColumnAfter(front, 0));
  }

  lemma TabsKeepWhitespace(line: string)
    requires IsLine(line) && CheckWhitespaceLine(line).compliant
    ensures CheckWhitespaceLine(ExpandTabs(line)).compliant
  {
    var text := TrimmedText(line);
    ExpandAppend(text, "\n", 0);
    ExpandClean("\n", ColumnAfter(text, 0));
    if text != [] {
      ExpandKeepsLast(text);
    }
    TrimmedLine(ExpandTabs(text));
  }

  lemma CutLast(a: string, m: string, b: string)
    requires b != []
    ensures a + m + b == (a + m + b[..|b| - 1]) + [b[|b| - 1]]
  {
  }

  /** The last character is outside m, or it is the last of m. */
  lemma LastAfterSwap(a: string, m: string, b: string, m': string)
    requires m != [] && m' != [] && !IsSpace((a + m + b)[|a + m + b| - 1]) && !IsSpace(m'[|m'| - 1])
    ensures !IsSpace((a + m' + b)[|a + m' + b| - 1])
  {
    if b == [] {
      assert a + m' + b == a + m';
    } else {
      assert (a + m' + b)[|a + m' + b| - 1] == b[|b| - 1];
      assert (a + m + b)[|a + m + b| - 1] == b[|b| - 1];
    }
  }

  lemma SameFront(x: string, y: string, c: char, d: char)
    requires x + [c] == y + [d]
    ensures x == y && c == d
  {
    assert x == (x + [c])[..|x|] && y == (y + [d])[..|y|];
    assert |x + [c]| == |y + [d]|;
    assert (x + [c])[|x|] == c && (y + [d])[|y|] == d;
  }

  lemma SpdxKeepsWhitespace(line: string)
    requires IsLine(line) && Core(line) == GPL_FIRST_LINE && CheckWhitespaceLine(line).compliant
    ensures CheckWhitespaceLine(SpdxFor(line)).compliant
  {
    LicenceTexts();
    var a, b := SpdxReplaces(line);
    var text := TrimmedText(line);
    assert line[|line| - 1] == '\n';
    var rest := b[..|b| - 1];
    CutLast(a, GPL_FIRST_LINE, b);
    CutLast(a, SPDX_LICENSE, b);
    SameFront(text, a + GPL_FIRST_LINE + rest, '\n', b[|b| - 1]);
    LastAfterSwap(a, GPL_FIRST_LINE, rest, SPDX_LICENSE);
    TrimmedLine(a + SPDX_LICENSE + rest);
  }

  lemma SpdxKeepsTabs(line: string)
    requires Core(line) == GPL_FIRST_LINE && CheckTabsLine(line).compliant
    ensures CheckTabsLine(SpdxFor(line)).compliant
  {
    LicenceTexts();
    var a, b := SpdxReplaces(line);
    assert forall c :: c in a || c in b ==> c in line;
  }

  /** Which of the three checks are made of a file: those that are switched on and apply to files of
      its name. */
  datatype Checks = Checks(whitespace: bool, tabs: bool, license: bool)

  function FixIf(on: bool, rules: Rules, content: string): string {
    if on then FixFile(rules, content) else content
  }

  predicate CompliantIf(on: bool, rules: Rules, content: string) {
    on ==> IsCompliant(rules, content)
  }

  /** What the script does to a file in fix mode. */
  function FixAll(checks: Checks, content: string): string {
    FixIf(checks.license, LICENSES, FixIf(checks.tabs, TABS, FixIf(checks.whitespace, WHITESPACE, content)))
  }

  predicate PassesAll(checks: Checks, content: string) {
    && CompliantIf(checks.whitespace, WHITESPACE, content)
    && CompliantIf(checks.tabs, TABS, content)
    && CompliantIf(checks.license, LICENSES, content)
  }

  /** One run of the script in fix mode leaves a file that passes all checks made of it, although a
      later fix edits what an earlier one has cleaned; and a second run changes nothing. */
  lemma FixAllPassesAll(checks: Checks, content: string)
    ensures PassesAll(checks, FixAll(checks, content))
    ensures FixAll(checks, FixAll(checks, content)) == FixAll(checks, content)
  {
    var trimmed := FixIf(checks.whitespace, WHITESPACE, content);
    var expanded := FixIf(checks.tabs, TABS, trimmed);
    if checks.whitespace {
      EachFixIsFinal(WHITESPACE, content);
      if checks.tabs {
        TabsFixKeepsWhitespace(trimmed);
      }
      if checks.license {
        LicensesFixKeepsWhitespace(expanded);
      }
    }
    if checks.tabs {
      EachFixIsFinal(TABS, trimmed);
      if checks.license {
        LicensesFixKeepsTabs(expanded);
      }
    }
    if checks.license {
      EachFixIsFinal(LICENSES, expanded);
    }
  }

  lemma TabsFixKeepsWhitespace(content: string)
    requires IsCompliant(WHITESPACE, content)
    ensures IsCompliant(WHITESPACE, FixFile(TABS, content))
  {
    TabsIsLineFixer();
    forall line | IsLine(line) ensures KeepsCompliance(TABS, WHITESPACE, line) {
      if CheckWhitespaceLine(line).compliant {
        TabsKeepWhitespace(line);
      }
    }
    FixKeepsUnguarded(TABS, WHITESPACE, content);
  }

  lemma LicensesFixKeepsWhitespace(content: string)
    requires IsCompliant(WHITESPACE, content)
    ensures IsCompliant(WHITESPACE, FixFile(LICENSES, content))
  {
    LicensesIsLineFixer();
    forall line | IsLine(line) ensures KeepsCompliance(LICENSES, WHITESPACE, line) {
      LicenceLineLaws(line);
    }
    FixKeepsUnguarded(LICENSES, WHITESPACE, content);
  }

  lemma LicensesFixKeepsTabs(content: string)
    requires IsCompliant(TABS, content)
    ensures IsCompliant(TABS, FixFile(LICENSES, content))
  {
    LicensesIsLineFixer();
    forall line | IsLine(line) ensures KeepsCompliance(LICENSES, TABS, line) && LeavesGuards(LICENSES, line) {
      LicenceLineLaws(line);
    }
    FixKeepsGuarded(LICENSES, TABS, content);
  }

  lemma LicenceLineLaws(line: string)
    requires IsLine(line)
    ensures KeepsCompliance(LICENSES, WHITESPACE, line)
    ensures KeepsCompliance(LICENSES, TABS, line) && LeavesGuards(LICENSES, line)
  {
    if !CheckLicensesLine(line).compliant {
      LicenceLineIsNoGuard(line);
      if Core(line) == GPL_FIRST_LINE {
        var a, b := SpdxReplaces(line);
        if CheckWhitespaceLine(line).compliant {
          SpdxKeepsWhitespace(line);
        }
        if CheckTabsLine(line).compliant {
          SpdxKeepsTabs(line);
        }
      }
    }
  }

  /** One check of all files to which it applies: it succeeds if it was asked to fix, or if all those
      files were compliant. */
  method CheckStyleFiles(rules: Rules, on: seq<bool>, contents: seq<string>, fix: bool, verbose: bool)
    returns (successful: bool, newContents: seq<string>)
    requires |on| == |contents|
    ensures |newContents| == |contents|
    ensures forall i :: 0 <= i < |contents| ==> newContents[i] == if fix then FixIf(on[i], rules, contents[i]) else contents[i]
    ensures successful <==> fix || forall i :: 0 <= i < |contents| ==> CompliantIf(on[i], rules, contents[i])
  {
    newContents := contents;
    var anyNonCompliant := false;
    for i := 0 to |contents|
      invariant |newContents| == |contents|
      invariant forall k :: i <= k < |contents| ==> newContents[k] == contents[k]
      invariant forall k :: 0 <= k < i ==> newContents[k] == if fix then FixIf(on[k], rules, contents[k]) else contents[k]
      invariant !anyNonCompliant <==> forall k :: 0 <= k < i ==> CompliantIf(on[k], rules, contents[k])
    {
      if on[i] {
        var compliant, newContent := CheckManuallyFile(contents[i], fix, verbose, rules);
        newContents := newContents[i := newContent];
        if !compliant {
          anyNonCompliant := true;
        }
      }
    }
    successful := !anyNonCompliant || fix;
  }

  /** The script: the checks in their order, each on what the ones before have left of the files. */
  method CheckStyle(contents: seq<string>, checks: seq<Checks>, fix: bool, verbose: bool)
    returns (successful: bool, newContents: seq<string>)
    requires |checks| == |contents|
    ensures |newContents| == |contents|
    ensures fix ==> successful && forall i :: 0 <= i < |contents| ==>
      PassesAll(checks[i], newContents[i]) && newContents[i] == FixAll(checks[i], contents[i])
    ensures !fix ==> newContents == contents
    ensures !fix ==> (successful <==> forall i :: 0 <= i < |contents| ==> PassesAll(checks[i], contents[i]))
  {
    var n := |contents|;
    var whitespace, tabs, license;
    var trimmed, expanded;
    whitespace, trimmed := CheckStyleFiles(
      WHITESPACE, seq(n, i requires 0 <= i < n => checks[i].whitespace), contents, fix, verbose);
    tabs, expanded := CheckStyleFiles(
      TABS, seq(n, i requires 0 <= i < n => checks[i].tabs), trimmed, fix, verbose);
    license, newContents := CheckStyleFiles(
      LICENSES, seq(n, i requires 0 <= i < n => checks[i].license), expanded, fix, verbose);
    successful := whitespace && tabs && license;
    if fix {
      forall i | 0 <= i < n
        ensures PassesAll(checks[i], newContents[i]) && newContents[i] == FixAll(checks[i], contents[i])
      {
        assert newContents[i] == FixAll(checks[i], contents[i]);
        FixAllPassesAll(checks[i], contents[i]);
      }
    }
  }
}
