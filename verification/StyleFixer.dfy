/** The file loop of utils/check-style-clang-format.py: each line that the format guards leave enabled is
    checked, and fixed if asked, by a pluggable line checker. */
module StyleFixer {
  import opened PyStrings

  /** Whether the line was compliant, and the line after the fix. */
  datatype LineResult = LineResult(compliant: bool, fixed: string)

  /** What a line is for the format guards: one that turns checking on, one that turns it off, or
      no guard. */
  datatype Mark = On | Off | Plain

  /** The line checker, whether it respects the guards, and how they are told. */
  datatype Rules = Rules(check: string -> LineResult, respectGuards: bool, markOf: string -> Mark)

  /** Whether checking is enabled once the line has been looked at. */
  function EnabledAfter(rules: Rules, enabled: bool, line: string): bool {
    match rules.markOf(line)
    case On => true
    case Off => false
    case Plain => enabled
  }

  /** The line is checked: guards are ignored, or checking is enabled, or it is itself a guard. */
  predicate IsChecked(rules: Rules, enabled: bool, line: string) {
    !rules.respectGuards || EnabledAfter(rules, enabled, line) || !rules.markOf(line).Plain?
  }

  // ---- What the loop computes ----

  function FixLine(rules: Rules, line: string): string {
    if rules.check(line).compliant then line else rules.check(line).fixed
  }

  function FixIfChecked(rules: Rules, enabled: bool, line: string): string {
    if IsChecked(rules, enabled, line) then FixLine(rules, line) else line
  }

  predicate CompliantIfChecked(rules: Rules, enabled: bool, line: string) {
    IsChecked(rules, enabled, line) ==> rules.check(line).compliant
  }

  function FixFrom(rules: Rules, enabled: bool, lines: seq<string>): (r: seq<string>)
    ensures |r| == |lines|
    decreases |lines|
  {
    if lines == [] then []
    else [FixIfChecked(rules, enabled, lines[0])] + FixFrom(rules, EnabledAfter(rules, enabled, lines[0]), lines[1..])
  }

  predicate CompliantFrom(rules: Rules, enabled: bool, lines: seq<string>)
    decreases |lines|
  {
    lines == []
    || (CompliantIfChecked(rules, enabled, lines[0])
        && CompliantFrom(rules, EnabledAfter(rules, enabled, lines[0]), lines[1..]))
  }

  predicate IsCompliant(rules: Rules, content: string) {
    CompliantFrom(rules, true, ReadLines(content))
  }

  function FixFile(rules: Rules, content: string): string {
    if IsCompliant(rules, content) then content
    else WriteLines(FixFrom(rules, true, ReadLines(content)))
  }

  function EnabledAt(rules: Rules, enabled: bool, lines: seq<string>): bool
    decreases |lines|
  {
    if lines == [] then enabled else EnabledAt(rules, EnabledAfter(rules, enabled, lines[0]), lines[1..])
  }

  // ---- One line more, in front or behind ----

  lemma CompliantCons(rules: Rules, enabled: bool, line: string, rest: seq<string>)
    ensures CompliantFrom(rules, enabled, [line] + rest)
      <==> CompliantIfChecked(rules, enabled, line) && CompliantFrom(rules, EnabledAfter(rules, enabled, line), rest)
  {
    assert ([line] + rest)[1..] == rest;
  }

  lemma NonEmptyCons(line: string, rest: seq<string>)
    ensures NonEmpty([line] + rest) == if line == [] then NonEmpty(rest) else [line] + NonEmpty(rest)
  {
    assert ([line] + rest)[1..] == rest;
  }

  lemma {:induction false} EnabledAppend(rules: Rules, enabled: bool, lines: seq<string>, line: string)
    ensures EnabledAt(rules, enabled, lines + [line]) == EnabledAfter(rules, EnabledAt(rules, enabled, lines), line)
    decreases |lines|
  {
    if lines == [] {
      assert lines + [line] == [line] && [line][1..] == [];
    } else {
      assert (lines + [line])[1..] == lines[1..] + [line];
      EnabledAppend(rules, EnabledAfter(rules, enabled, lines[0]), lines[1..], line);
    }
  }

  lemma {:induction false} FixAppend(rules: Rules, enabled: bool, lines: seq<string>, line: string)
    ensures FixFrom(rules, enabled, lines + [line])
      == FixFrom(rules, enabled, lines) + [FixIfChecked(rules, EnabledAt(rules, enabled, lines), line)]
    decreases |lines|
  {
    if lines == [] {
      assert lines + [line] == [line] && [line][1..] == [];
    } else {
      assert (lines + [line])[1..] == lines[1..] + [line];
      FixAppend(rules, EnabledAfter(rules, enabled, lines[0]), lines[1..], line);
    }
  }

  lemma {:induction false} CompliantAppend(rules: Rules, enabled: bool, lines: seq<string>, line: string)
    ensures CompliantFrom(rules, enabled, lines + [line])
      <==> CompliantFrom(rules, enabled, lines) && CompliantIfChecked(rules, EnabledAt(rules, enabled, lines), line)
    decreases |lines|
  {
    if lines == [] {
      assert lines + [line] == [line] && [line][1..] == [];
    } else {
      assert (lines + [line])[1..] == lines[1..] + [line];
      CompliantAppend(rules, EnabledAfter(rules, enabled, lines[0]), lines[1..], line);
    }
  }

  lemma {:induction false} CompliantPrefix(rules: Rules, enabled: bool, lines: seq<string>, n: nat)
    requires n <= |lines| && CompliantFrom(rules, enabled, lines)
    ensures CompliantFrom(rules, enabled, lines[..n])
    decreases |lines|
  {
    if n == 0 {
    } else {
      assert lines[..n][1..] == lines[1..][..n - 1];
      CompliantPrefix(rules, EnabledAfter(rules, enabled, lines[0]), lines[1..], n - 1);
    }
  }

  // ---- The loop ----

  /** What one turn of the loop has to achieve. */
  lemma LoopStep(rules: Rules, lines: seq<string>, i: nat, fileLines: seq<string>)
    requires i < |lines| && fileLines == FixFrom(rules, true, lines[..i]) + lines[i..]
    ensures var now := EnabledAt(rules, true, lines[..i]);
      && |fileLines| == |lines| && fileLines[i] == lines[i]
      && EnabledAt(rules, true, lines[..i + 1]) == EnabledAfter(rules, now, lines[i])
      && fileLines[i := FixIfChecked(rules, now, lines[i])] == FixFrom(rules, true, lines[..i + 1]) + lines[i + 1..]
      && (CompliantFrom(rules, true, lines[..i + 1])
          <==> CompliantFrom(rules, true, lines[..i]) && CompliantIfChecked(rules, now, lines[i]))
  {
    assert lines[..i + 1] == lines[..i] + [lines[i]];
    EnabledAppend(rules, true, lines[..i], lines[i]);
    FixAppend(rules, true, lines[..i], lines[i]);
    CompliantAppend(rules, true, lines[..i], lines[i]);
  }

  /** Checks a file and, with fix, corrects it. Without fix and verbose the loop stops at the first
      line that is not compliant. */
  method CheckManuallyFile(content: string, fix: bool, verbose: bool, rules: Rules)
    returns (isFileCompliant: bool, newContent: string)
    ensures isFileCompliant <==> IsCompliant(rules, content)
    ensures newContent == if fix then FixFile(rules, content) else content
  {
    isFileCompliant := true;
    var clangFormatEnabled := true;
    var lines := ReadLines(content);
    var fileLines := lines;
    for i := 0 to |lines|
      invariant fileLines == FixFrom(rules, true, lines[..i]) + lines[i..]
      invariant clangFormatEnabled == EnabledAt(rules, true, lines[..i]) || !rules.respectGuards
      invariant isFileCompliant <==> CompliantFrom(rules, true, lines[..i])
    {
      var line := fileLines[i];
      LoopStep(rules, lines, i, fileLines);
      if rules.respectGuards {
        var mark := rules.markOf(line);
        if mark.On? {
          clangFormatEnabled := true;
        } else if mark.Off? {
          clangFormatEnabled := false;
        }
        if !clangFormatEnabled && mark.Plain? {
          continue;
        }
      }
      var result := rules.check(line);
      if !result.compliant {
        isFileCompliant := false;
        fileLines := fileLines[i := result.fixed];
        if !fix && !verbose {
          if CompliantFrom(rules, true, lines) {
            CompliantPrefix(rules, true, lines, i + 1);
          }
          return false, content;
        }
      }
    }
    assert lines[..|lines|] == lines && lines[|lines|..] == [];
    assert fileLines == FixFrom(rules, true, lines);
    newContent := content;
    if fix && !isFileCompliant {
      newContent := WriteLines(fileLines);
    }
  }

  // ---- When a fix is final ----

  /** What a checker must do with a line for a fix to be final: what it makes of the line is either
      nothing or again a line, which it accepts. */
  ghost predicate FixesLine(rules: Rules, line: string) {
    var r := rules.check(line);
    !r.compliant && r.fixed != [] ==>
      IsLine(r.fixed) && rules.check(r.fixed).compliant && (EndsLine(line) ==> EndsLine(r.fixed))
  }

  /** And it must leave a guard the same guard. It may make new ones. */
  ghost predicate KeepsGuard(rules: Rules, line: string) {
    rules.respectGuards && !rules.markOf(line).Plain? && !rules.check(line).compliant ==>
      rules.check(line).fixed != [] && rules.markOf(rules.check(line).fixed) == rules.markOf(line)
  }

  ghost predicate IsLineFixer(rules: Rules) {
    forall line :: IsLine(line) ==> FixesLine(rules, line) && KeepsGuard(rules, line)
  }

  /** What the second pass leaves enabled the first pass had enabled too; so one step of the second
      pass finds its line in order. */
  lemma SecondStep(rules: Rules, first: bool, second: bool, line: string)
    requires rules.respectGuards && FixesLine(rules, line) && KeepsGuard(rules, line) && (second ==> first)
    ensures var fixed := FixIfChecked(rules, first, line);
      && (fixed != [] ==> CompliantIfChecked(rules, second, fixed))
      && (fixed != [] && EnabledAfter(rules, second, fixed) ==> EnabledAfter(rules, first, line))
      && (fixed == [] && line != [] && second ==> EnabledAfter(rules, first, line))
  {
  }

  lemma {:induction false} SecondPassIsClean(rules: Rules, first: bool, second: bool, lines: seq<string>)
    requires rules.respectGuards && (second ==> first)
    requires forall i :: 0 <= i < |lines| ==> lines[i] != [] && FixesLine(rules, lines[i]) && KeepsGuard(rules, lines[i])
    ensures CompliantFrom(rules, second, NonEmpty(FixFrom(rules, first, lines)))
    decreases |lines|
  {
    if lines == [] {
    } else {
      var line := lines[0];
      assert line != [] && FixesLine(rules, line) && KeepsGuard(rules, line);
      assert forall i :: 0 <= i < |lines[1..]| ==> lines[1..][i] == lines[i + 1];
      var fixed := FixIfChecked(rules, first, line);
      var rest := FixFrom(rules, EnabledAfter(rules, first, line), lines[1..]);
      SecondStep(rules, first, second, line);
      NonEmptyCons(fixed, rest);
      if fixed == [] {
        SecondPassIsClean(rules, EnabledAfter(rules, first, line), second, lines[1..]);
      } else {
        SecondPassIsClean(rules, EnabledAfter(rules, first, line), EnabledAfter(rules, second, fixed), lines[1..]);
        CompliantCons(rules, second, fixed, NonEmpty(rest));
      }
    }
  }

  /** Without respect for guards the state does not matter. */
  lemma {:induction false} UnguardedPass(rules: Rules, other: Rules, enabled: bool, lines: seq<string>)
    requires !other.respectGuards
    requires forall i :: 0 <= i < |lines| ==>
      FixLine(rules, lines[i]) != [] ==> other.check(FixLine(rules, lines[i])).compliant
    requires forall i :: 0 <= i < |lines| ==> rules.respectGuards ==> other.check(lines[i]).compliant
    ensures forall state :: CompliantFrom(other, state, NonEmpty(FixFrom(rules, enabled, lines)))
    decreases |lines|
  {
    if lines == [] {
    } else {
      var line := lines[0];
      assert forall i :: 0 <= i < |lines[1..]| ==> lines[1..][i] == lines[i + 1];
      var fixed := FixIfChecked(rules, enabled, line);
      var rest := FixFrom(rules, EnabledAfter(rules, enabled, line), lines[1..]);
      UnguardedPass(rules, other, EnabledAfter(rules, enabled, line), lines[1..]);
      NonEmptyCons(fixed, rest);
      assert fixed == line || fixed == FixLine(rules, line);
      forall state ensures CompliantFrom(other, state, NonEmpty([fixed] + rest)) {
        if fixed != [] {
          CompliantCons(other, state, fixed, NonEmpty(rest));
        }
      }
    }
  }

  lemma {:induction false} FixedAreLines(rules: Rules, enabled: bool, lines: seq<string>)
    requires AreLines(lines) && forall i :: 0 <= i < |lines| ==> lines[i] != [] && FixesLine(rules, lines[i])
    ensures AreLines(FixFrom(rules, enabled, lines))
    decreases |lines|
  {
    if lines == [] {
    } else {
      var line := lines[0];
      assert IsLine(line) && FixesLine(rules, line);
      assert forall i :: 0 <= i < |lines[1..]| ==> lines[1..][i] == lines[i + 1];
      FixedAreLines(rules, EnabledAfter(rules, enabled, line), lines[1..]);
    }
  }

  lemma LawsForLines(rules: Rules, content: string)
    requires IsLineFixer(rules)
    ensures AreLines(ReadLines(content))
    ensures forall i :: 0 <= i < |ReadLines(content)| ==> ReadLines(content)[i] != []
    ensures forall i :: 0 <= i < |ReadLines(content)| ==> FixesLine(rules, ReadLines(content)[i])
    ensures forall i :: 0 <= i < |ReadLines(content)| ==> KeepsGuard(rules, ReadLines(content)[i])
  {
    ReadAreLines(content);
    forall i | 0 <= i < |ReadLines(content)|
      ensures FixesLine(rules, ReadLines(content)[i]) && KeepsGuard(rules, ReadLines(content)[i])
    {
      assert IsLine(ReadLines(content)[i]);
    }
  }

  /** A fixed file reads back as the fixed lines, without those that became empty. */
  lemma FixedFileReadsBack(rules: Rules, content: string)
    requires IsLineFixer(rules) && !IsCompliant(rules, content)
    ensures ReadLines(FixFile(rules, content)) == NonEmpty(FixFrom(rules, true, ReadLines(content)))
  {
    LawsForLines(rules, content);
    FixedAreLines(rules, true, ReadLines(content));
    ReadBack(FixFrom(rules, true, ReadLines(content)));
  }

  lemma UnguardedFixIsClean(rules: Rules, lines: seq<string>)
    requires !rules.respectGuards && forall i :: 0 <= i < |lines| ==> FixesLine(rules, lines[i])
    ensures CompliantFrom(rules, true, NonEmpty(FixFrom(rules, true, lines)))
  {
    forall i | 0 <= i < |lines| && FixLine(rules, lines[i]) != []
      ensures rules.check(FixLine(rules, lines[i])).compliant
    {
      assert FixesLine(rules, lines[i]);
    }
    UnguardedPass(rules, rules, true, lines);
  }

  /** Main result: after a fix the file is compliant, and a second fix changes nothing. */
  lemma FixIsFinal(rules: Rules, content: string)
    requires IsLineFixer(rules)
    ensures IsCompliant(rules, FixFile(rules, content))
    ensures FixFile(rules, FixFile(rules, content)) == FixFile(rules, content)
  {
    if !IsCompliant(rules, content) {
      LawsForLines(rules, content);
      FixedFileReadsBack(rules, content);
      if rules.respectGuards {
        SecondPassIsClean(rules, true, true, ReadLines(content));
      } else {
        UnguardedFixIsClean(rules, ReadLines(content));
      }
    }
  }

  // ---- When one fix keeps what another has established ----

  /** Fixing with one checker leaves a line that another accepts acceptable to it. */
  ghost predicate KeepsCompliance(rules: Rules, other: Rules, line: string) {
    var r := rules.check(line);
    !r.compliant && r.fixed != [] && other.check(line).compliant ==> other.check(r.fixed).compliant
  }

  /** The checker lets guards be and never makes one. */
  ghost predicate LeavesGuards(rules: Rules, line: string) {
    var r := rules.check(line);
    !r.compliant ==> rules.markOf(line).Plain? && (r.fixed != [] ==> rules.markOf(r.fixed).Plain?)
  }

  lemma {:induction false} UnguardedMeansAll(rules: Rules, enabled: bool, lines: seq<string>)
    requires !rules.respectGuards && CompliantFrom(rules, enabled, lines)
    ensures forall i :: 0 <= i < |lines| ==> rules.check(lines[i]).compliant
    decreases |lines|
  {
    if lines == [] {
    } else {
      UnguardedMeansAll(rules, EnabledAfter(rules, enabled, lines[0]), lines[1..]);
      assert forall i :: 0 < i < |lines| ==> lines[i] == lines[1..][i - 1];
    }
  }

  lemma FixKeepsUnguarded(rules: Rules, other: Rules, content: string)
    requires IsLineFixer(rules) && !other.respectGuards
    requires forall line :: IsLine(line) ==> KeepsCompliance(rules, other, line)
    requires IsCompliant(other, content)
    ensures IsCompliant(other, FixFile(rules, content))
  {
    if !IsCompliant(rules, content) {
      var lines := ReadLines(content);
      LawsForLines(rules, content);
      FixedFileReadsBack(rules, content);
      UnguardedMeansAll(other, true, lines);
      forall i | 0 <= i < |lines| && FixLine(rules, lines[i]) != []
        ensures other.check(FixLine(rules, lines[i])).compliant
      {
        assert IsLine(lines[i]) && KeepsCompliance(rules, other, lines[i]);
      }
      UnguardedPass(rules, other, true, lines);
    }
  }

  lemma {:induction false} GuardedPass(rules: Rules, other: Rules, enabled: bool, lines: seq<string>)
    requires rules.respectGuards && other.respectGuards && rules.markOf == other.markOf
    requires forall i :: 0 <= i < |lines| ==>
      lines[i] != [] && KeepsCompliance(rules, other, lines[i]) && LeavesGuards(rules, lines[i])
    requires CompliantFrom(other, enabled, lines)
    ensures CompliantFrom(other, enabled, NonEmpty(FixFrom(rules, enabled, lines)))
    decreases |lines|
  {
    if lines == [] {
    } else {
      var line := lines[0];
      assert KeepsCompliance(rules, other, line) && LeavesGuards(rules, line);
      assert forall i :: 0 <= i < |lines[1..]| ==> lines[1..][i] == lines[i + 1];
      var fixed := FixIfChecked(rules, enabled, line);
      var rest := FixFrom(rules, EnabledAfter(rules, enabled, line), lines[1..]);
      GuardedPass(rules, other, EnabledAfter(rules, enabled, line), lines[1..]);
      NonEmptyCons(fixed, rest);
      if fixed != [] {
        CompliantCons(other, enabled, fixed, NonEmpty(rest));
      } else {
        assert line != [] && EnabledAfter(rules, enabled, line) == enabled;
      }
    }
  }

  lemma FixKeepsGuarded(rules: Rules, other: Rules, content: string)
    requires IsLineFixer(rules) && rules.respectGuards && other.respectGuards && rules.markOf == other.markOf
    requires forall line :: IsLine(line) ==> KeepsCompliance(rules, other, line) && LeavesGuards(rules, line)
    requires IsCompliant(other, content)
    ensures IsCompliant(other, FixFile(rules, content))
  {
    if !IsCompliant(rules, content) {
      var lines := ReadLines(content);
      LawsForLines(rules, content);
      FixedFileReadsBack(rules, content);
      forall i | 0 <= i < |lines| ensures KeepsCompliance(rules, other, lines[i]) && LeavesGuards(rules, lines[i]) {
        assert IsLine(lines[i]);
      }
      GuardedPass(rules, other, true, lines);
    }
  }
}
