/** The file names of a run, as BuildPrefix and StartForRun of helperfiles/routing_telemetry4.cc make
    them: two runs write to the same files only if their parameters are the same. */
module RunPrefix {

  predicate IsDigit(c: char) {
    '0' <= c <= '9'
  }

  /** std::to_string of an unsigned number. */
  function Decimal(n: nat): (s: string)
    ensures s != [] && forall i :: 0 <= i < |s| ==> IsDigit(s[i])
  {
    if n < 10 then [DigitChar(n)] else Decimal(n / 10) + [DigitChar(n % 10)]
  }

  function DigitChar(d: nat): (c: char)
    requires d < 10
    ensures IsDigit(c) && c as int == '0' as int + d
  {
    ('0' as int + d) as char
  }

  lemma {:induction false} DecimalInjective(m: nat, n: nat)
    requires Decimal(m) == Decimal(n)
    ensures m == n
  {
    var s := Decimal(m);
    assert s[|s| - 1] == DigitChar(m % 10) == DigitChar(n % 10);
    if m < 10 || n < 10 {
    } else {
      assert s[..|s| - 1] == Decimal(m / 10) == Decimal(n / 10);
      DecimalInjective(m / 10, n / 10);
    }
  }

  /** A number at the end of a name can be told from what precedes it. */
  lemma {:induction false} NumberAtEnd(x: string, m: nat, x': string, n: nat)
    requires x != [] && !IsDigit(x[|x| - 1]) && x' != [] && !IsDigit(x'[|x'| - 1])
    requires x + Decimal(m) == x' + Decimal(n)
    ensures x == x' && m == n
  {
    var s := x + Decimal(m);
    assert !IsDigit(s[|x| - 1]) && !IsDigit(s[|x'| - 1]) by {
      assert s[|x| - 1] == x[|x| - 1] && s[|x'| - 1] == x'[|x'| - 1];
    }
    forall i | |x| <= i < |s| ensures IsDigit(s[i]) {
      assert s[i] == Decimal(m)[i - |x|];
    }
    forall i | |x'| <= i < |s| ensures IsDigit(s[i]) {
      assert s[i] == Decimal(n)[i - |x'|];
    }
    assert |x| == |x'|;
    assert s[..|x|] == x && s[|x|..] == Decimal(m) && s[..|x|] == x' && s[|x|..] == Decimal(n);
    DecimalInjective(m, n);
  }

  lemma CancelEnd(x: string, x': string, end: string)
    requires x + end == x' + end
    ensures x == x'
  {
    assert |x| == |x'|;
    assert x == (x + end)[..|x|];
    assert x' == (x' + end)[..|x|];
  }

  lemma CancelFront(front: string, x: string, x': string)
    requires front + x == front + x'
    ensures x == x'
  {
    assert x == (front + x)[|front|..];
    assert x' == (front + x')[|front|..];
  }

  // ---- BuildPrefix ----

  function OutDir(scenario: string, routing: string, seed: nat, base: string): string {
    base + "/" + (scenario + routing) + "/" + routing + "/seed-" + Decimal(seed)
  }

  function BuildPrefix(scenario: string, routing: string, seed: nat, run: nat, base: string): string {
    OutDir(scenario, routing, seed, base) + "/" + (scenario + routing) + "_seed" + Decimal(seed) + "_run" + Decimal(run)
  }

  /** The name between the base and the numbers. */
  function Middle(folder: string, routing: string, seed: nat): string {
    folder + "/" + routing + ("/seed-" + Decimal(seed) + "/") + folder
  }

  lemma PrefixParts(scenario: string, routing: string, seed: nat, run: nat, base: string)
    ensures BuildPrefix(scenario, routing, seed, run, base)
      == (((base + "/" + Middle(scenario + routing, routing, seed) + "_seed") + Decimal(seed)) + "_run") + Decimal(run)
  {
  }

  /** Although scenario and routing are joined without a separator, the second copy of the folder and
      the lengths tell them apart, as long as no scenario has a slash. */
  lemma MiddleInjective(scenario: string, routing: string, scenario': string, routing': string, seed: nat)
    requires '/' !in scenario && '/' !in scenario'
    requires Middle(scenario + routing, routing, seed) == Middle(scenario' + routing', routing', seed)
    ensures scenario == scenario' && routing == routing'
  {
    FolderNotLonger(scenario, routing, scenario', routing', seed);
    FolderNotLonger(scenario', routing', scenario, routing, seed);
    var folder, folder' := scenario + routing, scenario' + routing';
    var t := Middle(folder, routing, seed);
    assert folder == t[..|folder|] == folder';
    assert |routing| == |routing'|;
    assert routing == folder[|scenario|..] && routing' == folder'[|scenario'|..];
    assert scenario == folder[..|scenario|] && scenario' == folder'[..|scenario'|];
  }

  function FromEnd(s: string, j: nat): char
    requires j < |s|
  {
    s[|s| - 1 - j]
  }

  /** Were the second folder longer, the slash before the first folder would lie in the second
      scenario. */
  lemma FolderNotLonger(scenario: string, routing: string, scenario': string, routing': string, seed: nat)
    requires '/' !in scenario'
    requires Middle(scenario + routing, routing, seed) == Middle(scenario' + routing', routing', seed)
    ensures |scenario' + routing'| <= |scenario + routing|
  {
    var folder, folder' := scenario + routing, scenario' + routing';
    var t := Middle(folder, routing, seed);
    assert FromEnd(t, |folder|) == '/';
    forall j | 0 <= j < |folder'| ensures FromEnd(t, j) == FromEnd(folder', j) {
    }
    forall j | |routing'| <= j < |folder'| ensures FromEnd(folder', j) != '/' {
      assert FromEnd(folder', j) == FromEnd(scenario', j - |routing'|);
      assert FromEnd(scenario', j - |routing'|) in scenario';
    }
    assert 2 * |folder| + |routing| == 2 * |folder'| + |routing'|;
  }

  /** Main result: with one base and scenarios without slashes, the prefix determines all four
      parameters. */
  lemma BuildPrefixInjective(scenario: string, routing: string, seed: nat, run: nat,
                             scenario': string, routing': string, seed': nat, run': nat, base: string)
    requires '/' !in scenario && '/' !in scenario'
    requires BuildPrefix(scenario, routing, seed, run, base) == BuildPrefix(scenario', routing', seed', run', base)
    ensures scenario == scenario' && routing == routing' && seed == seed' && run == run'
  {
    PrefixParts(scenario, routing, seed, run, base);
    PrefixParts(scenario', routing', seed', run', base);
    var middle := Middle(scenario + routing, routing, seed);
    var middle' := Middle(scenario' + routing', routing', seed');
    var a, a' := base + "/" + middle + "_seed", base + "/" + middle' + "_seed";
    NumbersApart(a, seed, run, a', seed', run');
    CancelEnd(base + "/" + middle, base + "/" + middle', "_seed");
    CancelFront(base + "/", middle, middle');
    MiddleInjective(scenario, routing, scenario', routing', seed);
  }

  lemma NumbersApart(a: string, seed: nat, run: nat, a': string, seed': nat, run': nat)
    requires a != [] && !IsDigit(a[|a| - 1]) && a' != [] && !IsDigit(a'[|a'| - 1])
    requires a + Decimal(seed) + "_run" + Decimal(run) == a' + Decimal(seed') + "_run" + Decimal(run')
    ensures a == a' && seed == seed' && run == run'
  {
    NumberAtEnd(a + Decimal(seed) + "_run", run, a' + Decimal(seed') + "_run", run');
    CancelEnd(a + Decimal(seed), a' + Decimal(seed'), "_run");
    NumberAtEnd(a, seed, a', seed');
  }

  // ---- StartForRun ----

  function NormalChar(c: char): char {
    var d := if c == ' ' then '_' else c;
    if d == '/' then '-' else d
  }

  /** std::toupper in the C locale. */
  function UpperChar(c: char): char {
    if 'a' <= c <= 'z' then (c as int - 32) as char else c
  }

  function Map(f: char -> char, s: string): (r: string)
    ensures |r| == |s| && forall i :: 0 <= i < |s| ==> r[i] == f(s[i])
  {
    seq(|s|, i requires 0 <= i < |s| => f(s[i]))
  }

  function RunFiles(scenario: string, routing: string, seed: nat, run: nat): string {
    BuildPrefix(Map(NormalChar, scenario), Map(UpperChar, routing), seed, run, "results")
  }

  /** The loop of StartForRun over the scenario name: both replacements, in place. */
  method NormalizeScenario(scenarioId: string) returns (name: string)
    ensures name == Map(NormalChar, scenarioId)
  {
    name := scenarioId;
    for i := 0 to |scenarioId|
      invariant |name| == |scenarioId|
      invariant forall j :: 0 <= j < i ==> name[j] == NormalChar(scenarioId[j])
      invariant forall j :: i <= j < |name| ==> name[j] == scenarioId[j]
    {
      if name[i] == ' ' {
        name := name[i := '_'];
      }
      if name[i] == '/' {
        name := name[i := '-'];
      }
    }
  }

  method NormalizeRouting(routingName: string) returns (name: string)
    ensures name == Map(UpperChar, routingName)
  {
    name := routingName;
    for i := 0 to |routingName|
      invariant |name| == |routingName|
      invariant forall j :: 0 <= j < i ==> name[j] == UpperChar(routingName[j])
      invariant forall j :: i <= j < |name| ==> name[j] == routingName[j]
    {
      name := name[i := UpperChar(name[i])];
    }
  }

  /** The columns that every file of a run starts its rows with. */
  datatype RunId = RunId(seed: nat, run: nat, routing: string)

  function IdOf(cfg: RoutingTelemetryConfig): RunId {
    RunId(cfg.seed, cfg.run, cfg.routing)
  }

  /** What a run is recorded under. */
  datatype RoutingTelemetryConfig = RoutingTelemetryConfig(
    seed: nat, run: nat, routing: string, filePrefix: string, snapshotPeriod: real)

  function ConfigFor(scenario: string, routing: string, seed: nat, run: nat, snapshotSeconds: real)
    : RoutingTelemetryConfig
  {
    RoutingTelemetryConfig(seed, run, Map(UpperChar, routing), RunFiles(scenario, routing, seed, run), snapshotSeconds)
  }

  /** Two runs share their files if and only if seeds, run numbers and normalized names agree:
      scenarios up to the two replacements, routing names up to case. */
  lemma FilesSharedIff(scenario: string, routing: string, seed: nat, run: nat,
                       scenario': string, routing': string, seed': nat, run': nat)
    ensures RunFiles(scenario, routing, seed, run) == RunFiles(scenario', routing', seed', run')
      <==> Map(NormalChar, scenario) == Map(NormalChar, scenario') && Map(UpperChar, routing) == Map(UpperChar, routing')
           && seed == seed' && run == run'
  {
    var s, s' := Map(NormalChar, scenario), Map(NormalChar, scenario');
    assert '/' !in s && '/' !in s';
    if RunFiles(scenario, routing, seed, run) == RunFiles(scenario', routing', seed', run') {
      BuildPrefixInjective(s, Map(UpperChar, routing), seed, run, s', Map(UpperChar, routing'), seed', run', "results");
    }
  }

  /** So different scenarios can collide. */
  lemma ScenariosCanCollide(routing: string, seed: nat, run: nat)
    ensures RunFiles("a b", routing, seed, run) == RunFiles("a_b", routing, seed, run)
  {
    assert Map(NormalChar, "a b") == Map(NormalChar, "a_b");
  }

  // ---- What the pieces of a name mean ----

  /** Reading a number in base ten. */
  function ReadDecimal(s: string): int {
    if s == [] then 0 else 10 * ReadDecimal(s[..|s| - 1]) + (s[|s| - 1] as int - '0' as int)
  }

  /** A number is written in base ten, without a zero in front. */
  lemma {:induction false} DecimalReadsBack(n: nat)
    ensures ReadDecimal(Decimal(n)) == n
    ensures n > 0 ==> Decimal(n)[0] != '0'
  {
    if n < 10 {
      assert [DigitChar(n)][..0] == [];
    } else {
      var front := Decimal(n / 10);
      DecimalReadsBack(n / 10);
      assert Decimal(n)[..|Decimal(n)| - 1] == front;
    }
  }

  /** Character by character the same letter, large or small, or the same other character. */
  ghost predicate SameButCase(a: string, b: string) {
    && |a| == |b|
    && forall i :: 0 <= i < |a| ==> a[i] == b[i] || IsLarge(a[i], b[i]) || IsLarge(b[i], a[i])
  }

  /** The first is the large form of the second, a small letter. */
  predicate IsLarge(large: char, small: char) {
    'a' <= small <= 'z' && large as int - 'A' as int == small as int - 'a' as int
  }

  /** A normalized routing name has no small letter and differs from the name in case only. */
  lemma UpperMeans(s: string)
    ensures forall c :: c in Map(UpperChar, s) ==> !('a' <= c <= 'z')
    ensures SameButCase(Map(UpperChar, s), s)
  {
  }

  lemma SameUpperIff(a: string, b: string)
    ensures Map(UpperChar, a) == Map(UpperChar, b) <==> SameButCase(a, b)
  {
    var x, y := Map(UpperChar, a), Map(UpperChar, b);
    if x == y {
      forall i | 0 <= i < |a| ensures a[i] == b[i] || IsLarge(a[i], b[i]) || IsLarge(b[i], a[i]) {
        assert x[i] == y[i];
      }
    }
  }

  /** Character by character the same, a blank counting as an underscore and a slash as a hyphen. */
  ghost predicate SameScenario(a: string, b: string) {
    && |a| == |b|
    && forall i :: 0 <= i < |a| ==> a[i] == b[i] || {a[i], b[i]} == {' ', '_'} || {a[i], b[i]} == {'/', '-'}
  }

  lemma SameNormalIff(a: string, b: string)
    ensures Map(NormalChar, a) == Map(NormalChar, b) <==> SameScenario(a, b)
  {
    var x, y := Map(NormalChar, a), Map(NormalChar, b);
    forall i | 0 <= i < |a| && i < |b|
      ensures x[i] == y[i] <==> a[i] == b[i] || {a[i], b[i]} == {' ', '_'} || {a[i], b[i]} == {'/', '-'}
    {
      SameNormalChar(a[i], b[i]);
    }
  }

  lemma SameNormalChar(c: char, d: char)
    ensures NormalChar(c) == NormalChar(d) <==> c == d || {c, d} == {' ', '_'} || {c, d} == {'/', '-'}
    ensures NormalChar(c) != ' ' && NormalChar(c) != '/' && (c != ' ' && c != '/' ==> NormalChar(c) == c)
  {
    if {c, d} == {' ', '_'} {
      assert c in {' ', '_'} && d in {' ', '_'} && ' ' in {c, d} && '_' in {c, d};
    }
    if {c, d} == {'/', '-'} {
      assert c in {'/', '-'} && d in {'/', '-'} && '/' in {c, d} && '-' in {c, d};
    }
  }

  /** Main result in terms of the names themselves: two runs share their files if and only if their
      numbers agree, their scenarios but for blanks and slashes, and their routing names but for case. */
  lemma FilesSharedMeans(scenario: string, routing: string, seed: nat, run: nat,
                         scenario': string, routing': string, seed': nat, run': nat)
    ensures RunFiles(scenario, routing, seed, run) == RunFiles(scenario', routing', seed', run')
      <==> SameScenario(scenario, scenario') && SameButCase(routing, routing') && seed == seed' && run == run'
  {
    FilesSharedIff(scenario, routing, seed, run, scenario', routing', seed', run');
    SameNormalIff(scenario, scenario');
    SameUpperIff(routing, routing');
  }

  /** The prefix of run 2 with seed 1 of a scenario "test" under "olsr". */
  lemma PrefixExample()
    ensures BuildPrefix("test", "olsr", 1, 2, "results") == "results/testolsr/olsr/seed-1/testolsr_seed1_run2"
  {
    assert "test" + "olsr" == "testolsr";
    assert Decimal(1) == "1" && Decimal(2) == "2";
    assert OutDir("test", "olsr", 1, "results") == "results/testolsr/olsr/seed-1";
  }
}
