/** The order in which bindings/python/ns__init__.py loads the ns-3 libraries: round by round, each round
    takes the modules whose dependencies were all taken in earlier rounds. */
module LoadOrder {
  import opened Sequences

  /** A library, known by the base name of its file. */
  datatype Library = Library(name: string)

  type Dependencies = map<Library, seq<Library>>

  /** The two lists that a round works on. */
  datatype Lists = Lists(pending: seq<Library>, current: seq<Library>)

  predicate CanLoad(deps: Dependencies, m: Library, current: seq<Library>) {
    m in deps && forall d :: d in deps[m] ==> d in current
  }

  function Loadable(deps: Dependencies, pending: seq<Library>, current: seq<Library>): seq<Library> {
    if pending == [] then []
    else
      (if CanLoad(deps, pending[0], current) then [pending[0]] else []) + Loadable(deps, pending[1..], current)
  }

  lemma LoadableMember(deps: Dependencies, pending: seq<Library>, current: seq<Library>, m: Library)
    ensures m in Loadable(deps, pending, current) <==> m in pending && CanLoad(deps, m, current)
  {
    if pending == [] {
    } else {
      assert pending == [pending[0]] + pending[1..];
      LoadableMember(deps, pending[1..], current, m);
    }
  }

  function Without(pending: seq<Library>, taken: seq<Library>): (r: seq<Library>)
    ensures |r| <= |pending|
  {
    if pending == [] then []
    else (if pending[0] in taken then [] else [pending[0]]) + Without(pending[1..], taken)
  }

  lemma WithoutMember(pending: seq<Library>, taken: seq<Library>, m: Library)
    ensures m in Without(pending, taken) <==> m in pending && m !in taken
  {
    if pending == [] {
    } else {
      assert pending == [pending[0]] + pending[1..];
      WithoutMember(pending[1..], taken, m);
    }
  }

  function Taken(deps: Dependencies, l: Lists): seq<Library> {
    Loadable(deps, l.pending, l.current)
  }

  function NextRound(deps: Dependencies, l: Lists): Lists {
    Lists(Without(l.pending, Taken(deps, l)), l.current + Taken(deps, l))
  }

  // ---- What the rounds should depend on ----

  ghost predicate Closed(deps: Dependencies) {
    forall m, d :: m in deps && d in deps[m] ==> d in deps
  }

  predicate DependsOn(deps: Dependencies, m: Library, d: Library) {
    m in deps && d in deps[m]
  }

  ghost predicate LinkAt(deps: Dependencies, p: seq<Library>, i: int)
    requires 0 <= i < |p| - 1
  {
    DependsOn(deps, p[i], p[i + 1])
  }

  /** Each module of the list depends directly on the next. */
  ghost predicate IsChain(deps: Dependencies, p: seq<Library>) {
    p != [] && forall i :: 0 <= i < |p| - 1 ==> LinkAt(deps, p, i)
  }

  lemma ChainPrepend(deps: Dependencies, m: Library, p: seq<Library>)
    requires IsChain(deps, p) && DependsOn(deps, m, p[0])
    ensures IsChain(deps, [m] + p)
  {
    forall i | 0 <= i < |[m] + p| - 1 ensures LinkAt(deps, [m] + p, i) {
      if i > 0 {
        assert LinkAt(deps, p, i - 1);
      }
    }
  }

  lemma ChainAppend(deps: Dependencies, p: seq<Library>, d: Library)
    requires IsChain(deps, p) && DependsOn(deps, p[|p| - 1], d)
    ensures IsChain(deps, p + [d])
  {
    forall i | 0 <= i < |p + [d]| - 1 ensures LinkAt(deps, p + [d], i) {
      if i < |p| - 1 {
        assert LinkAt(deps, p, i);
      }
    }
  }

  lemma ChainSlice(deps: Dependencies, p: seq<Library>, i: nat, j: nat)
    requires IsChain(deps, p) && i < j <= |p|
    ensures IsChain(deps, p[i..j])
  {
    forall k | 0 <= k < |p[i..j]| - 1 ensures LinkAt(deps, p[i..j], k) {
      assert LinkAt(deps, p, i + k);
    }
  }

  ghost predicate IsCycle(deps: Dependencies, p: seq<Library>) {
    IsChain(deps, p) && |p| >= 2 && p[0] == p[|p| - 1]
  }

  ghost predicate Acyclic(deps: Dependencies) {
    forall p :: !IsCycle(deps, p)
  }

  // ---- What each round keeps ----

  /** The lists split the keys of the map between them. */
  ghost predicate Splits(deps: Dependencies, l: Lists) {
    && NoDuplicates(l.pending) && NoDuplicates(l.current)
    && (forall m :: m in deps <==> m in l.pending || m in l.current)
    && (forall m :: m in l.pending ==> m !in l.current)
  }

  lemma WithoutNoDuplicates(pending: seq<Library>, taken: seq<Library>)
    requires NoDuplicates(pending)
    ensures NoDuplicates(Without(pending, taken))
  {
    if pending == [] {
    } else {
      WithoutNoDuplicates(pending[1..], taken);
      WithoutMember(pending[1..], taken, pending[0]);
      assert pending[0] !in pending[1..];
    }
  }

  lemma LoadableNoDuplicates(deps: Dependencies, pending: seq<Library>, current: seq<Library>)
    requires NoDuplicates(pending)
    ensures NoDuplicates(Loadable(deps, pending, current))
  {
    if pending == [] {
    } else {
      LoadableNoDuplicates(deps, pending[1..], current);
      LoadableMember(deps, pending[1..], current, pending[0]);
      assert pending[0] !in pending[1..];
    }
  }

  lemma RoundKeepsSplit(deps: Dependencies, l: Lists)
    requires Splits(deps, l)
    ensures Splits(deps, NextRound(deps, l))
  {
    var taken := Taken(deps, l);
    WithoutNoDuplicates(l.pending, taken);
    LoadableNoDuplicates(deps, l.pending, l.current);
    forall m
      ensures m in taken ==> m in l.pending
      ensures m in Without(l.pending, taken) <==> m in l.pending && m !in taken
    {
      LoadableMember(deps, l.pending, l.current, m);
      WithoutMember(l.pending, taken, m);
    }
    forall i, j | 0 <= i < |l.current| && 0 <= j < |taken| ensures l.current[i] != taken[j] {
      assert taken[j] in taken && l.current[i] in l.current;
    }
  }

  ghost predicate RoundAt(deps: Dependencies, rounds: seq<Lists>, i: int)
    requires 0 <= i < |rounds| - 1
  {
    rounds[i + 1] == NextRound(deps, rounds[i])
  }

  /** The lists before each round, starting with nothing loaded. */
  ghost predicate IsRounds(deps: Dependencies, rounds: seq<Lists>) {
    && rounds != [] && rounds[0].current == [] && Splits(deps, rounds[0])
    && forall i :: 0 <= i < |rounds| - 1 ==> RoundAt(deps, rounds, i)
  }

  lemma {:induction false} AlwaysSplits(deps: Dependencies, rounds: seq<Lists>, n: nat)
    requires IsRounds(deps, rounds) && n < |rounds|
    ensures Splits(deps, rounds[n])
  {
    if n == 0 {
    } else {
      AlwaysSplits(deps, rounds, n - 1);
      assert RoundAt(deps, rounds, n - 1);
      RoundKeepsSplit(deps, rounds[n - 1]);
    }
  }

  // ---- Chains go down the rounds ----

  lemma TakenInRound(deps: Dependencies, rounds: seq<Lists>, n: nat, m: Library)
    requires IsRounds(deps, rounds) && n < |rounds| - 1
    ensures m in Taken(deps, rounds[n]) <==> m in rounds[n].pending && CanLoad(deps, m, rounds[n].current)
    ensures m in rounds[n + 1].current <==> m in rounds[n].current || m in Taken(deps, rounds[n])
    ensures m in rounds[n + 1].pending <==> m in rounds[n].pending && m !in Taken(deps, rounds[n])
  {
    assert RoundAt(deps, rounds, n);
    LoadableMember(deps, rounds[n].pending, rounds[n].current, m);
    WithoutMember(rounds[n].pending, Taken(deps, rounds[n]), m);
  }

  /** What is loaded after n rounds has its dependencies loaded one round before. */
  lemma {:induction false} DependenciesOneRoundBefore(deps: Dependencies, rounds: seq<Lists>, n: nat, m: Library, d: Library)
    requires IsRounds(deps, rounds) && n < |rounds| && m in rounds[n].current
    ensures n > 0 && m in deps
    ensures DependsOn(deps, m, d) ==> d in rounds[n - 1].current
  {
    TakenInRound(deps, rounds, n - 1, m);
    if m in rounds[n - 1].current {
      DependenciesOneRoundBefore(deps, rounds, n - 1, m, d);
      TakenInRound(deps, rounds, n - 2, d);
    }
  }

  lemma {:induction false} ChainDescends(deps: Dependencies, rounds: seq<Lists>, n: nat, p: seq<Library>, i: nat)
    requires IsRounds(deps, rounds) && n < |rounds|
    requires IsChain(deps, p) && p[0] in rounds[n].current && i < |p|
    ensures i < n && p[i] in rounds[n - i].current
  {
    if i == 0 {
      DependenciesOneRoundBefore(deps, rounds, n, p[0], p[0]);
    } else {
      ChainDescends(deps, rounds, n, p, i - 1);
      assert LinkAt(deps, p, i - 1);
      DependenciesOneRoundBefore(deps, rounds, n - (i - 1), p[i - 1], p[i]);
      DependenciesOneRoundBefore(deps, rounds, n - i, p[i], p[i]);
    }
  }

  lemma {:induction false} CycleIsNeverLoaded(deps: Dependencies, rounds: seq<Lists>, n: nat, p: seq<Library>)
    requires IsRounds(deps, rounds) && n < |rounds| && IsCycle(deps, p)
    ensures p[0] !in rounds[n].current
    decreases n
  {
    if p[0] in rounds[n].current {
      ChainDescends(deps, rounds, n, p, |p| - 1);
      CycleIsNeverLoaded(deps, rounds, n - (|p| - 1), p);
    }
  }

  lemma FinishedIsClosedAndAcyclic(deps: Dependencies, rounds: seq<Lists>)
    requires IsFinished(deps, rounds)
    ensures Closed(deps) && Acyclic(deps)
  {
    var n := |rounds| - 1;
    AlwaysSplits(deps, rounds, n);
    forall m, d | m in deps && d in deps[m] ensures d in deps {
      DependenciesOneRoundBefore(deps, rounds, n, m, d);
      AlwaysSplits(deps, rounds, n - 1);
    }
    forall p ensures !IsCycle(deps, p) {
      if IsCycle(deps, p) {
        assert LinkAt(deps, p, 0);
        CycleIsNeverLoaded(deps, rounds, n, p);
      }
    }
  }

  /** The rounds leave nothing pending. */
  ghost predicate IsFinished(deps: Dependencies, rounds: seq<Lists>) {
    IsRounds(deps, rounds) && rounds[|rounds| - 1].pending == []
  }

  // ---- A round that takes nothing ----

  /** After a round that takes nothing, no round takes anything. */
  lemma {:induction false} StuckForEver(deps: Dependencies, rounds: seq<Lists>, n: nat, k: nat)
    requires IsRounds(deps, rounds) && n <= k < |rounds| && Taken(deps, rounds[n]) == []
    ensures rounds[k] == rounds[n]
    decreases k
  {
    if n == k {
    } else {
      StuckForEver(deps, rounds, n, k - 1);
      assert RoundAt(deps, rounds, k - 1);
      WithoutNothing(rounds[n].pending);
    }
  }

  lemma WithoutNothing(pending: seq<Library>)
    ensures Without(pending, []) == pending
  {
  }

  /** Modules still pending, each depending on the next. */
  lemma {:induction false} PendingChain(deps: Dependencies, l: Lists, n: nat) returns (p: seq<Library>)
    requires Splits(deps, l) && Closed(deps) && Taken(deps, l) == [] && l.pending != [] && n > 0
    ensures |p| == n && IsChain(deps, p) && forall i :: 0 <= i < n ==> p[i] in l.pending
  {
    if n == 1 {
      p := [l.pending[0]];
    } else {
      var before := PendingChain(deps, l, n - 1);
      var last := before[n - 2];
      assert last in l.pending && last !in Taken(deps, l);
      LoadableMember(deps, l.pending, l.current, last);
      assert !CanLoad(deps, last, l.current);
      var d :| d in deps[last] && d !in l.current;
      p := before + [d];
      ChainAppend(deps, before, d);
    }
  }

  ghost function Elements(s: seq<Library>): set<Library> {
    set m | m in s
  }

  lemma {:induction false} ElementsCount(s: seq<Library>)
    ensures |Elements(s)| <= |s|
  {
    if s == [] {
    } else {
      ElementsCount(s[1..]);
      assert s == [s[0]] + s[1..];
      assert Elements(s) == Elements(s[1..]) + {s[0]};
    }
  }

  lemma {:induction false} Pigeonhole(p: seq<Library>, holes: set<Library>) returns (i: nat, j: nat)
    requires (forall k :: 0 <= k < |p| ==> p[k] in holes) && |p| > |holes|
    ensures i < j < |p| && p[i] == p[j]
    decreases |p|
  {
    var last := p[|p| - 1];
    var front := p[..|p| - 1];
    if last in front {
      i :| 0 <= i < |front| && front[i] == last;
      j := |p| - 1;
    } else {
      assert forall k :: 0 <= k < |front| ==> front[k] in holes - {last};
      i, j := Pigeonhole(front, holes - {last});
    }
  }

  lemma StuckHasCycle(deps: Dependencies, l: Lists) returns (p: seq<Library>)
    requires Splits(deps, l) && Closed(deps) && Taken(deps, l) == [] && l.pending != []
    ensures IsCycle(deps, p)
  {
    ElementsCount(l.pending);
    var chain := PendingChain(deps, l, |l.pending| + 1);
    var i, j := Pigeonhole(chain, Elements(l.pending));
    p := chain[i..j + 1];
    ChainSlice(deps, chain, i, j + 1);
  }

  lemma WithoutShrinks(pending: seq<Library>, taken: seq<Library>, m: Library)
    requires m in pending && m in taken
    ensures |Without(pending, taken)| < |pending|
  {
    if pending[0] in taken {
    } else {
      WithoutShrinks(pending[1..], taken, m);
    }
  }

  /** As long as something is pending, a closed and acyclic map gives every round something to take. */
  lemma RoundTakesSomething(deps: Dependencies, l: Lists)
    requires Splits(deps, l) && Closed(deps) && Acyclic(deps) && l.pending != []
    ensures Taken(deps, l) != [] && |NextRound(deps, l).pending| < |l.pending|
  {
    if Taken(deps, l) == [] {
      var p := StuckHasCycle(deps, l);
      assert false;
    }
    var m := Taken(deps, l)[0];
    LoadableMember(deps, l.pending, l.current, m);
    WithoutShrinks(l.pending, Taken(deps, l), m);
  }

  lemma OneMoreRound(deps: Dependencies, rounds: seq<Lists>)
    requires IsRounds(deps, rounds)
    ensures IsRounds(deps, rounds + [NextRound(deps, rounds[|rounds| - 1])])
  {
    var more := rounds + [NextRound(deps, rounds[|rounds| - 1])];
    forall i | 0 <= i < |more| - 1 ensures RoundAt(deps, more, i) {
      if i < |rounds| - 1 {
        assert RoundAt(deps, rounds, i);
      }
    }
  }

  lemma {:induction false} ClosedAcyclicFinishes(deps: Dependencies, rounds: seq<Lists>) returns (all: seq<Lists>)
    requires IsRounds(deps, rounds) && Closed(deps) && Acyclic(deps)
    ensures IsFinished(deps, all) && rounds <= all
    decreases |rounds[|rounds| - 1].pending|
  {
    var last := rounds[|rounds| - 1];
    if last.pending == [] {
      all := rounds;
    } else {
      AlwaysSplits(deps, rounds, |rounds| - 1);
      RoundTakesSomething(deps, last);
      OneMoreRound(deps, rounds);
      all := ClosedAcyclicFinishes(deps, rounds + [NextRound(deps, last)]);
    }
  }

  // ---- Main results ----

  /** The rounds that start with all modules pending come to an end exactly when the map is closed
      and has no cycle. */
  lemma FinishesIffClosedAndAcyclic(deps: Dependencies, start: Lists)
    requires start.current == [] && Splits(deps, start)
    ensures (exists rounds :: IsFinished(deps, rounds) && rounds[0] == start) <==> Closed(deps) && Acyclic(deps)
  {
    if rounds :| IsFinished(deps, rounds) && rounds[0] == start {
      FinishedIsClosedAndAcyclic(deps, rounds);
    }
    if Closed(deps) && Acyclic(deps) {
      var all := ClosedAcyclicFinishes(deps, [start]);
      assert all[0] == [start][0];
    }
  }

  /** The round in which a module is taken is the length of the longest chain of dependencies below
      it: there is a chain with that many links, and none with more. */
  lemma {:induction false} RoundIsLongestChain(deps: Dependencies, rounds: seq<Lists>, r: nat, m: Library)
    returns (longest: seq<Library>)
    requires IsRounds(deps, rounds) && r < |rounds| - 1 && m in Taken(deps, rounds[r])
    ensures IsChain(deps, longest) && longest[0] == m && |longest| == r + 1
    ensures forall p :: IsChain(deps, p) && p[0] == m ==> |p| <= r + 1
  {
    TakenInRound(deps, rounds, r, m);
    forall p | IsChain(deps, p) && p[0] == m ensures |p| <= r + 1 {
      ChainDescends(deps, rounds, r + 1, p, |p| - 1);
    }
    if r == 0 {
      longest := [m];
    } else {
      TakenInRound(deps, rounds, r - 1, m);
      var d :| d in deps[m] && d !in rounds[r - 1].current;
      TakenInRound(deps, rounds, r - 1, d);
      var rest := RoundIsLongestChain(deps, rounds, r - 1, d);
      longest := [m] + rest;
      ChainPrepend(deps, m, rest);
    }
  }

  /** Every dependency is taken in a strictly earlier round. */
  lemma DependencyInEarlierRound(deps: Dependencies, rounds: seq<Lists>, r: nat, m: Library, q: nat, d: Library)
    requires IsRounds(deps, rounds) && r < |rounds| - 1 && q < |rounds| - 1
    requires m in Taken(deps, rounds[r]) && d in Taken(deps, rounds[q]) && DependsOn(deps, m, d)
    ensures q < r
  {
    var below := RoundIsLongestChain(deps, rounds, q, d);
    ChainPrepend(deps, m, below);
    var longest := RoundIsLongestChain(deps, rounds, r, m);
    assert IsChain(deps, [m] + below) && ([m] + below)[0] == m;
  }

  /** Two libraries that depend on each other are never loaded. */
  lemma CycleNeverFinishes(a: Library, b: Library, rounds: seq<Lists>)
    requires a != b && rounds != [] && rounds[0] == Lists([a, b], [])
    ensures var deps := map[a := [b], b := [a]];
      Splits(deps, rounds[0]) && Closed(deps) && !IsFinished(deps, rounds)
  {
    var deps := map[a := [b], b := [a]];
    SplitsTwo(deps, a, b);
    var p := [a, b, a];
    forall i | 0 <= i < |p| - 1 ensures LinkAt(deps, p, i) {
    }
    assert IsCycle(deps, p);
    if IsFinished(deps, rounds) {
      FinishedIsClosedAndAcyclic(deps, rounds);
    }
  }

  lemma SplitsTwo(deps: Dependencies, a: Library, b: Library)
    requires a != b && deps.Keys == {a, b}
    ensures Splits(deps, Lists([a, b], []))
  {
    assert [a, b][0] == a && [a, b][1] == b;
  }

  /** Nor is a library that depends on one outside the map, although there is no cycle. */
  lemma UnlistedNeverFinishes(a: Library, b: Library, rounds: seq<Lists>)
    requires a != b && rounds != [] && rounds[0] == Lists([a], [])
    ensures var deps := map[a := [b]];
      Splits(deps, rounds[0]) && Acyclic(deps) && !IsFinished(deps, rounds)
  {
    var deps := map[a := [b]];
    assert [a][0] == a;
    assert b in deps[a] && b !in deps;
    forall p ensures !IsCycle(deps, p) {
      if IsChain(deps, p) && |p| >= 2 {
        assert LinkAt(deps, p, 0) && p[1] == b;
        assert |p| > 2 ==> LinkAt(deps, p, 1);
      }
    }
    if IsFinished(deps, rounds) {
      FinishedIsClosedAndAcyclic(deps, rounds);
    }
  }
}
