/** The recursive function that sorts the libraries, with its lists updated in place. */
module LibrarySorter {
  import opened Sequences
  import opened LoadOrder
  import opened Options

  /** list.remove: the first occurrence goes. */
  function RemoveFirst(s: seq<Library>, m: Library): seq<Library> {
    if s == [] then []
    else if s[0] == m then s[1..]
    else [s[0]] + RemoveFirst(s[1..], m)
  }

  lemma {:induction false} RemoveOneMore(pending: seq<Library>, taken: seq<Library>, m: Library)
    requires NoDuplicates(pending)
    ensures RemoveFirst(Without(pending, taken), m) == Without(pending, taken + [m])
  {
    if pending == [] {
    } else {
      var rest := pending[1..];
      RemoveOneMore(rest, taken, m);
      if pending[0] in taken {
        assert Without(pending, taken) == Without(rest, taken);
        assert Without(pending, taken + [m]) == Without(rest, taken + [m]);
      } else {
        assert Without(pending, taken)[1..] == Without(rest, taken);
        if pending[0] == m {
          assert m !in rest;
          RemoveAbsent(rest, taken, m);
        }
      }
    }
  }

  lemma RemoveAbsent(pending: seq<Library>, taken: seq<Library>, m: Library)
    requires m !in pending
    ensures Without(pending, taken + [m]) == Without(pending, taken)
  {
    if pending == [] {
    } else {
      RemoveAbsent(pending[1..], taken, m);
      assert pending[0] != m;
    }
  }

  lemma LoadableAppend(deps: Dependencies, pending: seq<Library>, current: seq<Library>, m: Library)
    ensures Loadable(deps, pending + [m], current)
      == Loadable(deps, pending, current) + if CanLoad(deps, m, current) then [m] else []
  {
    if pending == [] {
      assert [m][1..] == [];
    } else {
      assert (pending + [m])[1..] == pending[1..] + [m];
      LoadableAppend(deps, pending[1..], current, m);
    }
  }

  method ModulesThatCanBeLoaded(deps: Dependencies, pending: seq<Library>, current: seq<Library>)
    returns (modules: seq<Library>)
    requires forall m :: m in pending ==> m in deps
    ensures modules == Loadable(deps, pending, current)
  {
    modules := [];
    for i := 0 to |pending|
      invariant modules == Loadable(deps, pending[..i], current)
    {
      var m := pending[i];
      var canBeLoaded := true;
      var j := 0;
      while j < |deps[m]|
        invariant 0 <= j <= |deps[m]| && canBeLoaded
        invariant forall d :: d in deps[m][..j] ==> d in current
      {
        if deps[m][j] !in current {
          canBeLoaded := false;
          break;
        }
        j := j + 1;
      }
      assert canBeLoaded ==> deps[m][..j] == deps[m];
      LoadableAppend(deps, pending[..i], current, m);
      assert pending[..i + 1] == pending[..i] + [m];
      if !canBeLoaded {
        continue;
      }
      modules := modules + [m];
    }
    assert pending[..|pending|] == pending;
  }

  /** What was taken round by round. */
  ghost function TakenBy(deps: Dependencies, rounds: seq<Lists>): (steps: seq<seq<Library>>)
    requires rounds != []
    ensures |steps| == |rounds| - 1 && forall i :: 0 <= i < |steps| ==> steps[i] == Taken(deps, rounds[i])
  {
    seq(|rounds| - 1, i requires 0 <= i < |rounds| - 1 => Taken(deps, rounds[i]))
  }

  class Sorter {
    const deps: Dependencies
    var pending: seq<Library>
    var current: seq<Library>
    var steps: seq<seq<Library>>

    ghost function View(): Lists
      reads this
    {
      Lists(pending, current)
    }

    constructor (deps: Dependencies, keys: seq<Library>)
      ensures this.deps == deps && View() == Lists(keys, []) && steps == []
    {
      this.deps := deps;
      pending, current, steps := keys, [], [];
    }

    /** The loop of a round: the modules move from one list to the other and into the step. */
    method Move(modules: seq<Library>)
      requires NoDuplicates(pending)
      modifies this
      ensures pending == Without(old(pending), modules) && current == old(current) + modules
      ensures steps == old(steps) + [modules]
    {
      var step: seq<Library> := [];
      WithoutNothing(pending);
      for i := 0 to |modules|
        invariant step == modules[..i] && steps == old(steps)
        invariant pending == Without(old(pending), modules[..i])
        invariant current == old(current) + modules[..i]
      {
        RemoveOneMore(old(pending), modules[..i], modules[i]);
        assert modules[..i + 1] == modules[..i] + [modules[i]];
        step := step + [modules[i]];
        pending := RemoveFirst(pending, modules[i]);
        current := current + [modules[i]];
      }
      assert modules[..|modules|] == modules;
      steps := steps + [step];
    }

    method TakeRound() returns (took: bool)
      requires Splits(deps, View())
      modifies this
      ensures View() == NextRound(deps, old(View()))
      ensures steps == old(steps) + [Taken(deps, old(View()))]
      ensures took <==> Taken(deps, old(View())) != []
    {
      var modules := ModulesThatCanBeLoaded(deps, pending, current);
      Move(modules);
      took := |modules| > 0;
    }

    /** The rounds go on until nothing is pending. The source recurses for ever when a round takes
        nothing; here that is the answer false. */
    method DependencyOrder(ghost rounds: seq<Lists>) returns (finished: bool, ghost all: seq<Lists>)
      requires IsRounds(deps, rounds) && rounds[|rounds| - 1] == View() && steps == TakenBy(deps, rounds)
      modifies this
      ensures IsRounds(deps, all) && rounds <= all && all[|all| - 1] == View() && steps == TakenBy(deps, all)
      ensures finished <==> pending == []
      ensures finished <==> Closed(deps) && Acyclic(deps)
      decreases |pending|
    {
      all := rounds;
      if |pending| == 0 {
        FinishedIsClosedAndAcyclic(deps, rounds);
        return true, all;
      }
      AlwaysSplits(deps, rounds, |rounds| - 1);
      ghost var last := View();
      var took := TakeRound();
      OneMoreRound(deps, rounds);
      all := rounds + [View()];
      assert steps == TakenBy(deps, all);
      if !took {
        WithoutNothing(last.pending);
        StuckIsNotClosedAcyclic(deps, last);
        return false, all;
      }
      TakingShrinks(deps, last);
      finished, all := DependencyOrder(all);
    }
  }

  lemma StuckIsNotClosedAcyclic(deps: Dependencies, l: Lists)
    requires Splits(deps, l) && Taken(deps, l) == [] && l.pending != []
    ensures !(Closed(deps) && Acyclic(deps))
  {
    if Closed(deps) && Acyclic(deps) {
      RoundTakesSomething(deps, l);
    }
  }

  lemma TakingShrinks(deps: Dependencies, l: Lists)
    requires Taken(deps, l) != []
    ensures |NextRound(deps, l).pending| < |l.pending|
  {
    var m := Taken(deps, l)[0];
    LoadableMember(deps, l.pending, l.current, m);
    WithoutShrinks(l.pending, Taken(deps, l), m);
  }

  function Flatten(steps: seq<seq<Library>>): seq<Library> {
    if steps == [] then [] else Flatten(steps[..|steps| - 1]) + steps[|steps| - 1]
  }

  /** All that was taken, in order, is what ends up loaded. */
  lemma {:induction false} FlattenIsCurrent(deps: Dependencies, rounds: seq<Lists>)
    requires IsRounds(deps, rounds)
    ensures Flatten(TakenBy(deps, rounds)) == rounds[|rounds| - 1].current
  {
    if |rounds| == 1 {
    } else {
      var front := rounds[..|rounds| - 1];
      forall i | 0 <= i < |front| - 1 ensures RoundAt(deps, front, i) {
        assert RoundAt(deps, rounds, i);
      }
      FlattenIsCurrent(deps, front);
      assert TakenBy(deps, rounds)[..|rounds| - 2] == TakenBy(deps, front);
      assert RoundAt(deps, rounds, |rounds| - 2);
    }
  }

  /** A module of the list comes after all it depends on. */
  ghost predicate DependenciesFirst(deps: Dependencies, order: seq<Library>) {
    forall i, d :: 0 <= i < |order| && DependsOn(deps, order[i], d) ==> d in order[..i]
  }

  lemma {:induction false} CurrentIsOrdered(deps: Dependencies, rounds: seq<Lists>, n: nat)
    requires IsRounds(deps, rounds) && n < |rounds|
    ensures DependenciesFirst(deps, rounds[n].current)
  {
    if n == 0 {
    } else {
      CurrentIsOrdered(deps, rounds, n - 1);
      assert RoundAt(deps, rounds, n - 1);
      var before, now := rounds[n - 1].current, rounds[n].current;
      forall i, d | 0 <= i < |now| && DependsOn(deps, now[i], d) ensures d in now[..i] {
        if i < |before| {
          assert now[i] == before[i] && now[..i] == before[..i];
        } else {
          DependenciesOneRoundBefore(deps, rounds, n, now[i], d);
          assert now[..i] == before + now[|before|..i];
        }
      }
    }
  }

  /** The loop that puts the steps one after another. */
  method Concatenate(steps: seq<seq<Library>>) returns (libraries: seq<Library>)
    ensures libraries == Flatten(steps)
  {
    libraries := [];
    for i := 0 to |steps|
      invariant libraries == Flatten(steps[..i])
    {
      assert steps[..i + 1][..i] == steps[..i];
      libraries := libraries + steps[i];
    }
    assert steps[..|steps|] == steps;
  }

  /** The order exists exactly for a closed map without cycles. It has each library once, and each
      after all that it depends on. */
  method SortToDependencies(deps: Dependencies, keys: seq<Library>) returns (sorted: Option<seq<Library>>)
    requires NoDuplicates(keys) && forall m :: m in keys <==> m in deps
    ensures sorted.Some? <==> Closed(deps) && Acyclic(deps)
    ensures sorted.Some? ==> NoDuplicates(sorted.value) && forall m :: m in sorted.value <==> m in keys
    ensures sorted.Some? ==> DependenciesFirst(deps, sorted.value)
  {
    var sorter := new Sorter(deps, keys);
    ghost var rounds := [sorter.View()];
    var finished;
    finished, rounds := sorter.DependencyOrder(rounds);
    if !finished {
      return None;
    }
    var libraries := Concatenate(sorter.steps);
    FlattenIsCurrent(deps, rounds);
    AlwaysSplits(deps, rounds, |rounds| - 1);
    CurrentIsOrdered(deps, rounds, |rounds| - 1);
    sorted := Some(libraries);
  }
}
