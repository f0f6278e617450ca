/** One benchmark run of utils/bench-scheduler.cc: a population of events, each of which schedules one
    successor, until the wanted number is counted. Times are in nanoseconds. */
module Bench {

  ghost predicate Ascending(times: seq<nat>) {
    forall i, j :: 0 <= i < j < |times| ==> times[i] <= times[j]
  }

  predicate IsLeast(t: nat, times: multiset<nat>) {
    t in times && forall u :: u in times ==> t <= u
  }

  /** Counting up from a lower bound reaches the least time. */
  lemma {:induction false} HasLeast(times: multiset<nat>, low: nat, some: nat) returns (least: nat)
    requires some in times && forall u :: u in times ==> low <= u
    ensures IsLeast(least, times)
    decreases some - low
  {
    if low in times {
      least := low;
    } else {
      least := HasLeast(times, low + 1, some);
    }
  }

  /** The benchmark with the simulator it drives: the clock, the pending events, and the stop flag. */
  class Bench {
    const population: nat
    const total: nat
    const delays: nat -> nat // the k-th draw of the random stream
    var count: nat
    var draws: nat
    var now: nat
    var pending: multiset<nat>
    var stopped: bool
    ghost var counted: seq<nat> // the times of the counted events

    constructor (population: nat, total: nat, delays: nat -> nat)
      ensures this.population == population && this.total == total && this.delays == delays
      ensures Idle() && draws == 0
    {
      this.population, this.total, this.delays := population, total, delays;
      count, draws, now, pending, stopped, counted := 0, 0, 0, multiset{}, false, [];
    }

    ghost predicate Valid()
      reads this
    {
      && (forall t :: t in pending ==> now <= t)
      && |counted| == count <= total
      && Ascending(counted)
      && (forall i :: 0 <= i < |counted| ==> counted[i] <= now)
    }

    method Schedule()
      requires Valid()
      modifies this`draws, this`pending
      ensures Valid() && draws == old(draws) + 1
      ensures pending == old(pending) + multiset{now + delays(old(draws))}
    {
      pending := pending + multiset{now + delays(draws)};
      draws := draws + 1;
    }

    /** The event: it replaces itself and is counted, or stops the simulation. */
    method Cb()
      requires Valid()
      modifies this
      ensures Valid() && now == old(now)
      ensures if old(count) >= total
              then stopped && count == old(count) && pending == old(pending) && draws == old(draws)
              else stopped == old(stopped) && count == old(count) + 1 && draws == old(draws) + 1
                   && pending == old(pending) + multiset{now + delays(old(draws))}
      ensures counted == if old(count) >= total then old(counted) else old(counted) + [now]
    {
      if count >= total {
        stopped := true;
        return;
      }
      Schedule();
      count := count + 1;
      counted := counted + [now];
    }

    method TakeNext()
      requires Valid() && pending != multiset{}
      modifies this`now, this`pending
      ensures Valid() && IsLeast(now, old(pending)) && pending == old(pending) - multiset{now}
    {
      ghost var some :| some in pending;
      ghost var least := HasLeast(pending, 0, some);
      var t :| t in pending && IsLeast(t, pending);
      var others := pending - multiset{t};
      forall u: nat | u in others ensures t <= u {
        assert u in pending && IsLeast(t, pending);
      }
      now, pending := t, others;
    }

    /** Nothing is scheduled and the clock is at its start, as before the first run and between runs.
        How much of the random stream is used up does not matter. */
    ghost predicate Idle()
      reads this
    {
      now == 0 && pending == multiset{} && !stopped
    }

    /** Simulator::Destroy, with which a run ends. */
    method Destroy()
      modifies this`now, this`pending, this`stopped
      ensures Idle()
    {
      now, pending, stopped := 0, multiset{}, false;
    }

    /** With any population at all exactly the wanted number of events is counted, in the order of
        their times; the population stays the same until the event that stops the simulation (left is
        how many are then pending), and no more is drawn than one delay for each event that was
        scheduled. The object can be run again. */
    method Run() returns (counts: nat, ghost left: nat)
      requires Idle()
      modifies this
      ensures Idle()
      ensures counts == count == |counted| == if population == 0 then 0 else total
      ensures Ascending(counted)
      ensures draws == old(draws) + population + counts
      ensures left == if population == 0 then 0 else population - 1
    {
      Populate();
      Simulate();
      left := |pending|;
      Destroy();
      return count, left;
    }

    method Populate()
      requires Idle()
      modifies this
      ensures Valid() && |pending| == population && count == 0 && !stopped && counted == []
      ensures draws == old(draws) + population
    {
      count, counted := 0, [];
      for i := 0 to population
        invariant Valid() && |pending| == i && count == 0 && !stopped && counted == []
        invariant draws == old(draws) + i
      {
        Schedule();
      }
    }

    /** Simulator::Run takes events until none is left or it is told to stop. */
    method Simulate()
      requires Valid() && |pending| == population && count == 0 && !stopped
      modifies this
      ensures Valid() && count == if population == 0 then 0 else total
      ensures draws == old(draws) + count
      ensures |pending| == if population == 0 then 0 else population - 1
    {
      while pending != multiset{} && !stopped
        invariant Valid()
        invariant |pending| == if stopped then population - 1 else population
        invariant draws == old(draws) + count
        invariant population == 0 ==> count == 0
        invariant stopped ==> count == total && population > 0
        decreases !stopped, total - count
      {
        TakeNext();
        Cb();
      }
    }

    /** The runs of a suite: one to prime, whose result is not kept, then the wanted number. All count
        the same, each on a fresh part of the random stream. */
    method Suite(runs: nat) returns (results: seq<nat>)
      requires Idle()
      modifies this
      ensures Idle() && |results| == runs
      ensures forall i :: 0 <= i < runs ==> results[i] == if population == 0 then 0 else total
      ensures draws == old(draws) + (runs + 1) * (population + if population == 0 then 0 else total)
    {
      ghost var cost := population + if population == 0 then 0 else total;
      var prime, left := Run();
      results := [];
      for i := 0 to runs
        invariant Idle() && |results| == i
        invariant forall k :: 0 <= k < i ==> results[k] == if population == 0 then 0 else total
        invariant draws == old(draws) + (i + 1) * cost
      {
        var counts;
        counts, left := Run();
        results := results + [counts];
      }
    }
  }
}
