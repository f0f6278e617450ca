/** When the walks from several roots, one after another, repeat an entry. */
module ConfigRoots {
  import opened Sequences
  import opened ConfigGraph
  import opened ConfigUnique
  import opened ConfigNames
  import opened ConfigPaths

  lemma JoinedNoDuplicates<T>(a: seq<T>, b: seq<T>)
    ensures NoDuplicates(a + b) <==> NoDuplicates(a) && NoDuplicates(b) && forall x :: x in a ==> x !in b
  {
    var s := a + b;
    if NoDuplicates(s) {
      forall i, j | 0 <= i < j < |a| ensures a[i] != a[j] {
        assert s[i] == a[i] && s[j] == a[j];
      }
      forall i, j | 0 <= i < j < |b| ensures b[i] != b[j] {
        assert s[|a| + i] == b[i] && s[|a| + j] == b[j];
      }
      forall x | x in a ensures x !in b {
        var i :| 0 <= i < |a| && a[i] == x;
        forall j | 0 <= j < |b| ensures b[j] != x {
          assert s[i] == a[i] && s[|a| + j] == b[j];
        }
      }
    }
    if NoDuplicates(a) && NoDuplicates(b) && forall x :: x in a ==> x !in b {
      forall i, j | 0 <= i < j < |s| ensures s[i] != s[j] {
        assert i < |a| ==> s[i] in a;
        assert j >= |a| ==> s[j] == b[j - |a|] && s[j] in b;
        assert i >= |a| ==> s[i] == b[i - |a|];
      }
    }
  }

  // ---- Two roots with an entry in common ----

  ghost predicate SharesEntry(g: Graph, r: TypeId, r': TypeId) {
    exists entry :: entry in Gathered(g, [], {}, r) && entry in Gathered(g, [], {}, r')
  }

  /** Equal edges out of two different types, a reached from r and b from r' by simple paths with equal
      steps that avoid the edges' target. */
  ghost predicate MeetsAt(g: Graph, r: TypeId, r': TypeId, p: seq<nat>, q: seq<nat>, j: nat, k: nat) {
    && IsSimplePath(g, r, p) && IsSimplePath(g, r', q) && Labels(g, r, p) == Labels(g, r', q)
    && var a, b := End(g, r, p), End(g, r', q);
      && a != b && j < |Edges(g, a)| && k < |Edges(g, b)| && Edges(g, a)[j] == Edges(g, b)[k]
      && Edges(g, a)[j].target !in Visited(g, r, p) && Edges(g, a)[j].target !in Visited(g, r', q)
  }

  ghost predicate Meet(g: Graph, r: TypeId, r': TypeId) {
    exists p, q, j: nat, k: nat :: MeetsAt(g, r, r', p, q, j, k)
  }

  lemma {:induction false} WalkFront(g: Graph, tid: TypeId, p: seq<nat>)
    requires IsWalk(g, tid, p) && p != []
    ensures var front, last := p[..|p| - 1], p[|p| - 1];
      IsWalk(g, tid, front) && last < |Edges(g, End(g, tid, front))|
    decreases |p|
  {
    if |p| == 1 {
      assert p[..0] == [];
    } else {
      WalkFront(g, Edges(g, tid)[p[0]].target, p[1..]);
      assert p[..|p| - 1][1..] == p[1..][..|p| - 2];
    }
  }

  lemma SimpleFront(g: Graph, tid: TypeId, p: seq<nat>)
    requires IsSimplePath(g, tid, p) && p != []
    ensures var front, last := p[..|p| - 1], p[|p| - 1];
      && IsSimplePath(g, tid, front) && last < |Edges(g, End(g, tid, front))|
      && var e := Edges(g, End(g, tid, front))[last];
        && End(g, tid, p) == e.target && Labels(g, tid, p) == Labels(g, tid, front) + [e.step]
        && e.target !in Visited(g, tid, front)
  {
    var front, last := p[..|p| - 1], p[|p| - 1];
    WalkFront(g, tid, p);
    OneEdgeMore(g, tid, front, last);
    assert p == front + [last];
    var e := Edges(g, End(g, tid, front))[last];
    var before := Visited(g, tid, front);
    var seen := before + [e.target];
    assert Visited(g, tid, p) == seen;
    forall i, j | 0 <= i < j < |before| ensures before[i] != before[j] {
      assert seen[i] == before[i] && seen[j] == before[j];
    }
    forall i | 0 <= i < |before| ensures before[i] != e.target {
      assert seen[i] == before[i] && seen[|before|] == e.target;
    }
  }

  /** Two paths from different roots with equal steps to one type meet somewhere for the first time. */
  lemma {:induction false} WhereTheyMeet(g: Graph, r: TypeId, r': TypeId, p: seq<nat>, q: seq<nat>)
    requires r != r' && IsSimplePath(g, r, p) && IsSimplePath(g, r', q)
    requires |p| == |q| && Labels(g, r, p) == Labels(g, r', q) && End(g, r, p) == End(g, r', q)
    ensures Meet(g, r, r')
    decreases |p|
  {
    if p == [] {
      assert false;
    } else {
      var n := |p| - 1;
      SimpleFront(g, r, p);
      SimpleFront(g, r', q);
      var a, b := End(g, r, p[..n]), End(g, r', q[..n]);
      var xs, ys := Labels(g, r, p[..n]), Labels(g, r', q[..n]);
      SameFront(xs, Edges(g, a)[p[n]].step, ys, Edges(g, b)[q[n]].step);
      if a == b {
        WhereTheyMeet(g, r, r', p[..n], q[..n]);
      } else {
        assert MeetsAt(g, r, r', p[..n], q[..n], p[n], q[n]);
      }
    }
  }

  lemma SameFront(xs: seq<string>, x: string, ys: seq<string>, y: string)
    requires xs + [x] == ys + [y]
    ensures xs == ys && x == y
  {
    assert |xs + [x]| == |ys + [y]|;
    assert xs == (xs + [x])[..|xs|] && ys == (ys + [y])[..|ys|];
    assert x == (xs + [x])[|xs|] && y == (ys + [y])[|ys|];
  }

  lemma RecordedBySimplePath(g: Graph, r: TypeId, entry: Entry) returns (p: seq<nat>)
    requires entry in Gathered(g, [], {}, r)
    ensures IsSimplePath(g, r, p) && End(g, r, p) == entry.0 && JoinPath(Labels(g, r, p)) == entry.1
  {
    GatherExact(g, r, entry);
    p :| IsSimplePath(g, r, p) && End(g, r, p) == entry.0 && JoinPath(Labels(g, r, p)) == entry.1;
  }

  lemma SharedMeansMeet(g: Graph, r: TypeId, r': TypeId)
    requires Spelled(g) && r != r' && SharesEntry(g, r, r')
    ensures Meet(g, r, r')
  {
    var entry :| entry in Gathered(g, [], {}, r) && entry in Gathered(g, [], {}, r');
    var p := RecordedBySimplePath(g, r, entry);
    var q := RecordedBySimplePath(g, r', entry);
    LabelsAreSteps(g, r, p);
    LabelsAreSteps(g, r', q);
    JoinTells(Labels(g, r, p), Labels(g, r', q));
    WhereTheyMeet(g, r, r', p, q);
  }

  /** On any graph, whatever the names, roots whose walks meet share an entry. */
  lemma MeetMeansShared(g: Graph, r: TypeId, r': TypeId)
    requires Meet(g, r, r')
    ensures SharesEntry(g, r, r')
  {
    var p, q, j: nat, k: nat :| MeetsAt(g, r, r', p, q, j, k);
    SimpleEdgeMore(g, r, p, j);
    SimpleEdgeMore(g, r', q, k);
    var e := Edges(g, End(g, r, p))[j];
    var entry := (e.target, JoinPath(Labels(g, r, p) + [e.step]));
    Recorded(g, r, p + [j], entry);
    Recorded(g, r', q + [k], entry);
  }

  lemma Recorded(g: Graph, r: TypeId, p: seq<nat>, entry: Entry)
    requires IsSimplePath(g, r, p) && EntryOf(g, [], r, p) == entry
    ensures entry in Gathered(g, [], {}, r)
  {
    assert [] + Labels(g, r, p) == Labels(g, r, p);
    GatherExact(g, r, entry);
  }

  /** A walk records its root, so no root may be walked from twice. */
  lemma RootIsRecorded(g: Graph, r: TypeId)
    ensures SharesEntry(g, r, r)
  {
    var p: seq<nat> := [];
    assert IsSimplePath(g, r, p);
    Recorded(g, r, p, EntryOf(g, [], r, p));
  }

  // ---- Several roots ----

  /** Neither the same root nor roots whose walks meet. */
  ghost predicate Apart(g: Graph, r: TypeId, r': TypeId) {
    r != r' && !Meet(g, r, r')
  }

  lemma ApartIff(g: Graph, r: TypeId, r': TypeId)
    requires Spelled(g)
    ensures Apart(g, r, r') <==> !SharesEntry(g, r, r')
  {
    if r == r' {
      RootIsRecorded(g, r);
    } else if SharesEntry(g, r, r') {
      SharedMeansMeet(g, r, r');
    }
    if Meet(g, r, r') {
      MeetMeansShared(g, r, r');
    }
  }

  ghost predicate EachFine(g: Graph, roots: seq<TypeId>) {
    forall i :: 0 <= i < |roots| ==> !RedundantInReach(g, roots[i])
  }

  ghost predicate AllApart(g: Graph, roots: seq<TypeId>) {
    forall i, j :: 0 <= i < j < |roots| ==> Apart(g, roots[i], roots[j])
  }

  ghost predicate Records(g: Graph, r: TypeId, entry: Entry) {
    entry in Gathered(g, [], {}, r)
  }

  ghost predicate OneRecords(g: Graph, roots: seq<TypeId>, entry: Entry) {
    exists i :: 0 <= i < |roots| && Records(g, roots[i], entry)
  }

  lemma OneRecordsMore(g: Graph, front: seq<TypeId>, last: TypeId, entry: Entry)
    ensures OneRecords(g, front + [last], entry) <==> OneRecords(g, front, entry) || Records(g, last, entry)
  {
    var roots := front + [last];
    if Records(g, last, entry) {
      assert roots[|front|] == last;
    }
    if i :| 0 <= i < |front| && Records(g, front[i], entry) {
      assert roots[i] == front[i];
    }
    if i :| 0 <= i < |roots| && Records(g, roots[i], entry) {
      assert i < |front| ==> roots[i] == front[i];
    }
  }

  lemma {:induction false} InSomeWalk(g: Graph, roots: seq<TypeId>, entry: Entry)
    ensures entry in GatheredFrom(g, roots) <==> OneRecords(g, roots, entry)
  {
    if roots == [] {
    } else {
      var front, last := roots[..|roots| - 1], roots[|roots| - 1];
      InSomeWalk(g, front, entry);
      OneRecordsMore(g, front, last, entry);
      assert roots == front + [last];
      assert Records(g, last, entry) <==> entry in Gathered(g, [], {}, last);
    }
  }

  lemma FrontAndLastApart(g: Graph, front: seq<TypeId>, last: TypeId)
    requires Spelled(g)
    ensures (forall entry :: entry in GatheredFrom(g, front) ==> entry !in Gathered(g, [], {}, last))
      <==> forall i :: 0 <= i < |front| ==> Apart(g, front[i], last)
  {
    forall i | 0 <= i < |front| ensures Apart(g, front[i], last) <==> !SharesEntry(g, front[i], last) {
      ApartIff(g, front[i], last);
    }
    forall entry ensures entry in GatheredFrom(g, front) <==> OneRecords(g, front, entry) {
      InSomeWalk(g, front, entry);
    }
    if forall i :: 0 <= i < |front| ==> Apart(g, front[i], last) {
      forall entry | entry in GatheredFrom(g, front) ensures entry !in Gathered(g, [], {}, last) {
        var i :| 0 <= i < |front| && Records(g, front[i], entry);
        assert !SharesEntry(g, front[i], last);
      }
    }
    if i :| 0 <= i < |front| && !Apart(g, front[i], last) {
      var entry :| entry in Gathered(g, [], {}, front[i]) && entry in Gathered(g, [], {}, last);
      assert Records(g, front[i], entry);
    }
  }

  lemma OneWalkMore(g: Graph, front: seq<TypeId>, last: TypeId)
    requires ProperlyNamed(g)
    ensures NoDuplicates(GatheredFrom(g, front) + Gathered(g, [], {}, last))
      <==> NoDuplicates(GatheredFrom(g, front)) && !RedundantInReach(g, last)
           && forall i :: 0 <= i < |front| ==> Apart(g, front[i], last)
  {
    NamesTell(g);
    UniqueIffNothingRedundant(g, last);
    JoinedNoDuplicates(GatheredFrom(g, front), Gathered(g, [], {}, last));
    FrontAndLastApart(g, front, last);
  }

  /** Main result on several roots: under the naming rules the whole list is free of repetitions exactly
      when no walk has a redundant aggregation in reach, no root is walked from twice, and no two walks
      meet. */
  lemma {:induction false} RootsUniqueIff(g: Graph, roots: seq<TypeId>)
    requires ProperlyNamed(g)
    ensures NoDuplicates(GatheredFrom(g, roots)) <==> EachFine(g, roots) && AllApart(g, roots)
  {
    if roots == [] {
    } else {
      var front, last := roots[..|roots| - 1], roots[|roots| - 1];
      RootsUniqueIff(g, front);
      OneWalkMore(g, front, last);
      OneRootMore(g, front, last);
      assert roots == front + [last];
    }
  }

  lemma OneRootMore(g: Graph, front: seq<TypeId>, last: TypeId)
    ensures EachFine(g, front + [last]) <==> EachFine(g, front) && !RedundantInReach(g, last)
    ensures AllApart(g, front + [last]) <==> AllApart(g, front) && forall i :: 0 <= i < |front| ==> Apart(g, front[i], last)
  {
    var roots := front + [last];
    assert forall i :: 0 <= i < |front| ==> roots[i] == front[i];
    assert roots[|front|] == last;
  }
}
