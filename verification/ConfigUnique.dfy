/** When the list of configuration paths repeats an entry: what the graph must look like, under the
    rules by which types and attributes are named. */
module ConfigUnique {
  import opened Sequences
  import opened ConfigGraph

  // ---- Reaching one type while avoiding another ----

  /** Some walk from the root, with or without loops, ends in t and never meets u. */
  ghost predicate ReachesWithout(g: Graph, root: TypeId, t: TypeId, u: TypeId) {
    exists p :: IsWalk(g, root, p) && End(g, root, p) == t && u !in Visited(g, root, p)
  }

  lemma {:induction false} VisitedSuffix(g: Graph, tid: TypeId, p: seq<nat>, i: nat)
    requires IsWalk(g, tid, p) && i <= |p|
    ensures |Visited(g, tid, p)| == |p| + 1
    ensures var at := Visited(g, tid, p)[i];
      && IsWalk(g, at, p[i..]) && End(g, at, p[i..]) == End(g, tid, p)
      && Visited(g, at, p[i..]) == Visited(g, tid, p)[i..]
    decreases |p|
  {
    if i == 0 {
      if p != [] {
        VisitedSuffix(g, Edges(g, tid)[p[0]].target, p[1..], 0);
      }
      assert p[0..] == p;
    } else {
      VisitedSuffix(g, Edges(g, tid)[p[0]].target, p[1..], i - 1);
      assert p[1..][i - 1..] == p[i..];
    }
  }

  lemma SuffixIsSimple(g: Graph, tid: TypeId, p: seq<nat>, i: nat)
    requires IsSimplePath(g, tid, p) && i <= |p|
    ensures |Visited(g, tid, p)| == |p| + 1
    ensures var at := Visited(g, tid, p)[i];
      && IsSimplePath(g, at, p[i..]) && End(g, at, p[i..]) == End(g, tid, p)
      && forall t :: t in Visited(g, at, p[i..]) ==> t in Visited(g, tid, p)
  {
    VisitedSuffix(g, tid, p, i);
    var seen := Visited(g, tid, p);
    assert forall t :: t in seen[i..] ==> t in seen;
  }

  lemma PrependIsSimple(g: Graph, tid: TypeId, k: nat, rest: seq<nat>)
    requires k < |Edges(g, tid)| && IsSimplePath(g, Edges(g, tid)[k].target, rest)
    requires tid !in Visited(g, Edges(g, tid)[k].target, rest)
    ensures IsSimplePath(g, tid, [k] + rest) && End(g, tid, [k] + rest) == End(g, Edges(g, tid)[k].target, rest)
    ensures Visited(g, tid, [k] + rest) == [tid] + Visited(g, Edges(g, tid)[k].target, rest)
  {
    FreshPathStep(g, {}, tid, k, rest);
    assert IsFreshPath(g, {tid}, Edges(g, tid)[k].target, rest);
    assert ([k] + rest)[1..] == rest;
  }

  /** Leaving out the loops makes a walk simple. */
  lemma {:induction false} WithoutLoops(g: Graph, tid: TypeId, p: seq<nat>) returns (q: seq<nat>)
    requires IsWalk(g, tid, p)
    ensures IsSimplePath(g, tid, q) && End(g, tid, q) == End(g, tid, p)
    ensures forall t :: t in Visited(g, tid, q) ==> t in Visited(g, tid, p)
    decreases |p|
  {
    if p == [] {
      q := [];
    } else {
      var next := Edges(g, tid)[p[0]].target;
      var rest := WithoutLoops(g, next, p[1..]);
      var seen := Visited(g, next, rest);
      assert Visited(g, tid, p) == [tid] + Visited(g, next, p[1..]);
      if tid in seen {
        var i :| 0 <= i < |seen| && seen[i] == tid;
        SuffixIsSimple(g, next, rest, 0);
        SuffixIsSimple(g, next, rest, i);
        q := rest[i..];
      } else {
        PrependIsSimple(g, tid, p[0], rest);
        q := [p[0]] + rest;
      }
    }
  }

  lemma SimplyReaches(g: Graph, root: TypeId, t: TypeId, u: TypeId) returns (p: seq<nat>)
    requires ReachesWithout(g, root, t, u)
    ensures IsSimplePath(g, root, p) && End(g, root, p) == t && u !in Visited(g, root, p)
  {
    var walk :| IsWalk(g, root, walk) && End(g, root, walk) == t && u !in Visited(g, root, walk);
    p := WithoutLoops(g, root, walk);
  }

  // ---- Doubled edges ----

  ghost predicate AreTwins(g: Graph, t: TypeId, j: nat, k: nat) {
    j < k < |Edges(g, t)| && Edges(g, t)[j] == Edges(g, t)[k]
  }

  /** Two equal edges lead from t to u. */
  ghost predicate IsDoubled(g: Graph, t: TypeId, u: TypeId) {
    exists j: nat, k: nat :: AreTwins(g, t, j, k) && Edges(g, t)[j].target == u
  }

  /** A doubled edge that can be reached from the root without passing its target. */
  ghost predicate HasDoubleInReach(g: Graph, root: TypeId) {
    exists t, u :: IsDoubled(g, t, u) && ReachesWithout(g, root, t, u)
  }

  lemma {:induction false} OneEdgeMore(g: Graph, tid: TypeId, p: seq<nat>, k: nat)
    requires IsWalk(g, tid, p) && k < |Edges(g, End(g, tid, p))|
    ensures var e := Edges(g, End(g, tid, p))[k];
      && IsWalk(g, tid, p + [k]) && End(g, tid, p + [k]) == e.target
      && Visited(g, tid, p + [k]) == Visited(g, tid, p) + [e.target]
      && Labels(g, tid, p + [k]) == Labels(g, tid, p) + [e.step]
    decreases |p|
  {
    if p == [] {
      assert p + [k] == [k] && [k][1..] == [];
    } else {
      OneEdgeMore(g, Edges(g, tid)[p[0]].target, p[1..], k);
      assert (p + [k])[1..] == p[1..] + [k];
    }
  }

  lemma SimpleEdgeMore(g: Graph, root: TypeId, p: seq<nat>, k: nat)
    requires IsSimplePath(g, root, p) && k < |Edges(g, End(g, root, p))|
    requires Edges(g, End(g, root, p))[k].target !in Visited(g, root, p)
    ensures var e := Edges(g, End(g, root, p))[k];
      && IsSimplePath(g, root, p + [k])
      && EntryOf(g, [], root, p + [k]) == (e.target, JoinPath(Labels(g, root, p) + [e.step]))
  {
    var e := Edges(g, End(g, root, p))[k];
    OneEdgeMore(g, root, p, k);
    var labels := Labels(g, root, p) + [e.step];
    assert [] + labels == labels;
    var before := Visited(g, root, p);
    assert forall i :: 0 <= i < |before| ==> before[i] in before;
  }

  lemma TwinsRepeat(g: Graph, root: TypeId, p: seq<nat>, j: nat, k: nat)
    requires IsSimplePath(g, root, p) && AreTwins(g, End(g, root, p), j, k)
    requires Edges(g, End(g, root, p))[j].target !in Visited(g, root, p)
    ensures !SpellApart(g, root, p + [j], p + [k])
  {
    SimpleEdgeMore(g, root, p, j);
    SimpleEdgeMore(g, root, p, k);
    assert (p + [j])[|p|] != (p + [k])[|p|];
  }

  /** On any graph, whatever the names: a doubled edge in reach makes the list repeat an entry. */
  lemma DoubleInReachRepeats(g: Graph, root: TypeId)
    requires HasDoubleInReach(g, root)
    ensures !NoDuplicates(Gathered(g, [], {}, root))
  {
    var t, u :| IsDoubled(g, t, u) && ReachesWithout(g, root, t, u);
    var j: nat, k: nat :| AreTwins(g, t, j, k) && Edges(g, t)[j].target == u;
    var p := SimplyReaches(g, root, t, u);
    TwinsRepeat(g, root, p, j, k);
    UniqueIffPathsSpellDifferently(g, root);
  }

  // ---- Names that can be told apart in a path ----

  ghost predicate IsName(s: string) {
    '/' !in s && s != "[i]"
  }

  function Name(step: string): string {
    if |step| >= 4 && step[|step| - 4..] == "/[i]" then step[..|step| - 4] else step
  }

  function Suffix(step: string): string {
    if |step| >= 4 && step[|step| - 4..] == "/[i]" then "/[i]" else ""
  }

  /** A step is a name, or a name followed by the mark of a container. */
  ghost predicate IsStep(step: string) {
    IsName(Name(step))
  }

  ghost predicate AllSteps(steps: seq<string>) {
    forall i :: 0 <= i < |steps| ==> IsStep(steps[i])
  }

  lemma StepParts(step: string)
    ensures step == Name(step) + Suffix(step)
  {
  }

  /** What can follow a name in a path. */
  ghost predicate IsRest(s: string) {
    s == "" || s[0] == '/'
  }

  lemma UpToSlash(a: string, r: string, b: string, r': string)
    requires '/' !in a && '/' !in b && IsRest(r) && IsRest(r') && a + r == b + r'
    ensures a == b && r == r'
  {
    SlashNotBefore(a, r, b, r');
    SlashNotBefore(b, r', a, r);
    var s := a + r;
    assert a == s[..|a|] && b == s[..|b|] && r == s[|a|..] && r' == s[|b|..];
  }

  lemma SlashNotBefore(a: string, r: string, b: string, r': string)
    requires '/' !in b && IsRest(r) && a + r == b + r'
    ensures |b| <= |a|
  {
    var s := b + r';
    forall i | 0 <= i < |b| ensures s[i] != '/' {
      assert s[i] == b[i];
      assert b[i] in b;
    }
    if r != "" {
      assert s[|a|] == r[0];
    }
  }

  /** The path of a non-empty list of steps: a slash, the first name, and a rest. */
  function After(steps: seq<string>): string
    requires steps != []
  {
    Suffix(steps[0]) + JoinPath(steps[1..])
  }

  lemma JoinParts(steps: seq<string>)
    requires steps != []
    ensures JoinPath(steps) == "/" + (Name(steps[0]) + After(steps)) && IsRest(After(steps))
  {
    StepParts(steps[0]);
    var name, suffix, rest := Name(steps[0]), Suffix(steps[0]), JoinPath(steps[1..]);
    assert "/" + (name + suffix) + rest == "/" + (name + (suffix + rest));
    if suffix == "" {
      assert suffix + rest == rest;
    }
  }

  lemma MarkIsName(rest: string, name: string, r: string)
    requires '/' !in name && IsRest(rest) && IsRest(r)
    requires "/[i]" + rest == "/" + (name + r)
    ensures name == "[i]"
  {
    assert "/[i]" + rest == "/" + ("[i]" + rest);
    AfterSlash("[i]" + rest, name + r);
    UpToSlash("[i]", rest, name, r);
  }

  /** The mark of a container is not the start of a path. */
  lemma MarkIsNoStep(xs: seq<string>, ys: seq<string>)
    requires AllSteps(ys)
    ensures "/[i]" + JoinPath(xs) != JoinPath(ys)
  {
    var rest := JoinPath(xs);
    assert IsRest(rest);
    if ys != [] && "/[i]" + rest == JoinPath(ys) {
      JoinParts(ys);
      assert IsStep(ys[0]);
      MarkIsName(rest, Name(ys[0]), After(ys));
    }
  }

  /** A path tells its steps. */
  lemma {:induction false} JoinTells(xs: seq<string>, ys: seq<string>)
    requires AllSteps(xs) && AllSteps(ys) && JoinPath(xs) == JoinPath(ys)
    ensures xs == ys
    decreases |xs|
  {
    if xs == [] || ys == [] {
    } else {
      JoinParts(xs);
      JoinParts(ys);
      assert IsStep(xs[0]) && IsStep(ys[0]);
      AfterSlash(Name(xs[0]) + After(xs), Name(ys[0]) + After(ys));
      UpToSlash(Name(xs[0]), After(xs), Name(ys[0]), After(ys));
      SameSuffix(xs, ys);
      assert AllSteps(xs[1..]) && AllSteps(ys[1..]);
      JoinTells(xs[1..], ys[1..]);
      StepParts(xs[0]);
      StepParts(ys[0]);
      assert xs == [xs[0]] + xs[1..] && ys == [ys[0]] + ys[1..];
    }
  }

  lemma AfterSlash(s: string, t: string)
    requires "/" + s == "/" + t
    ensures s == t
  {
    assert s == ("/" + s)[1..] && t == ("/" + t)[1..];
  }

  lemma SameSuffix(xs: seq<string>, ys: seq<string>)
    requires xs != [] && ys != [] && AllSteps(xs) && AllSteps(ys) && After(xs) == After(ys)
    ensures Suffix(xs[0]) == Suffix(ys[0]) && JoinPath(xs[1..]) == JoinPath(ys[1..])
  {
    var x, y := JoinPath(xs[1..]), JoinPath(ys[1..]);
    assert AllSteps(xs[1..]) && AllSteps(ys[1..]);
    assert "" + x == x && "" + y == y;
    if Suffix(xs[0]) == Suffix(ys[0]) {
      var n := |Suffix(xs[0])|;
      assert x == After(xs)[n..] && y == After(ys)[n..];
    } else if Suffix(xs[0]) == "" {
      MarkIsNoStep(ys[1..], xs[1..]);
    } else {
      MarkIsNoStep(xs[1..], ys[1..]);
    }
  }

  // ---- What the names of a graph tell ----

  ghost predicate IsSpelled(g: Graph, t: TypeId, k: nat) {
    k < |Edges(g, t)| ==> IsStep(Edges(g, t)[k].step)
  }

  ghost predicate Spelled(g: Graph) {
    forall t: TypeId, k: nat :: IsSpelled(g, t, k)
  }

  ghost predicate Tell(g: Graph, t: TypeId, j: nat, k: nat) {
    j < |Edges(g, t)| && k < |Edges(g, t)| && Edges(g, t)[j].step == Edges(g, t)[k].step ==>
      Edges(g, t)[j] == Edges(g, t)[k]
  }

  /** Equal steps out of a type lead to the same type. */
  ghost predicate StepsTell(g: Graph) {
    forall t: TypeId, j: nat, k: nat :: Tell(g, t, j, k)
  }

  lemma {:induction false} LabelsAreSteps(g: Graph, tid: TypeId, p: seq<nat>)
    requires Spelled(g) && IsWalk(g, tid, p)
    ensures AllSteps(Labels(g, tid, p)) && |Labels(g, tid, p)| == |p|
    decreases |p|
  {
    if p == [] {
    } else {
      var e := Edges(g, tid)[p[0]];
      LabelsAreSteps(g, e.target, p[1..]);
      assert IsSpelled(g, tid, p[0]);
      var rest := Labels(g, e.target, p[1..]);
      assert Labels(g, tid, p) == [e.step] + rest;
    }
  }

  /** Two different simple paths with the same labels part where two equal edges start. */
  lemma {:induction false} WhereTheyPart(g: Graph, tid: TypeId, p: seq<nat>, q: seq<nat>) returns (i: nat)
    requires StepsTell(g) && IsSimplePath(g, tid, p) && IsWalk(g, tid, q)
    requires |p| == |q| && Labels(g, tid, p) == Labels(g, tid, q) && p != q
    ensures i < |p| && IsWalk(g, tid, p[..i]) && p[i] != q[i]
    ensures var t := End(g, tid, p[..i]);
      && p[i] < |Edges(g, t)| && q[i] < |Edges(g, t)| && Edges(g, t)[p[i]] == Edges(g, t)[q[i]]
      && Edges(g, t)[p[i]].target in Visited(g, tid, p)
      && Edges(g, t)[p[i]].target !in Visited(g, tid, p[..i])
    decreases |p|
  {
    var e, f := Edges(g, tid)[p[0]], Edges(g, tid)[q[0]];
    var seen := Visited(g, tid, p);
    assert Labels(g, tid, p)[0] == e.step && Labels(g, tid, q)[0] == f.step;
    assert Tell(g, tid, p[0], q[0]);
    FirstIsNew(g, tid, p);
    if p[0] != q[0] {
      i := 0;
      assert p[..0] == [];
    } else {
      assert p == [p[0]] + p[1..] && q == [q[0]] + q[1..];
      assert Labels(g, tid, p)[1..] == Labels(g, e.target, p[1..]);
      assert Labels(g, tid, q)[1..] == Labels(g, e.target, q[1..]);
      var m := WhereTheyPart(g, e.target, p[1..], q[1..]);
      i := m + 1;
      assert p[..i][1..] == p[1..][..m];
      assert Visited(g, tid, p[..i]) == [tid] + Visited(g, e.target, p[1..][..m]);
    }
  }

  lemma FirstIsNew(g: Graph, tid: TypeId, p: seq<nat>)
    requires IsSimplePath(g, tid, p) && p != []
    ensures var next := Edges(g, tid)[p[0]].target;
      && IsSimplePath(g, next, p[1..]) && tid !in Visited(g, next, p[1..]) && next in Visited(g, next, p[1..])
      && Visited(g, tid, p) == [tid] + Visited(g, next, p[1..])
  {
    var next := Edges(g, tid)[p[0]].target;
    assert p == [p[0]] + p[1..];
    assert IsFreshPath(g, {}, tid, p);
    FreshPathStep(g, {}, tid, p[0], p[1..]);
    assert Visited(g, next, p[1..])[0] == next;
  }

  lemma SameLabels(g: Graph, root: TypeId, p: seq<nat>, q: seq<nat>)
    requires Spelled(g) && !SpellApart(g, root, p, q)
    ensures Labels(g, root, p) == Labels(g, root, q) && |p| == |q|
  {
    var xs, ys := Labels(g, root, p), Labels(g, root, q);
    LabelsAreSteps(g, root, p);
    LabelsAreSteps(g, root, q);
    assert [] + xs == xs && [] + ys == ys;
    JoinTells(xs, ys);
  }

  lemma TwoPathsShowDouble(g: Graph, root: TypeId, p: seq<nat>, q: seq<nat>)
    requires Spelled(g) && StepsTell(g) && !SpellApart(g, root, p, q)
    ensures HasDoubleInReach(g, root)
  {
    SameLabels(g, root, p, q);
    var i := WhereTheyPart(g, root, p, q);
    var t := End(g, root, p[..i]);
    var u := Edges(g, t)[p[i]].target;
    if p[i] < q[i] {
      assert AreTwins(g, t, p[i], q[i]);
    } else {
      assert AreTwins(g, t, q[i], p[i]);
    }
    assert IsDoubled(g, t, u) && ReachesWithout(g, root, t, u);
  }

  /** If the names tell, the list is free of repetitions exactly when no doubled edge can be reached
      without passing its target. */
  lemma UniqueIffNoDouble(g: Graph, root: TypeId)
    requires Spelled(g) && StepsTell(g)
    ensures NoDuplicates(Gathered(g, [], {}, root)) <==> !HasDoubleInReach(g, root)
  {
    UniqueIffPathsSpellDifferently(g, root);
    if HasDoubleInReach(g, root) {
      DoubleInReachRepeats(g, root);
    }
    if !NoDuplicates(Gathered(g, [], {}, root)) {
      var p, q :| !SpellApart(g, root, p, q);
      TwoPathsShowDouble(g, root, p, q);
    }
  }
}
