/** The rules by which ns-3 names its types and attributes, what they make of doubled edges, and the
    aggregations that a program registers. */
module ConfigNames {
  import opened Sequences
  import opened ConfigGraph
  import opened ConfigUnique
  import opened ConfigPaths

  // ---- A list made piece by piece ----

  /** The pieces that f makes of the items, one after another. */
  ghost function Collect<T, R>(xs: seq<T>, f: T -> seq<R>): seq<R> {
    if xs == [] then [] else f(xs[0]) + Collect(xs[1..], f)
  }

  ghost predicate AtMostOne<T(!new), R>(f: T -> seq<R>) {
    forall x :: |f(x)| <= 1
  }

  /** The item that the element at j comes from. */
  lemma {:induction false} SourceOf<T(!new), R>(xs: seq<T>, f: T -> seq<R>, j: nat) returns (m: nat)
    requires AtMostOne(f) && j < |Collect(xs, f)|
    ensures m < |xs| && f(xs[m]) == [Collect(xs, f)[j]]
  {
    if j < |f(xs[0])| {
      m := 0;
    } else {
      m := SourceOf(xs[1..], f, j - |f(xs[0])|);
      m := m + 1;
    }
  }

  /** Two elements come from two items, in their order. */
  lemma {:induction false} SourcesOf<T(!new), R>(xs: seq<T>, f: T -> seq<R>, j: nat, k: nat) returns (m: nat, n: nat)
    requires AtMostOne(f) && j < k < |Collect(xs, f)|
    ensures m < n < |xs| && f(xs[m]) == [Collect(xs, f)[j]] && f(xs[n]) == [Collect(xs, f)[k]]
  {
    var first := |f(xs[0])|;
    if j < first {
      m := 0;
      n := SourceOf(xs[1..], f, k - first);
      n := n + 1;
    } else {
      m, n := SourcesOf(xs[1..], f, j - first, k - first);
      m, n := m + 1, n + 1;
    }
  }

  lemma {:induction false} PlaceOf<T(!new), R>(xs: seq<T>, f: T -> seq<R>, m: nat, r: R) returns (j: nat)
    requires m < |xs| && f(xs[m]) == [r]
    ensures j < |Collect(xs, f)| && Collect(xs, f)[j] == r
  {
    if m == 0 {
      j := 0;
    } else {
      j := PlaceOf(xs[1..], f, m - 1, r);
      j := j + |f(xs[0])|;
    }
  }

  lemma {:induction false} PlacesOf<T(!new), R>(xs: seq<T>, f: T -> seq<R>, m: nat, n: nat, r: R, r': R)
    returns (j: nat, k: nat)
    requires m < n < |xs| && f(xs[m]) == [r] && f(xs[n]) == [r']
    ensures j < k < |Collect(xs, f)| && Collect(xs, f)[j] == r && Collect(xs, f)[k] == r'
  {
    if m == 0 {
      j := 0;
      k := PlaceOf(xs[1..], f, n - 1, r');
      k := k + 1;
    } else {
      j, k := PlacesOf(xs[1..], f, m - 1, n - 1, r, r');
      j, k := j + |f(xs[0])|, k + |f(xs[0])|;
    }
  }

  // ---- The three kinds of edges ----

  ghost function OfAttribute(registry: Registry): Attribute -> seq<Edge> {
    (a: Attribute) => EdgesOfAttribute(registry, a)
  }

  ghost function OfChild(registry: Registry, tid: TypeId): TypeId -> seq<Edge> {
    (c: TypeId) => if registry.isChildOf(c, tid) then [Edge("$" + registry.nameOf(c), c)] else []
  }

  ghost function OfPair(registry: Registry, tid: TypeId): ((TypeId, TypeId)) -> seq<Edge> {
    (pair: (TypeId, TypeId)) =>
      if pair.0 == tid || pair.1 == tid
      then [Edge("$" + registry.nameOf(Partner(tid, pair)), Partner(tid, pair))] else []
  }

  lemma {:induction false} AttributeEdgesAre(registry: Registry, attributes: seq<Attribute>)
    ensures AttributeEdges(registry, attributes) == Collect(attributes, OfAttribute(registry))
  {
    if attributes == [] {
    } else {
      AttributeEdgesAre(registry, attributes[1..]);
    }
  }

  lemma {:induction false} ChildEdgesAre(registry: Registry, tid: TypeId, candidates: seq<TypeId>)
    ensures ChildEdges(registry, tid, candidates) == Collect(candidates, OfChild(registry, tid))
  {
    if candidates == [] {
    } else {
      ChildEdgesAre(registry, tid, candidates[1..]);
    }
  }

  lemma {:induction false} AggregateEdgesAre(registry: Registry, tid: TypeId, pairs: seq<(TypeId, TypeId)>)
    ensures AggregateEdges(registry, tid, pairs) == Collect(pairs, OfPair(registry, tid))
  {
    if pairs == [] {
    } else {
      AggregateEdgesAre(registry, tid, pairs[1..]);
    }
  }

  ghost function First(g: Graph, t: TypeId): seq<Edge> {
    Collect(g.registry.attributes(t), OfAttribute(g.registry))
  }

  ghost function Second(g: Graph, t: TypeId): seq<Edge> {
    Collect(g.registry.registered, OfChild(g.registry, t))
  }

  ghost function Third(g: Graph, t: TypeId): seq<Edge> {
    Collect(g.aggregates, OfPair(g.registry, t))
  }

  lemma EdgesAre(g: Graph, t: TypeId)
    ensures Edges(g, t) == First(g, t) + Second(g, t) + Third(g, t)
  {
    AttributeEdgesAre(g.registry, g.registry.attributes(t));
    ChildEdgesAre(g.registry, t, g.registry.registered);
    AggregateEdgesAre(g.registry, t, g.aggregates);
  }

  // ---- The rules ----

  /** An attribute's name has no slash, is not the mark of a container and has no dollar in front, and
      no other attribute of the type has it. */
  ghost predicate AttributesNamed(registry: Registry) {
    && (forall t: TypeId, i :: 0 <= i < |registry.attributes(t)| ==>
         IsName(registry.attributes(t)[i].name) && !IsType(registry.attributes(t)[i].name))
    && (forall t: TypeId, i, j :: 0 <= i < j < |registry.attributes(t)| ==>
         registry.attributes(t)[i].name != registry.attributes(t)[j].name)
  }

  predicate IsType(step: string) {
    step != "" && step[0] == '$'
  }

  /** Types are registered once, under different names without slashes, and only they are found. */
  ghost predicate TypesNamed(registry: Registry) {
    && NoDuplicates(registry.registered)
    && (forall t :: t in registry.registered ==> '/' !in registry.nameOf(t))
    && (forall t, u :: t in registry.registered && u in registry.registered && registry.nameOf(t) == registry.nameOf(u)
          ==> t == u)
    && (forall name :: registry.lookUp(name).Found? ==> registry.lookUp(name).tid in registry.registered)
  }

  ghost predicate AllRegistered(g: Graph) {
    forall i :: 0 <= i < |g.aggregates| ==>
      g.aggregates[i].0 in g.registry.registered && g.aggregates[i].1 in g.registry.registered
  }

  ghost predicate ProperlyNamed(g: Graph) {
    AttributesNamed(g.registry) && TypesNamed(g.registry) && AllRegistered(g)
  }

  /** An edge that follows an attribute. */
  ghost predicate FromAttribute(g: Graph, t: TypeId, e: Edge, m: nat) {
    m < |g.registry.attributes(t)| && EdgesOfAttribute(g.registry, g.registry.attributes(t)[m]) == [e]
  }

  /** An edge to a child or to a partner. */
  ghost predicate FromType(g: Graph, e: Edge) {
    e.target in g.registry.registered && e.step == "$" + g.registry.nameOf(e.target)
  }

  /** Aggregation m joins t and u. */
  ghost predicate Joins(g: Graph, m: nat, t: TypeId, u: TypeId) {
    m < |g.aggregates| && (g.aggregates[m].0 == t || g.aggregates[m].1 == t) && Partner(t, g.aggregates[m]) == u
  }

  lemma KindOfChild(g: Graph, t: TypeId, k: nat) returns (m: nat)
    requires k < |Second(g, t)|
    ensures var u := Second(g, t)[k].target;
      && FromType(g, Second(g, t)[k]) && m < |g.registry.registered| && g.registry.registered[m] == u
      && g.registry.isChildOf(u, t)
  {
    m := SourceOf(g.registry.registered, OfChild(g.registry, t), k);
    assert g.registry.registered[m] in g.registry.registered;
  }

  lemma KindOfPartner(g: Graph, t: TypeId, k: nat) returns (m: nat)
    requires AllRegistered(g) && k < |Third(g, t)|
    ensures FromType(g, Third(g, t)[k]) && Joins(g, m, t, Third(g, t)[k].target)
  {
    m := SourceOf(g.aggregates, OfPair(g.registry, t), k);
    var pair := g.aggregates[m];
    assert [Third(g, t)[k]] == OfPair(g.registry, t)(pair) == [TypeEdge(g, Partner(t, pair))];
    assert [Third(g, t)[k]][0] == [TypeEdge(g, Partner(t, pair))][0];
    assert Partner(t, pair) == pair.0 || Partner(t, pair) == pair.1;
  }

  lemma KindOfEdge(g: Graph, t: TypeId, k: nat) returns (m: nat)
    requires AllRegistered(g) && k < |Edges(g, t)|
    ensures if k < |First(g, t)| then FromAttribute(g, t, Edges(g, t)[k], m) else FromType(g, Edges(g, t)[k])
  {
    EdgesAre(g, t);
    var a, b := |First(g, t)|, |Second(g, t)|;
    if k < a {
      m := SourceOf(g.registry.attributes(t), OfAttribute(g.registry), k);
    } else if k < a + b {
      m := KindOfChild(g, t, k - a);
      assert Edges(g, t)[k] == Second(g, t)[k - a];
    } else {
      m := KindOfPartner(g, t, k - a - b);
      assert Edges(g, t)[k] == Third(g, t)[k - a - b];
    }
  }

  lemma NameOfStep(name: string)
    requires '/' !in name
    ensures Name(name) == name && Name(name + "/[i]") == name
  {
    if |name| >= 4 && name[|name| - 4..] == "/[i]" {
      assert name[|name| - 4..][0] == name[|name| - 4];
      assert name[|name| - 4] in name;
    }
    var step := name + "/[i]";
    assert step[|step| - 4..] == "/[i]" && step[..|step| - 4] == name;
  }

  lemma StepOfName(name: string, step: string)
    requires IsName(name) && !IsType(name) && (step == name || step == name + "/[i]")
    ensures Name(step) == name && !IsType(step)
  {
    NameOfStep(name);
    if name == "" {
      assert name + "/[i]" == "/[i]";
    } else {
      assert (name + "/[i]")[0] == name[0];
    }
  }

  lemma AttributeStep(g: Graph, t: TypeId, e: Edge, m: nat)
    requires AttributesNamed(g.registry) && FromAttribute(g, t, e, m)
    ensures Name(e.step) == g.registry.attributes(t)[m].name && IsStep(e.step) && !IsType(e.step)
  {
    var attribute := g.registry.attributes(t)[m];
    var edges := EdgesOfAttribute(g.registry, attribute);
    assert edges[0] == e;
    StepOfName(attribute.name, e.step);
  }

  lemma TypeStep(g: Graph, e: Edge)
    requires TypesNamed(g.registry) && FromType(g, e)
    ensures IsStep(e.step) && IsType(e.step)
  {
    var name := g.registry.nameOf(e.target);
    assert e.step[0] == '$';
    NameOfStep(e.step);
    assert "[i]"[0] == '[';
  }

  lemma SameTypeStep(g: Graph, e: Edge, f: Edge)
    requires TypesNamed(g.registry) && FromType(g, e) && FromType(g, f) && e.step == f.step
    ensures e == f
  {
    assert g.registry.nameOf(e.target) == e.step[1..];
    assert g.registry.nameOf(f.target) == f.step[1..];
  }

  lemma SameAttributeStep(g: Graph, t: TypeId, e: Edge, m: nat, f: Edge, n: nat)
    requires AttributesNamed(g.registry) && FromAttribute(g, t, e, m) && FromAttribute(g, t, f, n) && e.step == f.step
    ensures m == n && e == f
  {
    AttributeStep(g, t, e, m);
    AttributeStep(g, t, f, n);
    assert !(m < n) && !(n < m);
  }

  /** Under the rules, the steps tell the edges. */
  lemma NamesTell(g: Graph)
    requires ProperlyNamed(g)
    ensures Spelled(g) && StepsTell(g)
  {
    forall t: TypeId, k: nat ensures IsSpelled(g, t, k) {
      if k < |Edges(g, t)| {
        var m := KindOfEdge(g, t, k);
        if k < |First(g, t)| {
          AttributeStep(g, t, Edges(g, t)[k], m);
        } else {
          TypeStep(g, Edges(g, t)[k]);
        }
      }
    }
    forall t: TypeId, j: nat, k: nat ensures Tell(g, t, j, k) {
      if j < |Edges(g, t)| && k < |Edges(g, t)| && Edges(g, t)[j].step == Edges(g, t)[k].step {
        EqualSteps(g, t, j, k);
      }
    }
  }

  lemma EqualSteps(g: Graph, t: TypeId, j: nat, k: nat)
    requires ProperlyNamed(g) && j < |Edges(g, t)| && k < |Edges(g, t)| && Edges(g, t)[j].step == Edges(g, t)[k].step
    ensures Edges(g, t)[j] == Edges(g, t)[k]
    ensures j < |First(g, t)| || k < |First(g, t)| ==> j == k
  {
    var e, f := Edges(g, t)[j], Edges(g, t)[k];
    var m := KindOfEdge(g, t, j);
    var n := KindOfEdge(g, t, k);
    if j < |First(g, t)| {
      AttributeStep(g, t, e, m);
    } else {
      TypeStep(g, e);
    }
    if k < |First(g, t)| {
      AttributeStep(g, t, f, n);
    } else {
      TypeStep(g, f);
    }
    if j < |First(g, t)| {
      EdgesAre(g, t);
      SameAttributeStep(g, t, e, m, f, n);
      OneEdgePerAttribute(g, t, j, k);
    } else {
      SameTypeStep(g, e, f);
    }
  }

  lemma OneEdgePerAttribute(g: Graph, t: TypeId, j: nat, k: nat)
    requires AttributesNamed(g.registry) && j < |First(g, t)| && k < |First(g, t)|
    requires First(g, t)[j] == First(g, t)[k]
    ensures j == k
  {
    var attributes, f := g.registry.attributes(t), OfAttribute(g.registry);
    if j != k {
      var m, n := SourcesOf(attributes, f, if j < k then j else k, if j < k then k else j);
      var e := First(g, t)[j];
      SameAttributeStep(g, t, e, m, e, n);
    }
  }

  // ---- What doubles an edge ----

  ghost predicate JoinedTwice(g: Graph, t: TypeId, u: TypeId) {
    exists m: nat, n: nat :: m < n && Joins(g, m, t, u) && Joins(g, n, t, u)
  }

  ghost predicate JoinedToChild(g: Graph, t: TypeId, u: TypeId) {
    u in g.registry.registered && g.registry.isChildOf(u, t) && exists m: nat :: Joins(g, m, t, u)
  }

  function TypeEdge(g: Graph, u: TypeId): Edge {
    Edge("$" + g.registry.nameOf(u), u)
  }

  /** On any graph, an aggregation registered twice doubles an edge. */
  lemma JoinedTwiceDoubles(g: Graph, t: TypeId, u: TypeId)
    requires JoinedTwice(g, t, u)
    ensures IsDoubled(g, t, u)
  {
    var m: nat, n: nat :| m < n && Joins(g, m, t, u) && Joins(g, n, t, u);
    var j, k := PlacesOf(g.aggregates, OfPair(g.registry, t), m, n, TypeEdge(g, u), TypeEdge(g, u));
    EdgesAre(g, t);
    var before := |First(g, t)| + |Second(g, t)|;
    assert AreTwins(g, t, before + j, before + k);
  }

  /** So does an aggregation with a child. */
  lemma JoinedToChildDoubles(g: Graph, t: TypeId, u: TypeId)
    requires JoinedToChild(g, t, u)
    ensures IsDoubled(g, t, u)
  {
    var m: nat :| Joins(g, m, t, u);
    var c :| 0 <= c < |g.registry.registered| && g.registry.registered[c] == u;
    var j := PlaceOf(g.registry.registered, OfChild(g.registry, t), c, TypeEdge(g, u));
    var k := PlaceOf(g.aggregates, OfPair(g.registry, t), m, TypeEdge(g, u));
    EdgesAre(g, t);
    var first, second := |First(g, t)|, |Second(g, t)|;
    assert AreTwins(g, t, first + j, first + second + k);
  }

  lemma TwinPartners(g: Graph, t: TypeId, j: nat, k: nat)
    requires j < k < |Third(g, t)| && Third(g, t)[j] == Third(g, t)[k]
    ensures JoinedTwice(g, t, Third(g, t)[j].target)
  {
    var m, n := SourcesOf(g.aggregates, OfPair(g.registry, t), j, k);
    var u := Third(g, t)[j].target;
    assert Joins(g, m, t, u) && Joins(g, n, t, u);
  }

  lemma ChildAndPartner(g: Graph, t: TypeId, j: nat, k: nat)
    requires AllRegistered(g) && j < |Second(g, t)| && k < |Third(g, t)| && Second(g, t)[j] == Third(g, t)[k]
    ensures JoinedToChild(g, t, Second(g, t)[j].target)
  {
    var c := KindOfChild(g, t, j);
    var m := KindOfPartner(g, t, k);
    assert Joins(g, m, t, Second(g, t)[j].target);
  }

  lemma TwinsCome(g: Graph, t: TypeId, j: nat, k: nat)
    requires ProperlyNamed(g) && AreTwins(g, t, j, k)
    ensures JoinedTwice(g, t, Edges(g, t)[j].target) || JoinedToChild(g, t, Edges(g, t)[j].target)
  {
    EqualSteps(g, t, j, k);
    EdgesAre(g, t);
    var a, b := |First(g, t)|, |Second(g, t)|;
    if j >= a + b {
      TwinPartners(g, t, j - a - b, k - a - b);
    } else if k >= a + b {
      ChildAndPartner(g, t, j - a, k - a - b);
    } else {
      ChildrenAreNoTwins(g, t, j - a, k - a);
    }
  }

  lemma ChildrenAreNoTwins(g: Graph, t: TypeId, j: nat, k: nat)
    requires NoDuplicates(g.registry.registered) && j < k < |Second(g, t)|
    ensures Second(g, t)[j] != Second(g, t)[k]
  {
    var m, n := SourcesOf(g.registry.registered, OfChild(g.registry, t), j, k);
    assert g.registry.registered[m] != g.registry.registered[n];
  }

  /** Under the rules, an edge is doubled exactly by two aggregations of the same types, or by an
      aggregation of a type with its own child. */
  lemma DoubledIff(g: Graph, t: TypeId, u: TypeId)
    requires ProperlyNamed(g)
    ensures IsDoubled(g, t, u) <==> JoinedTwice(g, t, u) || JoinedToChild(g, t, u)
  {
    if IsDoubled(g, t, u) {
      var j: nat, k: nat :| AreTwins(g, t, j, k) && Edges(g, t)[j].target == u;
      TwinsCome(g, t, j, k);
    }
    if JoinedTwice(g, t, u) {
      JoinedTwiceDoubles(g, t, u);
    }
    if JoinedToChild(g, t, u) {
      JoinedToChildDoubles(g, t, u);
    }
  }

  /** Some type is aggregated twice with another, or with its child, and can be reached from the root
      without passing that other type. */
  ghost predicate RedundantInReach(g: Graph, root: TypeId) {
    exists t, u :: (JoinedTwice(g, t, u) || JoinedToChild(g, t, u)) && ReachesWithout(g, root, t, u)
  }

  /** Main result on repetitions: under the naming rules the list of entries is free of them exactly
      when no aggregation in reach of the root is redundant. */
  lemma UniqueIffNothingRedundant(g: Graph, root: TypeId)
    requires ProperlyNamed(g)
    ensures NoDuplicates(Gathered(g, [], {}, root)) <==> !RedundantInReach(g, root)
  {
    NamesTell(g);
    UniqueIffNoDouble(g, root);
    forall t, u ensures IsDoubled(g, t, u) <==> JoinedTwice(g, t, u) || JoinedToChild(g, t, u) {
      DoubledIff(g, t, u);
    }
    if HasDoubleInReach(g, root) {
      var t, u :| IsDoubled(g, t, u) && ReachesWithout(g, root, t, u);
      assert JoinedTwice(g, t, u) || JoinedToChild(g, t, u);
    }
    if RedundantInReach(g, root) {
      var t, u :| (JoinedTwice(g, t, u) || JoinedToChild(g, t, u)) && ReachesWithout(g, root, t, u);
      assert IsDoubled(g, t, u);
    }
  }

  // ---- Registration ----

  lemma {:induction false} KnownPairPlace(registry: Registry, pairs: seq<(string, string)>, i: nat) returns (m: nat)
    requires i < |pairs| && KnownPair(registry, pairs[i]) != []
    ensures m < |KnownPairs(registry, pairs)| && [KnownPairs(registry, pairs)[m]] == KnownPair(registry, pairs[i])
  {
    var front := pairs[..|pairs| - 1];
    if i == |front| {
      m := |KnownPairs(registry, front)|;
    } else {
      m := KnownPairPlace(registry, front, i);
    }
  }

  lemma {:induction false} KnownPairPlaces(registry: Registry, pairs: seq<(string, string)>, i: nat, j: nat)
    returns (m: nat, n: nat)
    requires i < j < |pairs| && pairs[i] == pairs[j] && KnownPair(registry, pairs[i]) != []
    ensures m < n < |KnownPairs(registry, pairs)|
    ensures KnownPairs(registry, pairs)[m] == KnownPairs(registry, pairs)[n] == KnownPair(registry, pairs[i])[0]
  {
    var front := pairs[..|pairs| - 1];
    if j == |front| {
      m := KnownPairPlace(registry, front, i);
      n := |KnownPairs(registry, front)|;
    } else {
      m, n := KnownPairPlaces(registry, front, i, j);
    }
  }

  /** Only registered types are aggregated. */
  lemma {:induction false} KnownPairsRegistered(registry: Registry, pairs: seq<(string, string)>)
    requires TypesNamed(registry)
    ensures AllRegistered(Graph(registry, KnownPairs(registry, pairs)))
  {
    if pairs == [] {
    } else {
      var front, last := pairs[..|pairs| - 1], pairs[|pairs| - 1];
      KnownPairsRegistered(registry, front);
      var g, before := Graph(registry, KnownPairs(registry, pairs)), KnownPairs(registry, front);
      forall i | 0 <= i < |g.aggregates|
        ensures g.aggregates[i].0 in registry.registered && g.aggregates[i].1 in registry.registered
      {
        assert i < |before| ==> g.aggregates[i] == Graph(registry, before).aggregates[i];
      }
    }
  }

  /** What a program registers is all that can repeat an entry. */
  lemma RegistrationUniqueIff(registry: Registry, pairs: seq<(string, string)>, root: TypeId)
    requires AttributesNamed(registry) && TypesNamed(registry)
    ensures var g := Graph(registry, KnownPairs(registry, pairs));
      NoDuplicates(Gathered(g, [], {}, root)) <==> !RedundantInReach(g, root)
  {
    KnownPairsRegistered(registry, pairs);
    UniqueIffNothingRedundant(Graph(registry, KnownPairs(registry, pairs)), root);
  }

  /** Any two known types that are registered as aggregated twice repeat an entry in every walk that
      reaches one of them without passing the other. */
  lemma RegisteredTwiceRepeats(registry: Registry, pairs: seq<(string, string)>, i: nat, j: nat, root: TypeId)
    requires i < j < |pairs| && pairs[i] == pairs[j]
    requires registry.lookUp(pairs[i].0).Found? && registry.lookUp(pairs[i].1).Found?
    requires var g := Graph(registry, KnownPairs(registry, pairs));
      var t, u := registry.lookUp(pairs[i].0).tid, registry.lookUp(pairs[i].1).tid;
      ReachesWithout(g, root, t, u) || ReachesWithout(g, root, u, t)
    ensures !NoDuplicates(Gathered(Graph(registry, KnownPairs(registry, pairs)), [], {}, root))
  {
    var g := Graph(registry, KnownPairs(registry, pairs));
    var t, u := registry.lookUp(pairs[i].0).tid, registry.lookUp(pairs[i].1).tid;
    var m, n := KnownPairPlaces(registry, pairs, i, j);
    assert g.aggregates[m] == g.aggregates[n] == (t, u);
    assert Joins(g, m, t, u) && Joins(g, n, t, u) && Joins(g, m, u, t) && Joins(g, n, u, t);
    JoinedTwiceDoubles(g, t, u);
    JoinedTwiceDoubles(g, u, t);
    assert HasDoubleInReach(g, root);
    DoubleInReachRepeats(g, root);
  }

  /** A type reaches itself without passing another. */
  lemma ReachesItself(g: Graph, t: TypeId, u: TypeId)
    requires t != u
    ensures ReachesWithout(g, t, t, u)
  {
    var p: seq<nat> := [];
    assert IsWalk(g, t, p) && End(g, t, p) == t && u !in Visited(g, t, p);
  }

  /** The registry of a program with two types. */
  function TwoTypes(nodeName: string, otherName: string): Registry {
    Registry((t: TypeId) => [], (t: TypeId) => if t == 1 then nodeName else otherName,
      (s: string) => if s == nodeName then Found(1) else if s == otherName then Found(2) else NotFound,
      [1, 2], (a: TypeId, b: TypeId) => false, 0)
  }

  /** GetTypicalAggregations registers one aggregation twice; with just these two types known, the walk
      from the node then repeats an entry. */
  lemma RepeatedAggregationRepeatsEntry(nodeName: string, otherName: string)
    requires nodeName != otherName
    ensures var pair := (nodeName, otherName);
      var registry := TwoTypes(nodeName, otherName);
      && KnownPairs(registry, [pair, pair]) == [(1, 2), (1, 2)]
      && !NoDuplicates(Gathered(Graph(registry, KnownPairs(registry, [pair, pair])), [], {}, 1))
  {
    var pair, registry := (nodeName, otherName), TwoTypes(nodeName, otherName);
    var pairs := [pair, pair];
    assert pairs[..1] == [pair] && [pair][..0] == [];
    assert KnownPairs(registry, [pair]) == KnownPairs(registry, []) + [(1, 2)];
    ReachesItself(Graph(registry, KnownPairs(registry, pairs)), 1, 2);
    RegisteredTwiceRepeats(registry, pairs, 0, 1, 1);
  }

  lemma TwoTypesAreNamed(nodeName: string, otherName: string)
    requires nodeName != otherName && '/' !in nodeName && '/' !in otherName
    ensures AttributesNamed(TwoTypes(nodeName, otherName)) && TypesNamed(TwoTypes(nodeName, otherName))
  {
    var registered: seq<TypeId> := [1, 2];
    assert registered[0] in registered && registered[1] in registered;
  }
}
