/** What the edges out of a type are, in terms of its attributes, its children and its aggregations, and
    which paths they give. */
module ConfigEdges {
  import opened ConfigGraph
  import opened ConfigUnique
  import opened ConfigNames
  import opened ConfigPaths

  // ---- The four ways to get from a type to another ----

  /** Attribute i of t is a container of u, and the edge carries the mark of a container. */
  ghost predicate ByContainer(g: Graph, t: TypeId, i: nat, e: Edge) {
    && i < |g.registry.attributes(t)| && g.registry.attributes(t)[i].checker == ContainerOf(e.target)
    && e.step == g.registry.attributes(t)[i].name + "/[i]"
  }

  /** Attribute i of t is a pointer, but not to the base class. */
  ghost predicate ByPointer(g: Graph, t: TypeId, i: nat, e: Edge) {
    && i < |g.registry.attributes(t)| && g.registry.attributes(t)[i].checker == PointerTo(e.target)
    && e.target != g.registry.objectType
    && e.step == g.registry.attributes(t)[i].name
  }

  /** Registered type i is a child of t. */
  ghost predicate ByChild(g: Graph, t: TypeId, i: nat, e: Edge) {
    && i < |g.registry.registered| && g.registry.registered[i] == e.target
    && g.registry.isChildOf(e.target, t)
    && e.step == "$" + g.registry.nameOf(e.target)
  }

  /** Aggregation i joins t with another type, whichever of the two comes first. */
  ghost predicate ByAggregation(g: Graph, t: TypeId, i: nat, e: Edge) {
    && i < |g.aggregates| && (g.aggregates[i] == (t, e.target) || g.aggregates[i] == (e.target, t))
    && e.step == "$" + g.registry.nameOf(e.target)
  }

  lemma AttributeInFirst(g: Graph, t: TypeId, i: nat, e: Edge)
    requires ByContainer(g, t, i, e) || ByPointer(g, t, i, e)
    ensures OfAttribute(g.registry)(g.registry.attributes(t)[i]) == [e]
  {
  }

  lemma AggregationInThird(g: Graph, t: TypeId, i: nat, e: Edge)
    requires ByAggregation(g, t, i, e)
    ensures OfPair(g.registry, t)(g.aggregates[i]) == [e]
  {
    var pair := g.aggregates[i];
    assert Partner(t, pair) == e.target;
    assert e == Edge("$" + g.registry.nameOf(e.target), e.target);
  }

  lemma FirstComes(g: Graph, t: TypeId, k: nat) returns (i: nat)
    requires k < |First(g, t)|
    ensures ByContainer(g, t, i, First(g, t)[k]) || ByPointer(g, t, i, First(g, t)[k])
  {
    i := SourceOf(g.registry.attributes(t), OfAttribute(g.registry), k);
    var attribute := g.registry.attributes(t)[i];
    var edges := EdgesOfAttribute(g.registry, attribute);
    assert edges == [First(g, t)[k]] && edges[0] == First(g, t)[k];
  }

  lemma ThirdComes(g: Graph, t: TypeId, k: nat) returns (i: nat)
    requires k < |Third(g, t)|
    ensures ByAggregation(g, t, i, Third(g, t)[k])
  {
    i := SourceOf(g.aggregates, OfPair(g.registry, t), k);
    var pair := g.aggregates[i];
    var edges := OfPair(g.registry, t)(pair);
    assert edges == [Third(g, t)[k]] && edges[0] == Third(g, t)[k];
    assert edges == [TypeEdge(g, Partner(t, pair))] && edges[0] == TypeEdge(g, Partner(t, pair));
  }

  lemma SecondComes(g: Graph, t: TypeId, k: nat) returns (i: nat)
    requires k < |Second(g, t)|
    ensures ByChild(g, t, i, Second(g, t)[k])
  {
    i := KindOfChild(g, t, k);
  }

  ghost predicate IsWay(g: Graph, t: TypeId, i: nat, e: Edge) {
    ByContainer(g, t, i, e) || ByPointer(g, t, i, e) || ByChild(g, t, i, e) || ByAggregation(g, t, i, e)
  }

  lemma EdgeComes(g: Graph, t: TypeId, k: nat) returns (i: nat)
    requires k < |Edges(g, t)|
    ensures IsWay(g, t, i, Edges(g, t)[k])
  {
    EdgesAre(g, t);
    var a, b := |First(g, t)|, |Second(g, t)|;
    if k < a {
      i := FirstComes(g, t, k);
      assert Edges(g, t)[k] == First(g, t)[k];
    } else if k < a + b {
      i := SecondComes(g, t, k - a);
      assert Edges(g, t)[k] == Second(g, t)[k - a];
    } else {
      i := ThirdComes(g, t, k - a - b);
      assert Edges(g, t)[k] == Third(g, t)[k - a - b];
    }
  }

  lemma WayIsEdge(g: Graph, t: TypeId, i: nat, e: Edge) returns (k: nat)
    requires IsWay(g, t, i, e)
    ensures k < |Edges(g, t)| && Edges(g, t)[k] == e
    ensures ByContainer(g, t, i, e) || ByPointer(g, t, i, e) ==> k < |First(g, t)|
  {
    EdgesAre(g, t);
    var a, b := |First(g, t)|, |Second(g, t)|;
    if ByContainer(g, t, i, e) || ByPointer(g, t, i, e) {
      AttributeInFirst(g, t, i, e);
      k := PlaceOf(g.registry.attributes(t), OfAttribute(g.registry), i, e);
    } else if ByChild(g, t, i, e) {
      k := PlaceOf(g.registry.registered, OfChild(g.registry, t), i, e);
      k := a + k;
    } else {
      AggregationInThird(g, t, i, e);
      k := PlaceOf(g.aggregates, OfPair(g.registry, t), i, e);
      k := a + b + k;
    }
  }

  /** Main result on edges: there is an edge out of a type exactly for each container and each pointer
      among its attributes, each child and each aggregation, with the step that belongs to it. */
  lemma EdgeIff(g: Graph, t: TypeId, e: Edge)
    ensures e in Edges(g, t) <==> exists i: nat :: IsWay(g, t, i, e)
  {
    if e in Edges(g, t) {
      var k :| 0 <= k < |Edges(g, t)| && Edges(g, t)[k] == e;
      var i := EdgeComes(g, t, k);
    }
    if i: nat :| IsWay(g, t, i, e) {
      var k := WayIsEdge(g, t, i, e);
    }
  }

  /** Attributes come before children and these before aggregations, each kind in its own order. */
  lemma EdgesInOrder(g: Graph, t: TypeId, i: nat, d: Edge, j: nat, e: Edge) returns (k: nat, l: nat)
    requires
      || (i < j && (ByContainer(g, t, i, d) || ByPointer(g, t, i, d)) && (ByContainer(g, t, j, e) || ByPointer(g, t, j, e)))
      || ((ByContainer(g, t, i, d) || ByPointer(g, t, i, d)) && (ByChild(g, t, j, e) || ByAggregation(g, t, j, e)))
      || (i < j && ByChild(g, t, i, d) && ByChild(g, t, j, e))
      || (ByChild(g, t, i, d) && ByAggregation(g, t, j, e))
      || (i < j && ByAggregation(g, t, i, d) && ByAggregation(g, t, j, e))
    ensures k < l < |Edges(g, t)| && Edges(g, t)[k] == d && Edges(g, t)[l] == e
  {
    EdgesAre(g, t);
    var a, b := |First(g, t)|, |Second(g, t)|;
    if i < j && (ByContainer(g, t, i, d) || ByPointer(g, t, i, d)) && (ByContainer(g, t, j, e) || ByPointer(g, t, j, e)) {
      AttributeInFirst(g, t, i, d);
      AttributeInFirst(g, t, j, e);
      k, l := PlacesOf(g.registry.attributes(t), OfAttribute(g.registry), i, j, d, e);
    } else if i < j && ByChild(g, t, i, d) && ByChild(g, t, j, e) {
      k, l := PlacesOf(g.registry.registered, OfChild(g.registry, t), i, j, d, e);
      k, l := a + k, a + l;
    } else if i < j && ByAggregation(g, t, i, d) && ByAggregation(g, t, j, e) {
      AggregationInThird(g, t, i, d);
      AggregationInThird(g, t, j, e);
      k, l := PlacesOf(g.aggregates, OfPair(g.registry, t), i, j, d, e);
      k, l := a + b + k, a + b + l;
    } else {
      k, l := AcrossKinds(g, t, i, d, j, e);
    }
  }

  lemma AcrossKinds(g: Graph, t: TypeId, i: nat, d: Edge, j: nat, e: Edge) returns (k: nat, l: nat)
    requires
      || ((ByContainer(g, t, i, d) || ByPointer(g, t, i, d)) && (ByChild(g, t, j, e) || ByAggregation(g, t, j, e)))
      || (ByChild(g, t, i, d) && ByAggregation(g, t, j, e))
    ensures k < l < |Edges(g, t)| && Edges(g, t)[k] == d && Edges(g, t)[l] == e
  {
    EdgesAre(g, t);
    var a, b := |First(g, t)|, |Second(g, t)|;
    if ByChild(g, t, j, e) && (ByContainer(g, t, i, d) || ByPointer(g, t, i, d)) {
      l := PlaceOf(g.registry.registered, OfChild(g.registry, t), j, e);
      l := a + l;
    } else {
      AggregationInThird(g, t, j, e);
      l := PlaceOf(g.aggregates, OfPair(g.registry, t), j, e);
      l := a + b + l;
    }
    if ByContainer(g, t, i, d) || ByPointer(g, t, i, d) {
      AttributeInFirst(g, t, i, d);
      k := PlaceOf(g.registry.attributes(t), OfAttribute(g.registry), i, d);
    } else {
      k := PlaceOf(g.registry.registered, OfChild(g.registry, t), i, d);
      k := a + k;
    }
  }

  // ---- Paths ----

  /** A path to a type goes on along each of its edges to a type that is not on it. */
  lemma PathGoesOn(g: Graph, root: TypeId, p: seq<nat>, s: string, i: nat, e: Edge)
    requires IsSimplePath(g, root, p) && JoinPath(Labels(g, root, p)) == s
    requires IsWay(g, End(g, root, p), i, e) && e.target !in Visited(g, root, p)
    ensures IsConfigPath(g, root, e.target, s + "/" + e.step)
  {
    var k := WayIsEdge(g, End(g, root, p), i, e);
    SimpleEdgeMore(g, root, p, k);
    OneEdgeMore(g, root, p, k);
    JoinPathAppend(Labels(g, root, p), e.step);
  }

  /** The root has the empty path. */
  lemma RootPath(g: Graph, root: TypeId)
    ensures IsSimplePath(g, root, []) && JoinPath(Labels(g, root, [])) == "" && IsConfigPath(g, root, root, "")
  {
    var p: seq<nat> := [];
    assert IsSimplePath(g, root, p) && End(g, root, p) == root && JoinPath(Labels(g, root, p)) == "";
  }

  /** A container of another type is reported with its mark, a pointer without, a child or a partner
      under its name. */
  lemma PathsOfOneStep(g: Graph, t: TypeId, i: nat, e: Edge)
    requires IsWay(g, t, i, e) && e.target != t
    ensures IsConfigPath(g, t, e.target, "/" + e.step)
  {
    RootPath(g, t);
    PathGoesOn(g, t, [], "", i, e);
    assert "" + "/" + e.step == "/" + e.step;
  }
}
