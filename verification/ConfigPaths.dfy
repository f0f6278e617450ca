/** The configuration-path gatherer of utils/print-introspected-doxygen.cc: a depth-first walk over
    the graph of registered types, with the current path and the types on it kept in two stacks.
    ConfigGraph holds the graph, the simple paths in it and what the walk yields. */
module ConfigGraph {
  import opened Sequences

  /** A TypeId is a handle of 16 bits, so there are finitely many. */
  type TypeId = t: nat | t < 0x1_0000

  /** What an attribute's checker says about the attribute's value. */
  datatype Checker = PointerTo(pointee: TypeId) | ContainerOf(item: TypeId) | OtherChecker

  datatype Attribute = Attribute(name: string, checker: Checker)

  datatype LookUp = Found(tid: TypeId) | NotFound

  /** The answers of the ns-3 type registry. Nothing is assumed of them. */
  datatype Registry = Registry(
    attributes: TypeId -> seq<Attribute>,
    nameOf: TypeId -> string,
    lookUp: string -> LookUp,
    registered: seq<TypeId>,
    isChildOf: (TypeId, TypeId) -> bool,
    objectType: TypeId)

  datatype Graph = Graph(registry: Registry, aggregates: seq<(TypeId, TypeId)>)

  datatype Edge = Edge(step: string, target: TypeId)

  type Entry = (TypeId, string)

  ghost predicate IsHandle(t: int) {
    0 <= t < 0x1_0000
  }

  ghost function AllTypes(): set<TypeId> {
    set t: TypeId | 0 <= t < 0x1_0000 && IsHandle(t)
  }

  // ---- The edges out of a type, in the order in which the walk takes them ----

  /** A pointer to the base class Object is not followed. */
  function EdgesOfAttribute(registry: Registry, attribute: Attribute): seq<Edge> {
    match attribute.checker
    case PointerTo(pointee) =>
      if pointee == registry.objectType then [] else [Edge(attribute.name, pointee)]
    case ContainerOf(item) => [Edge(attribute.name + "/[i]", item)]
    case OtherChecker => []
  }

  function AttributeEdges(registry: Registry, attributes: seq<Attribute>): seq<Edge> {
    if attributes == [] then []
    else EdgesOfAttribute(registry, attributes[0]) + AttributeEdges(registry, attributes[1..])
  }

  function ChildEdges(registry: Registry, tid: TypeId, candidates: seq<TypeId>): seq<Edge> {
    if candidates == [] then []
    else
      (if registry.isChildOf(candidates[0], tid)
       then [Edge("$" + registry.nameOf(candidates[0]), candidates[0])] else [])
      + ChildEdges(registry, tid, candidates[1..])
  }

  /** The other end of an aggregation that has tid at one end. */
  function Partner(tid: TypeId, pair: (TypeId, TypeId)): TypeId {
    if pair.1 == tid then pair.0 else pair.1
  }

  function AggregateEdges(registry: Registry, tid: TypeId, pairs: seq<(TypeId, TypeId)>): seq<Edge> {
    if pairs == [] then []
    else
      (if pairs[0].0 == tid || pairs[0].1 == tid
       then var other := Partner(tid, pairs[0]); [Edge("$" + registry.nameOf(other), other)] else [])
      + AggregateEdges(registry, tid, pairs[1..])
  }

  function Edges(g: Graph, tid: TypeId): seq<Edge> {
    AttributeEdges(g.registry, g.registry.attributes(tid))
    + ChildEdges(g.registry, tid, g.registry.registered)
    + AggregateEdges(g.registry, tid, g.aggregates)
  }

  // ---- Simple paths, independently of any traversal ----

  /** p lists edge numbers: p[0] is an edge out of tid, p[1] an edge out of its target, and so on. */
  ghost predicate IsWalk(g: Graph, tid: TypeId, p: seq<nat>)
    decreases |p|
  {
    p == [] || (p[0] < |Edges(g, tid)| && IsWalk(g, Edges(g, tid)[p[0]].target, p[1..]))
  }

  ghost function Visited(g: Graph, tid: TypeId, p: seq<nat>): seq<TypeId>
    requires IsWalk(g, tid, p)
    decreases |p|
  {
    if p == [] then [tid] else [tid] + Visited(g, Edges(g, tid)[p[0]].target, p[1..])
  }

  ghost function Labels(g: Graph, tid: TypeId, p: seq<nat>): seq<string>
    requires IsWalk(g, tid, p)
    decreases |p|
  {
    if p == [] then []
    else [Edges(g, tid)[p[0]].step] + Labels(g, Edges(g, tid)[p[0]].target, p[1..])
  }

  ghost function End(g: Graph, tid: TypeId, p: seq<nat>): TypeId
    requires IsWalk(g, tid, p)
    decreases |p|
  {
    if p == [] then tid else End(g, Edges(g, tid)[p[0]].target, p[1..])
  }

  /** No type occurs twice on the path. */
  ghost predicate IsSimplePath(g: Graph, tid: TypeId, p: seq<nat>) {
    IsWalk(g, tid, p) && NoDuplicates(Visited(g, tid, p))
  }

  function JoinPath(items: seq<string>): string {
    if items == [] then "" else "/" + items[0] + JoinPath(items[1..])
  }

  /** What should be recorded for a path: the type it ends in and its labels, joined. */
  ghost function EntryOf(g: Graph, prefix: seq<string>, tid: TypeId, p: seq<nat>): Entry
    requires IsWalk(g, tid, p)
  {
    (End(g, tid, p), JoinPath(prefix + Labels(g, tid, p)))
  }

  // ---- What the walk yields ----

  /** Entries appended by a walk that stands at tid, below the given path and types. */
  ghost function Gathered(g: Graph, path: seq<string>, onPath: set<TypeId>, tid: TypeId): seq<Entry>
    decreases AllTypes() - onPath, 0, 0
  {
    if tid in onPath then []
    else [(tid, JoinPath(path))] + GatheredAlong(g, path, onPath + {tid}, Edges(g, tid))
  }

  ghost function GatheredAlong(g: Graph, path: seq<string>, onPath: set<TypeId>, edges: seq<Edge>): seq<Entry>
    decreases AllTypes() - onPath, 1, |edges|
  {
    if edges == [] then []
    else Gathered(g, path + [edges[0].step], onPath, edges[0].target)
         + GatheredAlong(g, path, onPath, edges[1..])
  }

  // ---- The walk as an enumeration of paths ----

  ghost function Walks(g: Graph, onPath: set<TypeId>, tid: TypeId): seq<seq<nat>>
    decreases AllTypes() - onPath, 0, 0
  {
    if tid in onPath then [] else [[]] + WalksAlong(g, onPath + {tid}, tid, 0)
  }

  ghost function WalksAlong(g: Graph, onPath: set<TypeId>, tid: TypeId, k: nat): seq<seq<nat>>
    decreases AllTypes() - onPath, 1, |Edges(g, tid)| - k
  {
    if k >= |Edges(g, tid)| then []
    else Prepend(k, Walks(g, onPath, Edges(g, tid)[k].target)) + WalksAlong(g, onPath, tid, k + 1)
  }

  ghost function Prepend(k: nat, walks: seq<seq<nat>>): (r: seq<seq<nat>>)
    ensures |r| == |walks| && forall i :: 0 <= i < |r| ==> r[i] == [k] + walks[i]
  {
    seq(|walks|, i requires 0 <= i < |walks| => [k] + walks[i])
  }

  ghost function Entries(g: Graph, prefix: seq<string>, tid: TypeId, walks: seq<seq<nat>>): (r: seq<Entry>)
    requires forall i :: 0 <= i < |walks| ==> IsWalk(g, tid, walks[i])
    ensures |r| == |walks| && forall i :: 0 <= i < |r| ==> r[i] == EntryOf(g, prefix, tid, walks[i])
  {
    seq(|walks|, i requires 0 <= i < |walks| => EntryOf(g, prefix, tid, walks[i]))
  }

  /** A path that starts at tid, is simple and avoids the types in onPath. */
  ghost predicate IsFreshPath(g: Graph, onPath: set<TypeId>, tid: TypeId, p: seq<nat>) {
    IsSimplePath(g, tid, p) && forall t :: t in Visited(g, tid, p) ==> t !in onPath
  }

  lemma FreshPathStep(g: Graph, onPath: set<TypeId>, tid: TypeId, k: nat, rest: seq<nat>)
    requires tid !in onPath && k < |Edges(g, tid)|
    ensures IsFreshPath(g, onPath, tid, [k] + rest)
      <==> IsFreshPath(g, onPath + {tid}, Edges(g, tid)[k].target, rest)
  {
    var p := [k] + rest;
    var next := Edges(g, tid)[k].target;
    assert p[1..] == rest;
    if IsWalk(g, next, rest) {
      var tail := Visited(g, next, rest);
      assert Visited(g, tid, p) == [tid] + tail;
      if IsFreshPath(g, onPath, tid, p) {
        forall t | t in tail ensures t !in onPath + {tid} {
          var i :| 0 <= i < |tail| && tail[i] == t;
          assert Visited(g, tid, p)[i + 1] == t && Visited(g, tid, p)[0] == tid;
        }
        forall i, j | 0 <= i < j < |tail| ensures tail[i] != tail[j] {
          assert Visited(g, tid, p)[i + 1] != Visited(g, tid, p)[j + 1];
        }
      }
      if IsFreshPath(g, onPath + {tid}, next, rest) {
        assert forall i :: 0 <= i < |tail| ==> tail[i] in tail;
      }
    }
  }

  /** The enumeration holds exactly the simple paths. */
  lemma {:induction false} WalksAreFreshPaths(g: Graph, onPath: set<TypeId>, tid: TypeId, p: seq<nat>)
    ensures p in Walks(g, onPath, tid) <==> IsFreshPath(g, onPath, tid, p)
    decreases AllTypes() - onPath, 0, 0
  {
    if tid in onPath {
      if IsWalk(g, tid, p) {
        assert Visited(g, tid, p)[0] == tid;
      }
    } else {
      WalksAlongAreFreshPaths(g, onPath, tid, 0, p);
      if p == [] {
        assert ([[]] + WalksAlong(g, onPath + {tid}, tid, 0))[0] == p;
      }
    }
  }

  lemma {:induction false} WalksAlongAreFreshPaths(g: Graph, onPath: set<TypeId>, tid: TypeId, k: nat, p: seq<nat>)
    requires tid !in onPath
    ensures p in WalksAlong(g, onPath + {tid}, tid, k) <==> p != [] && p[0] >= k && IsFreshPath(g, onPath, tid, p)
    decreases AllTypes() - (onPath + {tid}), 1, |Edges(g, tid)| - k
  {
    if k >= |Edges(g, tid)| {
    } else {
      WalksAlongAreFreshPaths(g, onPath, tid, k + 1, p);
      var walks := Walks(g, onPath + {tid}, Edges(g, tid)[k].target);
      assert p in Prepend(k, walks) <==> p != [] && p[0] == k && p[1..] in walks by {
        if p != [] && p[0] == k && p[1..] in walks {
          var i :| 0 <= i < |walks| && walks[i] == p[1..];
          assert Prepend(k, walks)[i] == [k] + p[1..] == p;
        }
      }
      if p != [] && p[0] == k {
        assert [k] + p[1..] == p;
        WalksAreFreshPaths(g, onPath + {tid}, Edges(g, tid)[k].target, p[1..]);
        FreshPathStep(g, onPath, tid, k, p[1..]);
      }
    }
  }

  // ---- The order of the enumeration: a path before its extensions, then by edge number ----

  ghost predicate Before(p: seq<nat>, q: seq<nat>) {
    q != [] && (p == [] || p[0] < q[0] || (p[0] == q[0] && Before(p[1..], q[1..])))
  }

  ghost predicate Increasing(walks: seq<seq<nat>>) {
    forall i, j :: 0 <= i < j < |walks| ==> Before(walks[i], walks[j])
  }

  lemma BeforeIsIrreflexive(p: seq<nat>)
    ensures !Before(p, p)
  {
  }

  lemma PrependIncreasing(k: nat, walks: seq<seq<nat>>)
    requires Increasing(walks)
    ensures Increasing(Prepend(k, walks))
  {
    forall i, j | 0 <= i < j < |walks| ensures Before([k] + walks[i], [k] + walks[j]) {
      assert ([k] + walks[i])[1..] == walks[i] && ([k] + walks[j])[1..] == walks[j];
    }
  }

  lemma {:induction false} WalksIncreasing(g: Graph, onPath: set<TypeId>, tid: TypeId)
    ensures Increasing(Walks(g, onPath, tid))
    decreases AllTypes() - onPath, 0, 0
  {
    if tid !in onPath {
      WalksAlongIncreasing(g, onPath + {tid}, tid, 0);
    }
  }

  lemma {:induction false} WalksAlongIncreasing(g: Graph, onPath: set<TypeId>, tid: TypeId, k: nat)
    ensures Increasing(WalksAlong(g, onPath, tid, k))
    ensures forall i :: 0 <= i < |WalksAlong(g, onPath, tid, k)| ==>
      WalksAlong(g, onPath, tid, k)[i] != [] && WalksAlong(g, onPath, tid, k)[i][0] >= k
    decreases AllTypes() - onPath, 1, |Edges(g, tid)| - k
  {
    if k >= |Edges(g, tid)| {
    } else {
      var walks := Walks(g, onPath, Edges(g, tid)[k].target);
      WalksIncreasing(g, onPath, Edges(g, tid)[k].target);
      PrependIncreasing(k, walks);
      WalksAlongIncreasing(g, onPath, tid, k + 1);
    }
  }

  // ---- The walk records the entries of the enumerated paths ----

  lemma AllWalks(g: Graph, onPath: set<TypeId>, tid: TypeId)
    ensures forall i :: 0 <= i < |Walks(g, onPath, tid)| ==> IsWalk(g, tid, Walks(g, onPath, tid)[i])
  {
    forall i | 0 <= i < |Walks(g, onPath, tid)| ensures IsWalk(g, tid, Walks(g, onPath, tid)[i]) {
      WalksAreFreshPaths(g, onPath, tid, Walks(g, onPath, tid)[i]);
    }
  }

  lemma EntryOfPrepend(g: Graph, prefix: seq<string>, tid: TypeId, k: nat, p: seq<nat>)
    requires k < |Edges(g, tid)| && IsWalk(g, Edges(g, tid)[k].target, p)
    ensures IsWalk(g, tid, [k] + p)
    ensures EntryOf(g, prefix, tid, [k] + p)
      == EntryOf(g, prefix + [Edges(g, tid)[k].step], Edges(g, tid)[k].target, p)
  {
    var e := Edges(g, tid)[k];
    assert ([k] + p)[1..] == p;
    assert prefix + Labels(g, tid, [k] + p) == prefix + [e.step] + Labels(g, e.target, p);
  }

  lemma EntriesOfPrepend(g: Graph, path: seq<string>, tid: TypeId, k: nat, walks: seq<seq<nat>>)
    requires k < |Edges(g, tid)|
    requires forall i :: 0 <= i < |walks| ==> IsWalk(g, Edges(g, tid)[k].target, walks[i])
    ensures forall i :: 0 <= i < |walks| ==> IsWalk(g, tid, Prepend(k, walks)[i])
    ensures Entries(g, path, tid, Prepend(k, walks))
      == Entries(g, path + [Edges(g, tid)[k].step], Edges(g, tid)[k].target, walks)
  {
    forall i | 0 <= i < |walks|
      ensures IsWalk(g, tid, Prepend(k, walks)[i])
        && EntryOf(g, path, tid, Prepend(k, walks)[i])
          == EntryOf(g, path + [Edges(g, tid)[k].step], Edges(g, tid)[k].target, walks[i])
    {
      EntryOfPrepend(g, path, tid, k, walks[i]);
    }
  }

  lemma EntriesAppend(g: Graph, path: seq<string>, tid: TypeId, a: seq<seq<nat>>, b: seq<seq<nat>>)
    requires forall i :: 0 <= i < |a| ==> IsWalk(g, tid, a[i])
    requires forall i :: 0 <= i < |b| ==> IsWalk(g, tid, b[i])
    ensures forall i :: 0 <= i < |a + b| ==> IsWalk(g, tid, (a + b)[i])
    ensures Entries(g, path, tid, a + b) == Entries(g, path, tid, a) + Entries(g, path, tid, b)
  {
  }

  lemma {:induction false} GatheredIsEntries(g: Graph, path: seq<string>, onPath: set<TypeId>, tid: TypeId)
    ensures forall i :: 0 <= i < |Walks(g, onPath, tid)| ==> IsWalk(g, tid, Walks(g, onPath, tid)[i])
    ensures Gathered(g, path, onPath, tid) == Entries(g, path, tid, Walks(g, onPath, tid))
    decreases AllTypes() - onPath, 0, 0
  {
    AllWalks(g, onPath, tid);
    if tid !in onPath {
      GatheredAlongIsEntries(g, path, onPath + {tid}, tid, 0);
      assert Edges(g, tid)[0..] == Edges(g, tid);
      assert path + Labels(g, tid, []) == path;
    }
  }

  lemma {:induction false} GatheredAlongIsEntries(g: Graph, path: seq<string>, onPath: set<TypeId>, tid: TypeId, k: nat)
    requires k <= |Edges(g, tid)|
    ensures forall i :: 0 <= i < |WalksAlong(g, onPath, tid, k)| ==> IsWalk(g, tid, WalksAlong(g, onPath, tid, k)[i])
    ensures GatheredAlong(g, path, onPath, Edges(g, tid)[k..]) == Entries(g, path, tid, WalksAlong(g, onPath, tid, k))
    decreases AllTypes() - onPath, 1, |Edges(g, tid)| - k
  {
    if k == |Edges(g, tid)| {
    } else {
      var e := Edges(g, tid)[k];
      assert Edges(g, tid)[k..][0] == e && Edges(g, tid)[k..][1..] == Edges(g, tid)[k + 1..];
      GatheredIsEntries(g, path + [e.step], onPath, e.target);
      GatheredAlongIsEntries(g, path, onPath, tid, k + 1);
      var walks := Walks(g, onPath, e.target);
      EntriesOfPrepend(g, path, tid, k, walks);
      EntriesAppend(g, path, tid, Prepend(k, walks), WalksAlong(g, onPath, tid, k + 1));
    }
  }

  // ---- Main results ----

  /** Some simple path from the root ends in tid and spells s. */
  ghost predicate IsConfigPath(g: Graph, root: TypeId, tid: TypeId, s: string) {
    exists p :: IsSimplePath(g, root, p) && End(g, root, p) == tid && JoinPath(Labels(g, root, p)) == s
  }

  /** From empty stacks the walk records one entry for each simple path from the root, in path
      order, and nothing else. */
  lemma GatherEnumeratesSimplePaths(g: Graph, root: TypeId) returns (paths: seq<seq<nat>>)
    ensures forall p :: p in paths <==> IsSimplePath(g, root, p)
    ensures Increasing(paths) && NoDuplicates(paths)
    ensures |Gathered(g, [], {}, root)| == |paths|
    ensures forall i :: 0 <= i < |paths| ==>
      IsWalk(g, root, paths[i])
      && Gathered(g, [], {}, root)[i] == (End(g, root, paths[i]), JoinPath(Labels(g, root, paths[i])))
  {
    paths := Walks(g, {}, root);
    forall p ensures p in paths <==> IsSimplePath(g, root, p) {
      WalksAreFreshPaths(g, {}, root, p);
    }
    WalksIncreasing(g, {}, root);
    forall p ensures !Before(p, p) {
      BeforeIsIrreflexive(p);
    }
    GatheredIsEntries(g, [], {}, root);
    forall i | 0 <= i < |paths|
      ensures IsWalk(g, root, paths[i])
        && Gathered(g, [], {}, root)[i] == (End(g, root, paths[i]), JoinPath(Labels(g, root, paths[i])))
    {
      assert [] + Labels(g, root, paths[i]) == Labels(g, root, paths[i]);
    }
  }

  /** An entry is recorded if and only if some simple path ends in its type and spells its string. */
  lemma GatherExact(g: Graph, root: TypeId, entry: Entry)
    ensures entry in Gathered(g, [], {}, root)
      <==> IsConfigPath(g, root, entry.0, entry.1)
  {
    var paths := GatherEnumeratesSimplePaths(g, root);
    var out := Gathered(g, [], {}, root);
    if entry in out {
      var i :| 0 <= i < |out| && out[i] == entry;
      assert paths[i] in paths;
    }
    if IsConfigPath(g, root, entry.0, entry.1) {
      var p :| IsSimplePath(g, root, p) && End(g, root, p) == entry.0 && JoinPath(Labels(g, root, p)) == entry.1;
      assert p in paths;
      var i :| 0 <= i < |paths| && paths[i] == p;
      assert out[i] == entry;
    }
  }

  /** The two are no different simple paths, or they end in different types or spell different strings. */
  ghost predicate SpellApart(g: Graph, root: TypeId, p: seq<nat>, q: seq<nat>) {
    IsSimplePath(g, root, p) && IsSimplePath(g, root, q) && p != q ==>
      EntryOf(g, [], root, p) != EntryOf(g, [], root, q)
  }

  lemma EntriesOfPaths(g: Graph, root: TypeId) returns (paths: seq<seq<nat>>)
    ensures |Gathered(g, [], {}, root)| == |paths| && NoDuplicates(paths)
    ensures forall p :: IsSimplePath(g, root, p) ==> p in paths
    ensures forall i :: 0 <= i < |paths| ==>
      IsSimplePath(g, root, paths[i]) && Gathered(g, [], {}, root)[i] == EntryOf(g, [], root, paths[i])
  {
    paths := GatherEnumeratesSimplePaths(g, root);
    forall i | 0 <= i < |paths|
      ensures IsSimplePath(g, root, paths[i]) && Gathered(g, [], {}, root)[i] == EntryOf(g, [], root, paths[i])
    {
      assert paths[i] in paths;
      assert [] + Labels(g, root, paths[i]) == Labels(g, root, paths[i]);
    }
  }

  /** Whether the recorded list is free of repetitions depends on the graph alone: no two simple
      paths may spell the same string and end in the same type. */
  lemma UniqueIffPathsSpellDifferently(g: Graph, root: TypeId)
    ensures NoDuplicates(Gathered(g, [], {}, root)) <==> forall p, q :: SpellApart(g, root, p, q)
  {
    var paths := EntriesOfPaths(g, root);
    var out := Gathered(g, [], {}, root);
    if NoDuplicates(out) {
      forall p, q ensures SpellApart(g, root, p, q) {
        if IsSimplePath(g, root, p) && IsSimplePath(g, root, q) && p != q {
          var i :| 0 <= i < |paths| && paths[i] == p;
          var j :| 0 <= j < |paths| && paths[j] == q;
          assert i < j || j < i;
          assert out[i] != out[j];
        }
      }
    }
    if forall p, q :: SpellApart(g, root, p, q) {
      forall i, j | 0 <= i < j < |out| ensures out[i] != out[j] {
        assert SpellApart(g, root, paths[i], paths[j]);
      }
    }
  }
}

/** The class that runs the walk. */
module ConfigPaths {
  import opened Sequences
  import opened ConfigGraph
  import opened Containers

  ghost function SetOf(s: seq<TypeId>): set<TypeId> {
    set t | t in s
  }

  lemma JoinPathAppend(items: seq<string>, item: string)
    ensures JoinPath(items + [item]) == JoinPath(items) + "/" + item
  {
    if items == [] {
      assert [item][1..] == [];
    } else {
      assert (items + [item])[1..] == items[1..] + [item];
      JoinPathAppend(items[1..], item);
    }
  }

  /** The strings recorded for a type, in order. */
  function PathsOf(output: seq<Entry>, tid: TypeId): (r: seq<string>)
    ensures forall s :: s in r <==> (tid, s) in output
  {
    if output == [] then []
    else
      assert output == [output[0]] + output[1..];
      (if output[0].0 == tid then [output[0].1] else []) + PathsOf(output[1..], tid)
  }

  lemma PathsOfAppend(output: seq<Entry>, entry: Entry, tid: TypeId)
    ensures PathsOf(output + [entry], tid) == PathsOf(output, tid) + (if entry.0 == tid then [entry.1] else [])
  {
    if output == [] {
      assert [entry][1..] == [];
    } else {
      assert (output + [entry])[1..] == output[1..] + [entry];
      PathsOfAppend(output[1..], entry, tid);
    }
  }

  function KnownPair(registry: Registry, pair: (string, string)): seq<(TypeId, TypeId)> {
    match (registry.lookUp(pair.0), registry.lookUp(pair.1))
    case (Found(a), Found(b)) => [(a, b)]
    case _ => []
  }

  function UnknownName(registry: Registry, pair: (string, string)): seq<string> {
    if registry.lookUp(pair.0).NotFound? then [pair.0]
    else if registry.lookUp(pair.1).NotFound? then [pair.1]
    else []
  }

  function KnownPairs(registry: Registry, pairs: seq<(string, string)>): seq<(TypeId, TypeId)> {
    if pairs == [] then []
    else KnownPairs(registry, pairs[..|pairs| - 1]) + KnownPair(registry, pairs[|pairs| - 1])
  }

  lemma AttributeEdgesStep(registry: Registry, attributes: seq<Attribute>, i: nat, others: seq<Edge>)
    requires i < |attributes|
    ensures AttributeEdges(registry, attributes[i..]) + others
      == var rest := AttributeEdges(registry, attributes[i + 1..]) + others;
         var first := EdgesOfAttribute(registry, attributes[i]);
         if first == [] then rest else [first[0]] + rest
  {
    assert attributes[i..][0] == attributes[i] && attributes[i..][1..] == attributes[i + 1..];
  }

  lemma ChildEdgesStep(registry: Registry, tid: TypeId, candidates: seq<TypeId>, j: nat, partners: seq<Edge>)
    requires j < |candidates|
    ensures ChildEdges(registry, tid, candidates[j..]) + partners
      == var rest := ChildEdges(registry, tid, candidates[j + 1..]) + partners;
         if registry.isChildOf(candidates[j], tid)
         then [Edge("$" + registry.nameOf(candidates[j]), candidates[j])] + rest else rest
  {
    assert candidates[j..][0] == candidates[j] && candidates[j..][1..] == candidates[j + 1..];
  }

  lemma AggregateEdgesStep(registry: Registry, tid: TypeId, pairs: seq<(TypeId, TypeId)>, j: nat)
    requires j < |pairs|
    ensures AggregateEdges(registry, tid, pairs[j..])
      == var rest := AggregateEdges(registry, tid, pairs[j + 1..]);
         if pairs[j].0 == tid || pairs[j].1 == tid
         then [Edge("$" + registry.nameOf(Partner(tid, pairs[j])), Partner(tid, pairs[j]))] + rest else rest
  {
    assert pairs[j..][0] == pairs[j] && pairs[j..][1..] == pairs[j + 1..];
  }

  class StaticInformation {
    const registry: Registry
    var output: seq<Entry>
    var currentPath: seq<string>
    var alreadyProcessed: seq<TypeId>
    var aggregates: seq<(TypeId, TypeId)>
    var noTids: seq<string>

    /** The two stacks grow and shrink together, and no type is on its stack twice. */
    ghost predicate Valid()
      reads this
    {
      NoDuplicates(alreadyProcessed) && |currentPath| == |alreadyProcessed|
    }

    ghost function TheGraph(): Graph
      reads this
    {
      Graph(registry, aggregates)
    }

    /** What is yet to be recorded when these edges out of tid are still to be followed. */
    ghost function Remaining(tid: TypeId, edges: seq<Edge>): seq<Entry>
      reads this
    {
      GatheredAlong(TheGraph(), currentPath, SetOf(alreadyProcessed) + {tid}, edges)
    }

    constructor (registry: Registry)
      ensures Valid() && this.registry == registry
      ensures output == [] && currentPath == [] && alreadyProcessed == []
      ensures aggregates == [] && noTids == []
    {
      this.registry := registry;
      output, currentPath, alreadyProcessed, aggregates, noTids := [], [], [], [], [];
    }

    /** Only a pair of registered names is recorded; otherwise the first unknown name is noted. */
    method RecordAggregationInfo(a: string, b: string)
      modifies this`aggregates, this`noTids
      ensures aggregates == old(aggregates) + KnownPair(registry, (a, b))
      ensures noTids == old(noTids) + UnknownName(registry, (a, b))
      ensures registry.lookUp(a).NotFound? ==> aggregates == old(aggregates) && noTids == old(noTids) + [a]
      ensures registry.lookUp(a).Found? && registry.lookUp(b).NotFound? ==>
        aggregates == old(aggregates) && noTids == old(noTids) + [b]
      ensures registry.lookUp(a).Found? && registry.lookUp(b).Found? ==>
        aggregates == old(aggregates) + [(registry.lookUp(a).tid, registry.lookUp(b).tid)] && noTids == old(noTids)
    {
      var first := registry.lookUp(a);
      if first.NotFound? {
        noTids := noTids + [a];
        return;
      }
      var second := registry.lookUp(b);
      if second.NotFound? {
        noTids := noTids + [b];
        return;
      }
      aggregates := aggregates + [(first.tid, second.tid)];
    }

    method GetCurrentPath() returns (path: string)
      ensures path == JoinPath(currentPath)
    {
      path := "";
      for i := 0 to |currentPath|
        invariant path == JoinPath(currentPath[..i])
      {
        JoinPathAppend(currentPath[..i], currentPath[i]);
        assert currentPath[..i + 1] == currentPath[..i] + [currentPath[i]];
        path := path + "/" + currentPath[i];
      }
      assert currentPath[..|currentPath|] == currentPath;
    }

    method RecordOutput(tid: TypeId)
      modifies this`output
      ensures output == old(output) + [(tid, JoinPath(currentPath))]
    {
      var path := GetCurrentPath();
      output := output + [(tid, path)];
    }

    method HasAlreadyBeenProcessed(tid: TypeId) returns (found: bool)
      ensures found <==> tid in alreadyProcessed
    {
      for i := 0 to |alreadyProcessed|
        invariant tid !in alreadyProcessed[..i]
      {
        if alreadyProcessed[i] == tid {
          return true;
        }
      }
      assert alreadyProcessed[..|alreadyProcessed|] == alreadyProcessed;
      return false;
    }

    method Get(tid: TypeId) returns (paths: seq<string>)
      ensures paths == PathsOf(output, tid)
    {
      paths := [];
      for i := 0 to |output|
        invariant paths == PathsOf(output[..i], tid)
      {
        PathsOfAppend(output[..i], output[i], tid);
        assert output[..i + 1] == output[..i] + [output[i]];
        if output[i].0 == tid {
          paths := paths + [output[i].1];
        }
      }
      assert output[..|output|] == output;
    }

    /** One step along an edge: push, recurse, pop. What is still to be followed after it is rest,
        and total is what the output will be at the end. */
    method Follow(tid: TypeId, step: string, target: TypeId, ghost rest: seq<Edge>, ghost total: seq<Entry>)
      requires Valid() && tid !in alreadyProcessed
      requires output + Remaining(tid, [Edge(step, target)] + rest) == total
      modifies this`output, this`currentPath, this`alreadyProcessed
      ensures Valid() && currentPath == old(currentPath) && alreadyProcessed == old(alreadyProcessed)
      ensures output + Remaining(tid, rest) == total
      decreases AllTypes() - (SetOf(alreadyProcessed) + {tid}), 1
    {
      assert ([Edge(step, target)] + rest)[1..] == rest;
      currentPath := currentPath + [step];
      alreadyProcessed := alreadyProcessed + [tid];
      assert SetOf(alreadyProcessed) == SetOf(old(alreadyProcessed)) + {tid};
      DoGather(target);
      alreadyProcessed := alreadyProcessed[..|alreadyProcessed| - 1];
      currentPath := currentPath[..|currentPath| - 1];
    }

    /** Both stacks come back as they were, and the output grows by what the walk yields. */
    method DoGather(tid: TypeId)
      requires Valid()
      modifies this`output, this`currentPath, this`alreadyProcessed
      ensures Valid() && currentPath == old(currentPath) && alreadyProcessed == old(alreadyProcessed)
      ensures output == old(output) + Gathered(TheGraph(), currentPath, SetOf(alreadyProcessed), tid)
      decreases AllTypes() - SetOf(alreadyProcessed), 0
    {
      var processed := HasAlreadyBeenProcessed(tid);
      if processed {
        return;
      }
      RecordOutput(tid);
      ghost var total := old(output) + Gathered(TheGraph(), currentPath, SetOf(alreadyProcessed), tid);
      ghost var partners := AggregateEdges(registry, tid, aggregates);
      ghost var others := ChildEdges(registry, tid, registry.registered) + partners;
      assert Edges(TheGraph(), tid) == AttributeEdges(registry, registry.attributes(tid)) + others;
      GatherAttributes(tid, others, total);
      GatherChildren(tid, partners, total);
      GatherPartners(tid, total);
    }

    /** The first loop of DoGather. */
    method GatherAttributes(tid: TypeId, ghost others: seq<Edge>, ghost total: seq<Entry>)
      requires Valid() && tid !in alreadyProcessed
      requires output + Remaining(tid, AttributeEdges(registry, registry.attributes(tid)) + others) == total
      modifies this`output, this`currentPath, this`alreadyProcessed
      ensures Valid() && currentPath == old(currentPath) && alreadyProcessed == old(alreadyProcessed)
      ensures output + Remaining(tid, others) == total
      decreases AllTypes() - (SetOf(alreadyProcessed) + {tid}), 2
    {
      var attributes := registry.attributes(tid);
      assert attributes[0..] == attributes;
      for i := 0 to |attributes|
        invariant Valid() && currentPath == old(currentPath) && alreadyProcessed == old(alreadyProcessed)
        invariant output + Remaining(tid, AttributeEdges(registry, attributes[i..]) + others) == total
      {
        var info := attributes[i];
        ghost var rest := AttributeEdges(registry, attributes[i + 1..]) + others;
        AttributeEdgesStep(registry, attributes, i, others);
        if info.checker.PointerTo? {
          if info.checker.pointee == registry.objectType {
            continue;
          }
          Follow(tid, info.name, info.checker.pointee, rest, total);
          continue;
        }
        if info.checker.ContainerOf? {
          Follow(tid, info.name + "/[i]", info.checker.item, rest, total);
          continue;
        }
      }
      assert [] + others == others;
    }

    /** The second loop of DoGather. */
    method GatherChildren(tid: TypeId, ghost partners: seq<Edge>, ghost total: seq<Entry>)
      requires Valid() && tid !in alreadyProcessed
      requires output + Remaining(tid, ChildEdges(registry, tid, registry.registered) + partners) == total
      modifies this`output, this`currentPath, this`alreadyProcessed
      ensures Valid() && currentPath == old(currentPath) && alreadyProcessed == old(alreadyProcessed)
      ensures output + Remaining(tid, partners) == total
      decreases AllTypes() - (SetOf(alreadyProcessed) + {tid}), 2
    {
      var registered := registry.registered;
      assert registered[0..] == registered;
      for j := 0 to |registered|
        invariant Valid() && currentPath == old(currentPath) && alreadyProcessed == old(alreadyProcessed)
        invariant output + Remaining(tid, ChildEdges(registry, tid, registered[j..]) + partners) == total
      {
        var child := registered[j];
        ChildEdgesStep(registry, tid, registered, j, partners);
        if registry.isChildOf(child, tid) {
          var childName := "$" + registry.nameOf(child);
          Follow(tid, childName, child, ChildEdges(registry, tid, registered[j + 1..]) + partners, total);
        }
      }
      assert [] + partners == partners;
    }

    /** The third loop of DoGather. */
    method GatherPartners(tid: TypeId, ghost total: seq<Entry>)
      requires Valid() && tid !in alreadyProcessed
      requires output + Remaining(tid, AggregateEdges(registry, tid, aggregates)) == total
      modifies this`output, this`currentPath, this`alreadyProcessed
      ensures Valid() && currentPath == old(currentPath) && alreadyProcessed == old(alreadyProcessed)
      ensures output == total
      decreases AllTypes() - (SetOf(alreadyProcessed) + {tid}), 2
    {
      var pairs := aggregates;
      assert pairs[0..] == pairs;
      for j := 0 to |pairs|
        invariant Valid() && currentPath == old(currentPath) && alreadyProcessed == old(alreadyProcessed)
        invariant output + Remaining(tid, AggregateEdges(registry, tid, pairs[j..])) == total
      {
        var item := pairs[j];
        AggregateEdgesStep(registry, tid, pairs, j);
        if item.0 == tid || item.1 == tid {
          var other := item.1;
          if item.1 == tid {
            other := item.0;
          }
          var name := "$" + registry.nameOf(other);
          Follow(tid, name, other, AggregateEdges(registry, tid, pairs[j + 1..]), total);
        }
      }
    }

    /** The list is meant to be sorted and freed of repetitions at the end, but Uniquefy gets a copy of
        it, and what it makes of the copy is lost. */
    method Gather(tid: TypeId)
      requires Valid()
      modifies this`output, this`currentPath, this`alreadyProcessed
      ensures Valid() && currentPath == old(currentPath) && alreadyProcessed == old(alreadyProcessed)
      ensures output == old(output) + Gathered(TheGraph(), currentPath, SetOf(alreadyProcessed), tid)
    {
      DoGather(tid);
      PairOrder();
      var copy := Uniquefy<(nat, string)>(output, PairLeq);
    }

    /** Likewise the names come back as they were noted. */
    method GetNoTypeIds() returns (names: seq<string>)
      ensures names == noTids
    {
      StringOrder();
      var copy := Uniquefy(noTids, StringLeq);
      names := noTids;
    }
  }

  /** What the walks from the roots, one after another, record. */
  ghost function GatheredFrom(g: Graph, roots: seq<TypeId>): seq<Entry> {
    if roots == [] then []
    else GatheredFrom(g, roots[..|roots| - 1]) + Gathered(g, [], {}, roots[|roots| - 1])
  }

  ghost predicate IsFromSomeRoot(g: Graph, roots: seq<TypeId>, tid: TypeId, s: string) {
    exists i :: 0 <= i < |roots| && IsConfigPath(g, roots[i], tid, s)
  }

  lemma OneMoreRoot(g: Graph, front: seq<TypeId>, last: TypeId, tid: TypeId, s: string)
    ensures IsFromSomeRoot(g, front + [last], tid, s)
      <==> IsFromSomeRoot(g, front, tid, s) || IsConfigPath(g, last, tid, s)
  {
    var roots := front + [last];
    if IsConfigPath(g, last, tid, s) {
      assert roots[|front|] == last;
    }
    if i :| 0 <= i < |front| && IsConfigPath(g, front[i], tid, s) {
      assert roots[i] == front[i];
    }
    if i :| 0 <= i < |roots| && IsConfigPath(g, roots[i], tid, s) {
      assert i < |front| ==> roots[i] == front[i];
    }
  }

  lemma {:induction false} GatheredFromExact(g: Graph, roots: seq<TypeId>, entry: Entry)
    ensures entry in GatheredFrom(g, roots) <==> IsFromSomeRoot(g, roots, entry.0, entry.1)
  {
    if roots == [] {
    } else {
      var front, last := roots[..|roots| - 1], roots[|roots| - 1];
      GatheredFromExact(g, front, entry);
      GatherExact(g, last, entry);
      OneMoreRoot(g, front, last, entry.0, entry.1);
      assert roots == front + [last];
    }
  }

  /** GetTypicalAggregations registers the known aggregations and walks from each root. The paths then
      reported for a type are those of the simple paths from some root that end in it. */
  method PathsAfterGather(registry: Registry, pairs: seq<(string, string)>, roots: seq<TypeId>, tid: TypeId)
    returns (paths: seq<string>)
    ensures forall s :: s in paths <==> IsFromSomeRoot(Graph(registry, KnownPairs(registry, pairs)), roots, tid, s)
  {
    var info := new StaticInformation(registry);
    for i := 0 to |pairs|
      invariant info.Valid() && info.output == [] && info.currentPath == [] && info.alreadyProcessed == []
      invariant info.aggregates == KnownPairs(registry, pairs[..i])
    {
      info.RecordAggregationInfo(pairs[i].0, pairs[i].1);
      assert pairs[..i + 1][..i] == pairs[..i];
    }
    assert pairs[..|pairs|] == pairs;
    ghost var g := Graph(registry, KnownPairs(registry, pairs));
    for i := 0 to |roots|
      invariant info.Valid() && info.currentPath == [] && info.alreadyProcessed == []
      invariant info.TheGraph() == g && info.output == GatheredFrom(g, roots[..i])
    {
      assert SetOf(info.alreadyProcessed) == {};
      assert roots[..i + 1][..i] == roots[..i];
      info.Gather(roots[i]);
    }
    assert roots[..|roots|] == roots;
    paths := info.Get(tid);
    forall s ensures (tid, s) in info.output <==> IsFromSomeRoot(g, roots, tid, s) {
      GatheredFromExact(g, roots, (tid, s));
    }
  }
}
