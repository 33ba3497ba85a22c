/**
 * The findings of validate_graph_structure, as values: which periphery ids
 * and edge end points are missing from the vertex map, and whether the edge
 * count falls short of a triangulated disc's.
 */
module StructureReport {
  import opened EdgeCounting

  /** One entry of the issue list; the source formats each as a message string. */
  datatype Issue =
    | MissingPeripheryVertex(id: int)                 // a periphery id has no vertex
    | MissingEdgeEndpoint(id: int)                    // an edge end point has no vertex
    | MaybeNotTriangulated(expected: int, actual: int) // fewer edges than 3|V| - 3 - |periphery|

  /** One MissingPeripheryVertex per periphery position whose id is not a key, in periphery order. */
  function PeripheryIssues(p: seq<int>, keys: set<int>): (r: seq<Issue>)
    ensures |r| <= |p|
    ensures forall k :: 0 <= k < |r| ==> r[k].MissingPeripheryVertex? && r[k].id in p && r[k].id !in keys
    ensures forall v :: v in p && v !in keys ==> MissingPeripheryVertex(v) in r
  {
    if p == [] then []
    else
      var front := PeripheryIssues(p[..|p| - 1], keys);
      var last := p[|p| - 1];
      assert forall v :: v in p ==> v in p[..|p| - 1] || v == last;
      if last in keys then front else front + [MissingPeripheryVertex(last)]
  }

  /** No periphery issue is reported exactly when every periphery id is a key. */
  lemma PeripheryIssuesEmpty(p: seq<int>, keys: set<int>)
    ensures PeripheryIssues(p, keys) == [] <==> forall v :: v in p ==> v in keys
  {
    var r := PeripheryIssues(p, keys);
    if r != [] {
      var first := r[0];
      assert first.id in p && first.id !in keys;
    }
  }

  /** Appending one periphery id extends the issue list by at most that id. */
  lemma PeripheryIssuesStep(p: seq<int>, k: nat, keys: set<int>)
    requires k < |p|
    ensures PeripheryIssues(p[..k + 1], keys) ==
      PeripheryIssues(p[..k], keys) + (if p[k] in keys then [] else [MissingPeripheryVertex(p[k])])
  {
    assert p[..k + 1][..k] == p[..k];
  }

  /**
   * The edge part of the issue list: only MissingEdgeEndpoint entries, each
   * id x reported once per edge end that is x, when x is not a key. The
   * order is that of set iteration, which is not fixed, so only the counts are.
   */
  ghost predicate EdgeIssues(issues: seq<Issue>, edges: set<(int, int)>, keys: set<int>)
  {
    && (forall k :: 0 <= k < |issues| ==> issues[k].MissingEdgeEndpoint?)
    && (forall x :: multiset(issues)[MissingEdgeEndpoint(x)] == if x in keys then 0 else Degree(edges, x))
  }

  /** The closing check: with more than two vertices, fewer than 3|V| - 3 - |periphery| edges is reported. */
  function TriangulationHint(vertexCount: int, edgeCount: int, peripheryCount: int): (r: seq<Issue>)
    ensures |r| <= 1
    ensures r != [] <==> vertexCount > 2 && edgeCount < 3 * vertexCount - 3 - peripheryCount
    ensures r != [] ==> r[0] == MaybeNotTriangulated(3 * vertexCount - 3 - peripheryCount, edgeCount)
  {
    var expected := 3 * vertexCount - 3 - peripheryCount;
    if vertexCount > 2 && edgeCount < expected then [MaybeNotTriangulated(expected, edgeCount)] else []
  }

  /** No edge end point is reported exactly when every end point is a key. */
  lemma NoDanglingEnds(edges: set<(int, int)>, keys: set<int>)
    ensures DanglingCount(edges, keys) == 0 <==> forall e :: e in edges ==> e.0 in keys && e.1 in keys
  {
    if DanglingCount(edges, keys) == 0 {
      assert Dangling(edges, keys, true) == {} && Dangling(edges, keys, false) == {};
      forall e | e in edges ensures e.0 in keys && e.1 in keys {
        assert e !in Dangling(edges, keys, true);
        assert e !in Dangling(edges, keys, false);
      }
    }
    if forall e :: e in edges ==> e.0 in keys && e.1 in keys {
      assert Dangling(edges, keys, true) == {};
      assert Dangling(edges, keys, false) == {};
    }
  }

  /** The empty list reports nothing, whatever the edges: a starting point for the edge loop. */
  lemma EdgeIssuesEmpty(keys: set<int>)
    ensures EdgeIssues([], {}, keys)
  {
    var none: seq<Issue> := [];
    forall x ensures multiset(none)[MissingEdgeEndpoint(x)] == if x in keys then 0 else Degree({}, x) {
      assert Ends({}, x, true) == {} && Ends({}, x, false) == {};
    }
  }

  /** Handling one more edge appends its end points that are not keys, first end first. */
  lemma EdgeIssuesStep(issues: seq<Issue>, done: set<(int, int)>, e: (int, int), keys: set<int>)
    requires e !in done && EdgeIssues(issues, done, keys)
    ensures EdgeIssues(issues + EdgeEndIssues(e, keys), done + {e}, keys)
  {
    var more := issues + EdgeEndIssues(e, keys);
    forall x ensures multiset(more)[MissingEdgeEndpoint(x)] == if x in keys then 0 else Degree(done + {e}, x) {
      DegreeStep(done, e, x);
    }
  }

  /** What the edge loop appends for one edge (v1, v2). */
  function EdgeEndIssues(e: (int, int), keys: set<int>): (r: seq<Issue>)
    ensures |r| == (if e.0 in keys then 0 else 1) + (if e.1 in keys then 0 else 1)
    ensures forall k :: 0 <= k < |r| ==> r[k].MissingEdgeEndpoint? && r[k].id !in keys
  {
    (if e.0 in keys then [] else [MissingEdgeEndpoint(e.0)])
      + (if e.1 in keys then [] else [MissingEdgeEndpoint(e.1)])
  }
}
