/**
 * The triangulation builder of graph.py: a vertex map, a set of sorted edge
 * pairs, the periphery cycle and the next free id, grown one fan at a time.
 */
module Graphs {
  import opened Sequences
  import opened Palette
  import opened Vertices
  import opened Boundary
  import opened EdgeCounting
  import opened StructureReport
  import opened GraphStatistics

  /** The graph's palette, entry k-1 for colour number k; it differs from the vertex's own. */
  const GraphPalette: seq<Rgb> :=
    [Rgb(255, 100, 100), Rgb(100, 255, 100), Rgb(100, 100, 255), Rgb(255, 255, 100)]

  /**
   * ((id - 1) % 4) + 1, the colour number a new vertex gets; Dafny's % agrees
   * with Python's here because the divisor is positive.
   */
  function CycleColorNumber(id: int): (n: int)
    ensures 1 <= n <= 4
    ensures (n - id) % 4 == 0
  {
    ((id - 1) % 4) + 1
  }

  /**
   * The invariant every reachable graph keeps: ids are positive and below the
   * next free id, edges are sorted pairs of existing distinct ids, and the
   * periphery lists existing ids without repeats.
   */
  ghost predicate TopologyValid(keys: set<int>, edges: set<(int, int)>, p: seq<int>, nextId: int)
  {
    && 1 <= nextId
    && (forall k :: k in keys ==> 1 <= k < nextId)
    && (forall e :: e in edges ==> e.0 < e.1 && e.0 in keys && e.1 in keys)
    && NoDuplicates(p)
    && (forall v :: v in p ==> v in keys)
  }

  /**
   * What holds from start_basic_graph on: at least three boundary ids, each
   * cyclically consecutive pair joined by an edge, and exactly
   * 3|V| - 3 - |periphery| edges, the count of a triangulated disc.
   */
  ghost predicate TopologyTriangulated(keys: set<int>, edges: set<(int, int)>, p: seq<int>, nextId: int)
  {
    && TopologyValid(keys, edges, p, nextId)
    && |p| >= 3
    && BoundaryClosed(p, edges)
    && |edges| == 3 * |keys| - 3 - |p|
  }

  /**
   * The fan from the fresh id nextId to an arc: sorted pairs (v, nextId) of
   * existing ids, none already an edge, one per arc id.
   */
  lemma FanIsFresh(keys: set<int>, edges: set<(int, int)>, p: seq<int>, nextId: int, i: nat, j: nat)
    requires TopologyValid(keys, edges, p, nextId) && i < |p| && j < |p| && i != j
    ensures forall e :: e in Fan(Arc(p, i, j), nextId) ==> e.0 < e.1 && e.0 in keys && e.1 == nextId
    ensures edges !! Fan(Arc(p, i, j), nextId)
  {
    var arc := Arc(p, i, j);
    var fan := Fan(arc, nextId);
    ArcMembers(p, i, j);
    ArcDistinct(p, i, j);
    FanCard(arc, nextId);
    forall e | e in fan ensures e.0 < e.1 && e.0 in keys && e.1 == nextId {
      var v :| v in arc && e == SortedPair(nextId, v);
      assert v in p;
    }
    forall e | e in fan ensures e !in edges {
      var w := e.1;
      assert w == nextId;
    }
  }

  /** The fan adds one new edge per arc id. */
  lemma FanCount(keys: set<int>, edges: set<(int, int)>, p: seq<int>, nextId: int, i: nat, j: nat)
    requires TopologyValid(keys, edges, p, nextId) && i < |p| && j < |p| && i != j
    ensures |edges + Fan(Arc(p, i, j), nextId)| == |edges| + |Arc(p, i, j)|
  {
    var arc := Arc(p, i, j);
    ArcDistinct(p, i, j);
    FanCard(arc, nextId);
    FanIsFresh(keys, edges, p, nextId, i, j);
  }

  /** An insertion keeps the invariant, with nextId added to the keys and the next free id one higher. */
  lemma InsertKeepsValid(keys: set<int>, edges: set<(int, int)>, p: seq<int>, nextId: int, i: nat, j: nat)
    requires TopologyValid(keys, edges, p, nextId) && i < |p| && j < |p| && i != j
    ensures nextId !in keys && nextId !in p
    ensures TopologyValid(keys + {nextId}, edges + Fan(Arc(p, i, j), nextId), NewPeriphery(p, i, j, nextId), nextId + 1)
  {
    var n := nextId;
    FanIsFresh(keys, edges, p, n, i, j);
    NewPeripheryDistinct(p, i, j, n);
    NewPeripheryMembers(p, i, j, n);
  }

  /** An insertion into a triangulated graph leaves it triangulated. */
  lemma InsertKeepsTriangulated(keys: set<int>, edges: set<(int, int)>, p: seq<int>, nextId: int, i: nat, j: nat)
    requires TopologyTriangulated(keys, edges, p, nextId) && i < |p| && j < |p| && i != j
    ensures TopologyTriangulated(keys + {nextId}, edges + Fan(Arc(p, i, j), nextId), NewPeriphery(p, i, j, nextId), nextId + 1)
  {
    var n := nextId;
    var arc := Arc(p, i, j);
    var more := edges + Fan(arc, n);
    var q := NewPeriphery(p, i, j, n);
    assert |more| == |edges| + |arc| by {
      FanCount(keys, edges, p, n, i, j);
    }
    assert TopologyValid(keys + {n}, more, q, n + 1) && n !in keys by {
      InsertKeepsValid(keys, edges, p, n, i, j);
    }
    assert |q| == |p| + 1 - (|arc| - 2) && |q| >= 3 by {
      NewPeripheryLength(p, i, j, n);
    }
    assert BoundaryClosed(q, more) by {
      BoundaryClosedMono(p, edges, more);
      var first, last := arc[0], arc[|arc| - 1];
      assert first in arc && last in arc;
      assert SortedPair(n, p[i]) in more && SortedPair(n, p[j]) in more;
      NewPeripheryClosed(p, i, j, n, more);
    }
    assert |keys + {n}| == |keys| + 1;
  }

  /**
   * InsertKeepsValid and InsertKeepsTriangulated in the form Attach uses:
   * the triangulated half conditional, so that Attach's own proof needs one
   * call and no case split (which keeps that method within its proof budget).
   */
  lemma InsertKeepsInvariants(keys: set<int>, edges: set<(int, int)>, p: seq<int>, nextId: int, i: nat, j: nat)
    requires TopologyValid(keys, edges, p, nextId) && i < |p| && j < |p| && i != j
    ensures nextId !in keys
    ensures TopologyValid(keys + {nextId}, edges + Fan(Arc(p, i, j), nextId), NewPeriphery(p, i, j, nextId), nextId + 1)
    ensures TopologyTriangulated(keys, edges, p, nextId) ==>
      TopologyTriangulated(keys + {nextId}, edges + Fan(Arc(p, i, j), nextId), NewPeriphery(p, i, j, nextId), nextId + 1)
  {
    InsertKeepsValid(keys, edges, p, nextId, i, j);
    if TopologyTriangulated(keys, edges, p, nextId) {
      InsertKeepsTriangulated(keys, edges, p, nextId, i, j);
    }
  }

  /** The triangle start_basic_graph builds satisfies the triangulation invariant. */
  lemma BasicTriangleTriangulated()
    ensures TopologyTriangulated({1, 2, 3}, {(1, 2), (2, 3), (1, 3)}, [1, 2, 3], 4)
  {
    var p := [1, 2, 3];
    var edges := {(1, 2), (2, 3), (1, 3)};
    assert |edges| == 3;
    assert |{1, 2, 3}| == 3;
    assert SortedPair(p[0], CyclicNext(p, 0)) == (1, 2);
    assert SortedPair(p[1], CyclicNext(p, 1)) == (2, 3);
    assert SortedPair(p[2], CyclicNext(p, 2)) == (1, 3);
  }

  /** Each vertex record carries its own id, and no record is shared by two ids. */
  ghost predicate VertexRecords(vs: map<int, Vertex>)
  {
    && (forall k :: k in vs ==> vs[k].id == k)
    && (forall a, b :: a in vs && b in vs && a != b ==> vs[a] != vs[b])
  }

  /** Every vertex of the map has its colour number in 1..4. */
  ghost predicate RecordsValidIn(vs: map<int, Vertex>)
    reads vs.Values
  {
    forall k :: k in vs ==> vs[k].Valid()
  }

  /**
   * Every vertex of the map has the colour number a new vertex gets,
   * ((id - 1) % 4) + 1, and shows that number's vertex-palette colour.
   */
  ghost predicate CycleColouredIn(vs: map<int, Vertex>)
    reads vs.Values
  {
    forall k :: k in vs ==>
      vs[k].colorNumber == CycleColorNumber(k) && vs[k].color == VertexPalette[CycleColorNumber(k) - 1]
  }

  /** A map showing creation colours keeps every colour number in 1..4. */
  lemma CycleColouredIsValid(vs: map<int, Vertex>)
    requires CycleColouredIn(vs)
    ensures RecordsValidIn(vs)
  {
    forall k | k in vs ensures vs[k].Valid() {
      var n := CycleColorNumber(k);
      assert vs[k].colorNumber == n;
    }
  }

  /** Storing a vertex that shows its creation colour keeps both properties of the map. */
  lemma RecordsExtend(vs: map<int, Vertex>, id: int, v: Vertex)
    requires v.colorNumber == CycleColorNumber(id) && v.color == VertexPalette[CycleColorNumber(id) - 1]
    ensures RecordsValidIn(vs) ==> RecordsValidIn(vs[id := v])
    ensures CycleColouredIn(vs) ==> CycleColouredIn(vs[id := v])
  {
    var n := CycleColorNumber(id);
    assert v.Valid();
  }

  /** The triangle's three records, numbered and coloured 1, 2 and 3, show their creation colours. */
  lemma BasicTriangleColours(vs: map<int, Vertex>)
    requires vs.Keys == {1, 2, 3}
    requires forall k :: 1 <= k <= 3 ==> vs[k].colorNumber == k && vs[k].color == VertexPalette[k - 1]
    ensures CycleColouredIn(vs) && RecordsValidIn(vs)
  {
    assert CycleColorNumber(1) == 1 && CycleColorNumber(2) == 2 && CycleColorNumber(3) == 3;
    CycleColouredIsValid(vs);
  }

  /** Three records carrying the ids 1, 2 and 3 form a well-formed vertex map. */
  lemma BasicTriangleRecords(v1: Vertex, v2: Vertex, v3: Vertex)
    requires v1.id == 1 && v2.id == 2 && v3.id == 3
    ensures var vs := map[1 := v1, 2 := v2, 3 := v3];
      vs.Keys == {1, 2, 3} && VertexRecords(vs)
  {
  }

  /**
   * random.sample(periphery, 2) as two positions drawn from the random
   * numbers first and second: the first position is first % n, the second
   * is second % (n - 1) counted over the positions left once the first is
   * taken out.
   */
  function SamplePositions(n: int, first: nat, second: nat): (ij: (nat, nat))
    requires n >= 2
    ensures ij.0 < n && ij.1 < n && ij.0 != ij.1
  {
    var i := first % n;
    var rest := second % (n - 1);
    (i, if rest < i then rest else rest + 1)
  }

  /** Every ordered pair of distinct positions can be drawn. */
  lemma SamplePositionsCovers(n: int, i: nat, j: nat)
    requires n >= 2 && i < n && j < n && i != j
    ensures exists first: nat, second: nat :: SamplePositions(n, first, second) == (i, j)
  {
    var second: nat := if j < i then j else j - 1;
    ModOfSmaller(i, n);
    ModOfSmaller(second, n - 1);
    assert SamplePositions(n, i, second) == (i, j);
  }

  lemma ModOfSmaller(x: nat, m: int)
    requires x < m
    ensures x % m == x
  {
  }

  /** A colour assign_vertex_color gives reads back, through the graph's palette, as its number. */
  lemma GraphPaletteRoundTrip(c: int)
    requires 1 <= c <= 4
    ensures MatchNumber(GraphPalette, GraphPalette[c - 1]) == c
  {
    MatchNumberRoundTrip(GraphPalette, c);
  }

  /**
   * No colour of the vertex's own palette is in the graph's palette, so
   * get_vertex_color_number reports 1 for every vertex still showing the
   * colour its constructor or set_color gave it, whatever its colour number.
   */
  lemma VertexColoursReadAsOne(k: int)
    requires 1 <= k <= 4
    ensures MatchNumber(GraphPalette, VertexPalette[k - 1]) == 1
  {
    var c := VertexPalette[k - 1];
    assert c.g == 120 || c.b == 120;
    assert c !in GraphPalette;
  }

  /** A duplicate-free periphery of existing ids is no longer than the vertex map. */
  lemma PeripheryFits(keys: set<int>, edges: set<(int, int)>, p: seq<int>, nextId: int)
    requires TopologyValid(keys, edges, p, nextId)
    ensures |p| <= |keys|
  {
    DistinctCard(p);
    var onPeriphery := set x | x in p;
    forall x | x in onPeriphery ensures x in keys {
      assert x in p;
    }
    SubsetCard(onPeriphery, keys);
  }

  /** The smaller of two sets has no more elements. */
  lemma {:induction false} SubsetCard(a: set<int>, b: set<int>)
    requires a <= b
    ensures |a| <= |b|
    decreases |b|
  {
    if exists x :: x in b && x !in a {
      var x :| x in b && x !in a;
      assert |b - {x}| == |b| - 1;
      SubsetCard(a, b - {x});
    } else {
      assert a == b;
    }
  }

  /** A map that gains one new key has one more entry. */
  lemma MapGrows(before: map<int, Vertex>, after: map<int, Vertex>, id: int)
    requires id !in before && after.Keys == before.Keys + {id}
    ensures |after| == |before| + 1
  {
    assert |after.Keys| == |before.Keys| + 1;
  }

  /** What add_vertex_to_periphery and add_random_vertex report. */
  datatype InsertOutcome =
    | Inserted(id: int, arc: seq<int>)  // the new id and the arc it was connected to
    | SameVertex                        // vp and vq are the same id
    | NotOnPeriphery                    // vp or vq is not a periphery id
    | PeripheryTooSmall                 // add_random_vertex: fewer than two periphery ids

  /** The random draw and the computed position one add_random_vertex call uses. */
  datatype RandomPick = RandomPick(first: nat, second: nat, pos: Point)

  /** What generate_large_graph returns, or the ZeroDivisionError it raises for 4 <= target < 20. */
  datatype GenerateOutcome = Generated(stats: Statistics) | DivisionByZero

  class Graph {
    var vertices: map<int, Vertex>
    var edges: set<(int, int)>
    var periphery: seq<int>
    var nextVertexId: int

    /** The topology invariant over the map's ids, plus well-formed vertex records. */
    ghost predicate Valid()
      reads this
    {
      && TopologyValid(vertices.Keys, edges, periphery, nextVertexId)
      && VertexRecords(vertices)
    }

    ghost predicate Triangulated()
      reads this
    {
      Valid() && TopologyTriangulated(vertices.Keys, edges, periphery, nextVertexId)
    }

    /** Every stored vertex keeps its own invariant: a colour number in 1..4. */
    ghost predicate RecordsValid()
      reads this, vertices.Values
    {
      RecordsValidIn(vertices)
    }

    /** Every stored vertex still shows the colour it was created with. */
    ghost predicate ShowsCycleColours()
      reads this, vertices.Values
    {
      CycleColouredIn(vertices)
    }

    /** A new graph is empty and will hand out id 1 first. */
    constructor ()
      ensures Valid()
      ensures vertices == map[] && edges == {} && periphery == [] && nextVertexId == 1
    {
      vertices := map[];
      edges := {};
      periphery := [];
      nextVertexId := 1;
    }

    /** start_basic_graph: reset to the triangle 1-2-3 with colour numbers 1, 2, 3. */
    method StartBasicGraph()
      modifies this
      ensures Triangulated()
      ensures vertices.Keys == {1, 2, 3} && periphery == [1, 2, 3] && nextVertexId == 4
      ensures edges == {(1, 2), (2, 3), (1, 3)}
      ensures fresh(vertices[1]) && fresh(vertices[2]) && fresh(vertices[3])
      ensures vertices[1].colorNumber == 1 && vertices[2].colorNumber == 2 && vertices[3].colorNumber == 3
      ensures forall k :: 1 <= k <= 3 ==>
        vertices[k].id == k && vertices[k].color == VertexPalette[k - 1] && vertices[k].radius == LogRadius(k)
      ensures vertices[1].pos == Point(400.0, 200.0)
      ensures vertices[2].pos == Point(250.0, 450.0)
      ensures vertices[3].pos == Point(550.0, 450.0)
    {
      var v1 := new Vertex(1, Point(400.0, 200.0), 1);
      var v2 := new Vertex(2, Point(250.0, 450.0), 2);
      var v3 := new Vertex(3, Point(550.0, 450.0), 3);
      var vs := map[1 := v1, 2 := v2, 3 := v3];
      var es := {SortedPair(1, 2), SortedPair(2, 3), SortedPair(3, 1)};
      assert es == {(1, 2), (2, 3), (1, 3)};
      assert vs.Keys == {1, 2, 3} && VertexRecords(vs) by {
        BasicTriangleRecords(v1, v2, v3);
      }
      BasicTriangleTriangulated();
      vertices, edges, periphery, nextVertexId := vs, es, [1, 2, 3], 4;
    }

    /**
     * add_vertex_to_periphery(vp, vq), with pos standing for the position
     * _calculate_outward_pos computes. A rejected selection changes nothing;
     * otherwise a vertex with the next id is fanned to every id of the arc
     * from vp to vq and replaces the arc's interior on the periphery.
     */
    method AddVertexToPeriphery(vp: int, vq: int, pos: Point) returns (r: InsertOutcome)
      requires Valid()
      modifies this
      ensures Valid()
      ensures r == SameVertex <==> vp == vq
      ensures r == NotOnPeriphery <==> vp != vq && (vp !in old(periphery) || vq !in old(periphery))
      ensures r.Inserted? || r == SameVertex || r == NotOnPeriphery
      ensures !r.Inserted? ==>
        vertices == old(vertices) && edges == old(edges) && periphery == old(periphery) && nextVertexId == old(nextVertexId)
      ensures r.Inserted? ==>
        var p := old(periphery);
        var i, j := IndexOf(p, vp), IndexOf(p, vq);
        && r.id == old(nextVertexId) && r.id !in old(vertices)
        && r.arc == Arc(p, i, j)
        && vertices.Keys == old(vertices).Keys + {r.id}
        && vertices == old(vertices)[r.id := vertices[r.id]]
        && fresh(vertices[r.id])
        && vertices[r.id].id == r.id && vertices[r.id].pos == pos
        && vertices[r.id].colorNumber == CycleColorNumber(r.id)
        && vertices[r.id].color == VertexPalette[CycleColorNumber(r.id) - 1]
        && vertices[r.id].radius == LogRadius(r.id)
        && edges == old(edges) + Fan(r.arc, r.id)
        && periphery == NewPeriphery(p, i, j, r.id)
        && nextVertexId == old(nextVertexId) + 1
      ensures old(Triangulated()) ==> Triangulated()
    {
      if vp == vq {
        return SameVertex;
      }
      if vp !in periphery || vq !in periphery {
        return NotOnPeriphery;
      }
      var i := IndexOf(periphery, vp);
      var j := IndexOf(periphery, vq);
      // The source's len(target_arc) < 2 guard cannot fire: Arc's contract gives |arc| >= 2.
      var id, arc := Attach(i, j, pos);
      r := Inserted(id, arc);
    }

    /**
     * The part of add_vertex_to_periphery after the arc from periphery[i] to
     * periphery[j] is chosen: the new vertex, its fan of edges, the periphery
     * splice and the id counter.
     */
    method Attach(i: nat, j: nat, pos: Point) returns (id: int, arc: seq<int>)
      requires Valid() && i < |periphery| && j < |periphery| && i != j
      modifies this
      ensures Valid()
      ensures id == old(nextVertexId) && id !in old(vertices)
      ensures arc == Arc(old(periphery), i, j)
      ensures vertices.Keys == old(vertices).Keys + {id}
      ensures vertices == old(vertices)[id := vertices[id]]
      ensures fresh(vertices[id]) && vertices[id].id == id && vertices[id].pos == pos
      ensures vertices[id].colorNumber == CycleColorNumber(id)
      ensures vertices[id].color == VertexPalette[CycleColorNumber(id) - 1] && vertices[id].radius == LogRadius(id)
      ensures edges == old(edges) + Fan(arc, id)
      ensures periphery == NewPeriphery(old(periphery), i, j, id)
      ensures nextVertexId == old(nextVertexId) + 1
      ensures old(Triangulated()) ==> Triangulated()
    {
      arc := Arc(periphery, i, j);
      id := nextVertexId;
      ghost var keys, oldEdges, p := vertices.Keys, edges, periphery;
      assert id !in keys;
      var v := new Vertex(id, pos, CycleColorNumber(id));
      var vs := vertices[id := v];
      assert VertexRecords(vs);
      var more := AddFan(edges, arc, id);
      var kept := RemoveAll(periphery, Interior(arc));
      assert periphery[i] in kept && InsertAfter(kept, periphery[i], id) == NewPeriphery(p, i, j, id) by {
        SpliceIsNewPeriphery(p, i, j, id);
      }
      var q := InsertAfter(kept, periphery[i], id);
      assert vs.Keys == keys + {id};
      InsertKeepsInvariants(keys, oldEdges, p, id, i, j);
      assert TopologyValid(vs.Keys, more, q, id + 1);
      vertices, edges, periphery, nextVertexId := vs, more, q, id + 1;
    }

    /**
     * add_random_vertex, with first and second standing for the random draw
     * and pos for the computed position: fewer than two periphery ids change
     * nothing; otherwise the two drawn, distinct periphery ids are passed to
     * add_vertex_to_periphery, which then always inserts.
     */
    method AddRandomVertex(first: nat, second: nat, pos: Point) returns (r: InsertOutcome)
      requires Valid()
      modifies this
      ensures Valid()
      ensures r == PeripheryTooSmall <==> |old(periphery)| < 2
      ensures r == PeripheryTooSmall || r.Inserted?
      ensures r == PeripheryTooSmall ==>
        vertices == old(vertices) && edges == old(edges) && periphery == old(periphery) && nextVertexId == old(nextVertexId)
      ensures r.Inserted? ==>
        var p := old(periphery);
        var ij := SamplePositions(|p|, first, second);
        && r.id == old(nextVertexId) && r.id !in old(vertices)
        && r.arc == Arc(p, ij.0, ij.1)
        && vertices.Keys == old(vertices).Keys + {r.id}
        && vertices == old(vertices)[r.id := vertices[r.id]]
        && fresh(vertices[r.id])
        && vertices[r.id].id == r.id && vertices[r.id].pos == pos
        && vertices[r.id].colorNumber == CycleColorNumber(r.id)
        && vertices[r.id].color == VertexPalette[CycleColorNumber(r.id) - 1]
        && vertices[r.id].radius == LogRadius(r.id)
        && edges == old(edges) + Fan(r.arc, r.id)
        && periphery == NewPeriphery(p, ij.0, ij.1, r.id)
        && nextVertexId == old(nextVertexId) + 1
      ensures old(Triangulated()) ==> Triangulated()
      ensures old(RecordsValid()) ==> RecordsValid()
      ensures old(ShowsCycleColours()) ==> ShowsCycleColours()
    {
      if |periphery| < 2 {
        return PeripheryTooSmall;
      }
      var ij := SamplePositions(|periphery|, first, second);
      var vp, vq := periphery[ij.0], periphery[ij.1];
      IndexOfDistinct(periphery, ij.0);
      IndexOfDistinct(periphery, ij.1);
      ghost var before := vertices;
      r := AddVertexToPeriphery(vp, vq, pos);
      RecordsExtend(before, r.id, vertices[r.id]);
    }

    /**
     * assign_vertex_color: a key of the graph's palette and an existing id
     * make that vertex show the palette colour; its colour number is left as
     * it was. Anything else is refused and nothing changes.
     */
    method AssignVertexColor(v: int, c: int) returns (ok: bool)
      modifies if v in vertices then {vertices[v]} else {}
      ensures ok <==> 1 <= c <= 4 && v in vertices
      ensures ok ==> vertices[v].color == GraphPalette[c - 1] && MatchNumber(GraphPalette, vertices[v].color) == c
      ensures !ok && v in vertices ==> vertices[v].color == old(vertices[v].color)
      ensures v in vertices ==>
        vertices[v].colorNumber == old(vertices[v].colorNumber) && vertices[v].pos == old(vertices[v].pos)
      ensures old(RecordsValid()) ==> RecordsValid()
    {
      if 1 <= c <= 4 && v in vertices {
        vertices[v].color := GraphPalette[c - 1];
        GraphPaletteRoundTrip(c);
        return true;
      }
      return false;
    }

    /**
     * get_vertex_color_number: the number of the first graph palette colour
     * the vertex shows, or 1 when the id is unknown or no palette colour matches.
     */
    method GetVertexColorNumber(v: int) returns (n: int)
      ensures 1 <= n <= 4
      ensures n == if v in vertices then MatchNumber(GraphPalette, vertices[v].color) else 1
    {
      if v in vertices {
        var c := vertices[v].color;
        for num := 1 to |GraphPalette| + 1
          invariant forall k :: 0 <= k < num - 1 ==> GraphPalette[k] != c
        {
          if GraphPalette[num - 1] == c {
            return num;
          }
        }
      }
      return 1;
    }

    /** Every check of validate_graph_structure passes. */
    ghost predicate StructureSound()
      reads this
    {
      Sound(periphery, edges, vertices.Keys, |vertices|)
    }

    /**
     * validate_graph_structure: the missing periphery ids in periphery
     * order, then every missing edge end point once per edge end (in set
     * iteration order), then the triangulation hint. The list is empty
     * exactly when the structure is sound, and a triangulated graph has none.
     */
    method ValidateGraphStructure() returns (issues: seq<Issue>)
      ensures IssueReport(issues, periphery, edges, vertices.Keys, |vertices|)
      ensures issues == [] <==> StructureSound()
      ensures Valid() ==> issues == TriangulationHint(|vertices|, |edges|, |periphery|)
      ensures Triangulated() ==> issues == []
    {
      var front := MissingPeripheryIds(periphery, vertices);
      var middle := MissingEdgeEnds(edges, vertices);
      var expected := 3 * |vertices| - 3 - |periphery|;
      var hint := [];
      if |vertices| > 2 {
        if |edges| < expected {
          hint := [MaybeNotTriangulated(expected, |edges|)];
        }
      }
      issues := front + middle + hint;
      ghost var keys := vertices.Keys;
      AssembleReport(front, middle, issues, periphery, edges, keys, |vertices|);
      ReportEmptyIffSound(issues, periphery, edges, keys, |vertices|);
      if Valid() {
        assert |vertices| == |keys|;
        ReportOfValid(issues, periphery, edges, keys, nextVertexId);
      }
    }

    /**
     * get_graph_statistics: the counts, the number of issues
     * validate_graph_structure reports and, when there are vertices and
     * edges, the average, largest and smallest degree over the ids that are
     * end points of some edge.
     */
    method GetGraphStatistics() returns (s: Statistics)
      ensures s.vertices == |vertices| && s.edges == |edges| && s.peripherySize == |periphery|
      ensures s.interiorVertices == |vertices| - |periphery|
      ensures s.validationIssues ==
        |PeripheryIssues(periphery, vertices.Keys)| + DanglingCount(edges, vertices.Keys)
          + |TriangulationHint(|vertices|, |edges|, |periphery|)|
      ensures s.validationIssues == 0 <==> StructureSound()
      ensures s.degrees.Some? <==> |vertices| > 0 && |edges| > 0
      ensures s.degrees.Some? ==> DescribesDegrees(s.degrees.value, edges)
      ensures Valid() ==> s.interiorVertices >= 0
      ensures Triangulated() ==> s.validationIssues == 0 && s.degrees.Some?
    {
      var issues := ValidateGraphStructure();
      var summary := None;
      if |vertices| > 0 {
        summary := DegreeFigures(edges);
      }
      s := Statistics(|vertices|, |edges|, |periphery|, |vertices| - |periphery|, |issues|, summary);
      if Valid() {
        assert |vertices| == |vertices.Keys|;
        PeripheryFits(vertices.Keys, edges, periphery, nextVertexId);
        // Triangulated, 3 <= len(periphery) <= #V gives #E = 3#V - 3 - len(periphery) >= 2#V - 3 > 0.
      }
    }

    /** The first step of generate_large_graph: start_basic_graph, with what the rest relies on. */
    method Restart()
      modifies this
      ensures Triangulated() && RecordsValid() && ShowsCycleColours()
      ensures vertices.Keys == {1, 2, 3} && periphery == [1, 2, 3] && edges == {(1, 2), (2, 3), (1, 3)}
      ensures |vertices| == 3 && nextVertexId == 4
    {
      StartBasicGraph();
      BasicTriangleColours(vertices);
      assert |vertices| == |vertices.Keys|;
    }

    /** The loop of generate_large_graph: one add_random_vertex call for each i in 4..target. */
    method AddVerticesUpTo(target: int, picks: seq<RandomPick>)
      requires Triangulated() && ShowsCycleColours() && |vertices| == 3 && nextVertexId == 4
      requires |picks| >= target - 3
      modifies this
      ensures Triangulated() && ShowsCycleColours()
      ensures |vertices| == (if target < 4 then 3 else target) && nextVertexId == |vertices| + 1
    {
      var i := 4;
      while i <= target
        invariant 4 <= i && (i <= target + 1 || i == 4)
        invariant Triangulated()
        invariant |vertices| == i - 1 && nextVertexId == i
        invariant ShowsCycleColours()
      {
        // i % batch_size picks the passes that print progress and redraw;
        // redrawing only moves positions.
        var pick := picks[i - 4];
        ghost var before := vertices;
        var outcome := AddRandomVertex(pick.first, pick.second, pick.pos);
        MapGrows(before, vertices, outcome.id);
        i := i + 1;
      }
    }

    /**
     * generate_large_graph(target), with picks standing for the random draws
     * and computed positions of the successive add_random_vertex calls:
     * restart from the basic triangle and add one vertex for each of 4..target.
     * For 4 <= target < 20 the batch size is 0 and i % batch_size raises
     * ZeroDivisionError on the first pass, leaving the basic triangle.
     */
    method GenerateLargeGraph(target: int, picks: seq<RandomPick>) returns (r: GenerateOutcome)
      requires |picks| >= target - 3
      modifies this
      ensures Triangulated()
      ensures r == DivisionByZero <==> 4 <= target < 20
      ensures r == DivisionByZero ==>
        vertices.Keys == {1, 2, 3} && periphery == [1, 2, 3] && edges == {(1, 2), (2, 3), (1, 3)} && nextVertexId == 4
      ensures r.Generated? ==> |vertices| == (if target < 4 then 3 else target) && nextVertexId == |vertices| + 1
      ensures r.Generated? ==> |edges| == 3 * |vertices| - 3 - |periphery|
      ensures r.Generated? ==>
        && r.stats.vertices == |vertices| && r.stats.edges == |edges| && r.stats.peripherySize == |periphery|
        && r.stats.interiorVertices == |vertices| - |periphery| && r.stats.validationIssues == 0
      ensures r.Generated? ==> r.stats.degrees.Some? && DescribesDegrees(r.stats.degrees.value, edges)
      ensures RecordsValid() && ShowsCycleColours()
    {
      Restart();
      var batchSize := if 50 < target / 20 then 50 else target / 20;
      if 4 <= target && batchSize == 0 {
        // The loop's first pass evaluates 4 % batch_size.
        return DivisionByZero;
      }
      AddVerticesUpTo(target, picks);
      var stats := GetGraphStatistics();
      r := Generated(stats);
      CycleColouredIsValid(vertices);
    }
  }

  /**
   * Every check of validate_graph_structure passes: the periphery and the
   * edge end points are existing ids, and with more than two vertices there
   * are at least 3|V| - 3 - |periphery| edges.
   */
  ghost predicate Sound(p: seq<int>, edges: set<(int, int)>, keys: set<int>, vertexCount: int)
  {
    && (forall v :: v in p ==> v in keys)
    && (forall e :: e in edges ==> e.0 in keys && e.1 in keys)
    && !(vertexCount > 2 && |edges| < 3 * vertexCount - 3 - |p|)
  }

  /** The first loop of validate_graph_structure: the periphery ids with no vertex, in periphery order. */
  method MissingPeripheryIds(periphery: seq<int>, vertices: map<int, Vertex>) returns (issues: seq<Issue>)
    ensures issues == PeripheryIssues(periphery, vertices.Keys)
  {
    issues := [];
    for k := 0 to |periphery|
      invariant issues == PeripheryIssues(periphery[..k], vertices.Keys)
    {
      PeripheryIssuesStep(periphery, k, vertices.Keys);
      if periphery[k] !in vertices {
        issues := issues + [MissingPeripheryVertex(periphery[k])];
      }
    }
    assert periphery[..|periphery|] == periphery;
  }

  /**
   * The second loop of validate_graph_structure: for every edge (v1, v2),
   * in set iteration order, v1 and then v2 when it has no vertex.
   */
  method MissingEdgeEnds(edges: set<(int, int)>, vertices: map<int, Vertex>) returns (issues: seq<Issue>)
    ensures |issues| == DanglingCount(edges, vertices.Keys)
    ensures EdgeIssues(issues, edges, vertices.Keys)
  {
    ghost var keys := vertices.Keys;
    issues := [];
    var rest := edges;
    ghost var done := {};
    EdgeIssuesEmpty(keys);
    while exists e :: e in rest
      invariant rest + done == edges && rest !! done
      invariant |issues| == DanglingCount(done, keys)
      invariant EdgeIssues(issues, done, keys)
      decreases |rest|
    {
      var e :| e in rest;
      var v1, v2 := e.0, e.1;
      var found := (if v1 in vertices then [] else [MissingEdgeEndpoint(v1)])
        + (if v2 in vertices then [] else [MissingEdgeEndpoint(v2)]);
      assert found == EdgeEndIssues(e, keys);
      EdgeLoopStep(issues, done, e, keys);
      issues := issues + found;
      MoveOne(rest, done, e);
      rest, done := rest - {e}, done + {e};
    }
  }

  /** One pass of the edge loop keeps the count and the per-id tally of the reported end points. */
  lemma EdgeLoopStep(issues: seq<Issue>, done: set<(int, int)>, e: (int, int), keys: set<int>)
    requires e !in done
    requires |issues| == DanglingCount(done, keys) && EdgeIssues(issues, done, keys)
    ensures |issues + EdgeEndIssues(e, keys)| == DanglingCount(done + {e}, keys)
    ensures EdgeIssues(issues + EdgeEndIssues(e, keys), done + {e}, keys)
  {
    DanglingStep(done, e, keys);
    EdgeIssuesStep(issues, done, e, keys);
  }

  /**
   * The shape of validate_graph_structure's list: the periphery issues, then
   * the edge end point issues, then the triangulation hint.
   */
  ghost predicate IssueReport(issues: seq<Issue>, p: seq<int>, edges: set<(int, int)>, keys: set<int>, vertexCount: int)
  {
    var front := PeripheryIssues(p, keys);
    var hint := TriangulationHint(vertexCount, |edges|, |p|);
    && |issues| == |front| + DanglingCount(edges, keys) + |hint|
    && issues[..|front|] == front
    && EdgeIssues(issues[|front|..|issues| - |hint|], edges, keys)
    && issues[|issues| - |hint|..] == hint
  }

  /** The three parts, put together, make the report. */
  lemma AssembleReport(front: seq<Issue>, middle: seq<Issue>, issues: seq<Issue>,
                       p: seq<int>, edges: set<(int, int)>, keys: set<int>, vertexCount: int)
    requires front == PeripheryIssues(p, keys)
    requires |middle| == DanglingCount(edges, keys) && EdgeIssues(middle, edges, keys)
    requires issues == front + middle + TriangulationHint(vertexCount, |edges|, |p|)
    ensures IssueReport(issues, p, edges, keys, vertexCount)
  {
    var hint := TriangulationHint(vertexCount, |edges|, |p|);
    assert issues[..|front|] == front;
    assert issues[|front|..|issues| - |hint|] == middle;
    assert issues[|issues| - |hint|..] == hint;
  }

  /** A report is empty exactly when every check passes. */
  lemma ReportEmptyIffSound(issues: seq<Issue>, p: seq<int>, edges: set<(int, int)>, keys: set<int>, vertexCount: int)
    requires IssueReport(issues, p, edges, keys, vertexCount)
    ensures issues == [] <==> Sound(p, edges, keys, vertexCount)
  {
    PeripheryIssuesEmpty(p, keys);
    NoDanglingEnds(edges, keys);
  }

  /** Over a valid topology only the triangulation hint can be reported, and over a triangulated one nothing. */
  lemma ReportOfValid(issues: seq<Issue>, p: seq<int>, edges: set<(int, int)>, keys: set<int>, nextId: int)
    requires TopologyValid(keys, edges, p, nextId) && IssueReport(issues, p, edges, keys, |keys|)
    ensures issues == TriangulationHint(|keys|, |edges|, |p|)
    ensures TopologyTriangulated(keys, edges, p, nextId) ==> issues == []
  {
    PeripheryIssuesEmpty(p, keys);
    NoDanglingEnds(edges, keys);
    var hint := TriangulationHint(|keys|, |edges|, |p|);
    assert issues == issues[|issues| - |hint|..];
  }

  /** The loop of add_vertex_to_periphery that adds sorted((id, v)) for every arc id v. */
  method AddFan(edges: set<(int, int)>, arc: seq<int>, id: int) returns (more: set<(int, int)>)
    ensures more == edges + Fan(arc, id)
  {
    more := edges;
    for k := 0 to |arc|
      invariant more == edges + Fan(arc[..k], id)
    {
      FanStep(arc[..k], arc[k], id);
      assert arc[..k + 1] == arc[..k] + [arc[k]];
      more := more + {SortedPair(id, arc[k])};
    }
    assert arc[..|arc|] == arc;
  }
}
