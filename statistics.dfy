/**
 * The degree figures of get_graph_statistics: the table of how many edge
 * ends each id has, and its sum, largest and smallest entry.
 */
module GraphStatistics {
  import opened Sequences
  import opened EdgeCounting

  /** avg_degree, max_degree and min_degree; the source's float average is an exact real here. */
  datatype DegreeSummary = DegreeSummary(average: real, maximum: int, minimum: int)

  /** The statistics dictionary; degrees is None when the source leaves the three degree keys out. */
  datatype Statistics = Statistics(
    vertices: int,
    edges: int,
    peripherySize: int,
    interiorVertices: int,
    validationIssues: int,
    degrees: Option<DegreeSummary>)

  datatype Option<T> = None | Some(value: T)

  /**
   * The degrees dictionary: for every edge (v1, v2), in any order, one is
   * added to the entries of v1 and of v2, starting from 0. The result has an
   * entry for exactly the end points, each holding the degree, and the
   * entries add up to twice the number of edges.
   */
  method DegreeTable(edges: set<(int, int)>) returns (degrees: map<int, nat>)
    ensures degrees.Keys == Endpoints(edges)
    ensures forall x :: x in degrees ==> degrees[x] == Degree(edges, x)
    ensures SumOf(degrees) == 2 * |edges|
  {
    degrees := map[];
    var rest, done := edges, {};
    assert Endpoints(done) == {};
    while exists e :: e in rest
      invariant rest + done == edges && rest !! done
      invariant DegreeTableOf(degrees, done)
      decreases |rest|
    {
      var e :| e in rest;
      var v1, v2 := e.0, e.1;
      DegreeTableStep(degrees, done, e);
      degrees := Bump(degrees, v1);
      degrees := Bump(degrees, v2);
      MoveOne(rest, done, e);
      rest, done := rest - {e}, done + {e};
    }
  }

  /** degrees is the table of the edges in done. */
  ghost predicate DegreeTableOf(degrees: map<int, nat>, done: set<(int, int)>)
  {
    && degrees.Keys == Endpoints(done)
    && (forall x :: x in degrees ==> degrees[x] == Degree(done, x))
    && SumOf(degrees) == 2 * |done|
  }

  /** degrees.get(v, 0) + 1, stored back. */
  function Bump(m: map<int, nat>, x: int): (r: map<int, nat>)
    ensures r.Keys == m.Keys + {x} && r[x] == (if x in m then m[x] else 0) + 1
    ensures forall y :: y in m && y != x ==> r[y] == m[y]
  {
    m[x := (if x in m then m[x] else 0) + 1]
  }

  /** Counting one more edge, v1 first and then v2, keeps the table exact. */
  lemma DegreeTableStep(degrees: map<int, nat>, done: set<(int, int)>, e: (int, int))
    requires e !in done && DegreeTableOf(degrees, done)
    ensures DegreeTableOf(Bump(Bump(degrees, e.0), e.1), done + {e})
  {
    TableKeysStep(degrees, done, e);
    TableValuesStep(degrees, done, e);
    TableSumStep(degrees, done, e);
  }

  lemma TableKeysStep(degrees: map<int, nat>, done: set<(int, int)>, e: (int, int))
    requires degrees.Keys == Endpoints(done)
    ensures Bump(Bump(degrees, e.0), e.1).Keys == Endpoints(done + {e})
  {
    EndpointsStep(done, e);
  }

  lemma TableValuesStep(degrees: map<int, nat>, done: set<(int, int)>, e: (int, int))
    requires e !in done && degrees.Keys == Endpoints(done)
    requires forall x :: x in degrees ==> degrees[x] == Degree(done, x)
    ensures var twice := Bump(Bump(degrees, e.0), e.1);
      forall x :: x in twice ==> twice[x] == Degree(done + {e}, x)
  {
    var twice := Bump(Bump(degrees, e.0), e.1);
    forall x | x in twice ensures twice[x] == Degree(done + {e}, x) {
      DegreeStep(done, e, x);
      if x !in degrees {
        EndpointsHavePositiveDegree(done, x);
      }
    }
  }

  lemma TableSumStep(degrees: map<int, nat>, done: set<(int, int)>, e: (int, int))
    requires e !in done && SumOf(degrees) == 2 * |done|
    ensures SumOf(Bump(Bump(degrees, e.0), e.1)) == 2 * |done + {e}|
  {
    var once := Bump(degrees, e.0);
    assert SumOf(once) == SumOf(degrees) + 1 by { SumOfIncrement(degrees, e.0); }
    assert SumOf(Bump(once, e.1)) == SumOf(once) + 1 by { SumOfIncrement(once, e.1); }
    assert |done + {e}| == |done| + 1;
  }

  /**
   * What the three degree entries say about an edge set: the average is twice
   * the edge count over the number of end points, and the largest and the
   * smallest are degrees of end points that bound every other degree.
   */
  ghost predicate DescribesDegrees(d: DegreeSummary, edges: set<(int, int)>)
  {
    && |Endpoints(edges)| > 0
    && d.average == (2 * |edges|) as real / |Endpoints(edges)| as real
    && (exists x :: x in Endpoints(edges) && Degree(edges, x) == d.maximum)
    && (forall x :: x in Endpoints(edges) ==> Degree(edges, x) <= d.maximum)
    && (exists x :: x in Endpoints(edges) && Degree(edges, x) == d.minimum)
    && (forall x :: x in Endpoints(edges) ==> d.minimum <= Degree(edges, x))
  }

  /**
   * The avg_degree, max_degree and min_degree entries: present exactly when
   * the degree table is not empty, which is when there are edges; the
   * average is the table's sum over its size, the largest and smallest are
   * degrees of end points that bound all others.
   */
  method DegreeFigures(edges: set<(int, int)>) returns (figures: Option<DegreeSummary>)
    ensures figures.Some? <==> |edges| > 0
    ensures figures.Some? ==> DescribesDegrees(figures.value, edges)
  {
    var degrees := DegreeTable(edges);
    EndpointsEmpty(edges);
    assert |degrees| == |Endpoints(edges)|;
    if |degrees| > 0 {
      var sum, largest, smallest := Summarize(degrees);
      ghost var most :| most in degrees && degrees[most] == largest;
      ghost var least :| least in degrees && degrees[least] == smallest;
      assert most in Endpoints(edges) && Degree(edges, most) == largest;
      assert least in Endpoints(edges) && Degree(edges, least) == smallest;
      return Some(DegreeSummary(sum as real / |degrees| as real, largest, smallest));
    }
    return None;
  }

  /**
   * sum, max and min of a non-empty table's values, visiting the entries in
   * any order: the sum is SumOf, and the largest and smallest are values the
   * table holds that bound all others.
   */
  method Summarize(degrees: map<int, nat>) returns (sum: nat, largest: nat, smallest: nat)
    requires |degrees| > 0
    ensures sum == SumOf(degrees)
    ensures (exists x :: x in degrees && degrees[x] == largest) && forall x :: x in degrees ==> degrees[x] <= largest
    ensures (exists x :: x in degrees && degrees[x] == smallest) && forall x :: x in degrees ==> smallest <= degrees[x]
  {
    HasKey(degrees);
    var first :| first in degrees.Keys;
    SumOfRemove(degrees, first);
    sum, largest, smallest := degrees[first], degrees[first], degrees[first];
    var rest := degrees - {first};
    while exists k :: k in rest.Keys
      invariant rest.Keys <= degrees.Keys && first !in rest
      invariant forall k :: k in rest ==> rest[k] == degrees[k]
      invariant sum + SumOf(rest) == SumOf(degrees)
      invariant exists x :: x in degrees && degrees[x] == largest
      invariant exists x :: x in degrees && degrees[x] == smallest
      invariant forall x :: x in degrees && x !in rest ==> smallest <= degrees[x] <= largest
      decreases |rest|
    {
      var k :| k in rest.Keys;
      SumOfRemove(rest, k);
      var d := rest[k];
      sum := sum + d;
      if d > largest {
        largest := d;
      }
      if d < smallest {
        smallest := d;
      }
      assert (rest - {k}).Keys == rest.Keys - {k};
      rest := rest - {k};
    }
  }

  /** There are end points exactly when there are edges, so the table is empty exactly when the edge set is. */
  lemma EndpointsEmpty(edges: set<(int, int)>)
    ensures |Endpoints(edges)| > 0 <==> |edges| > 0
  {
    if |edges| > 0 {
      // Not dead code: refuting "no element" gives the verifier a witness for the :| below.
      if forall e :: e !in edges {
        assert false;
      }
      var e :| e in edges;
      var x := e.0;
      assert x in Endpoints(edges);
    } else {
      assert edges == {};
      assert Endpoints(edges) == {};
    }
  }

  /** A table with entries has a key to start from. */
  lemma HasKey(m: map<int, nat>)
    requires |m| > 0
    ensures exists k :: k in m.Keys
  {
    // Not dead code: refuting "no key" is what turns |m| > 0 into an existing key.
    if forall k :: k !in m.Keys {
      assert false;
    }
  }
}
