/**
 * Counting over the unordered edge set: how often an id occurs as an end
 * point (its degree), how many end points are missing from the vertex map,
 * and the sum of a degree table.
 */
module EdgeCounting {

  /** The edges whose first (first == true) or second end point is x. */
  ghost function Ends(edges: set<(int, int)>, x: int, first: bool): set<(int, int)>
  {
    set e | e in edges && (if first then e.0 else e.1) == x
  }

  /** How many times x occurs as an end point of an edge. */
  ghost function Degree(edges: set<(int, int)>, x: int): nat
  {
    |Ends(edges, x, true)| + |Ends(edges, x, false)|
  }

  /** Every id that occurs as an end point of some edge. */
  ghost function Endpoints(edges: set<(int, int)>): set<int>
  {
    (set e | e in edges :: e.0) + (set e | e in edges :: e.1)
  }

  /** The edges whose first (first == true) or second end point is not a key. */
  ghost function Dangling(edges: set<(int, int)>, keys: set<int>, first: bool): set<(int, int)>
  {
    set e | e in edges && (if first then e.0 else e.1) !in keys
  }

  /** How many end points, counted per edge and per side, are not keys. */
  ghost function DanglingCount(edges: set<(int, int)>, keys: set<int>): nat
  {
    |Dangling(edges, keys, true)| + |Dangling(edges, keys, false)|
  }

  /** Adding one more edge adds one to the degree of each of its end points. */
  lemma DegreeStep(done: set<(int, int)>, e: (int, int), x: int)
    requires e !in done
    ensures Degree(done + {e}, x) == Degree(done, x) + (if e.0 == x then 1 else 0) + (if e.1 == x then 1 else 0)
  {
    EndsStep(done, e, x, true);
    EndsStep(done, e, x, false);
  }

  lemma EndsStep(done: set<(int, int)>, e: (int, int), x: int, first: bool)
    requires e !in done
    ensures |Ends(done + {e}, x, first)| == |Ends(done, x, first)| + (if (if first then e.0 else e.1) == x then 1 else 0)
  {
    if (if first then e.0 else e.1) == x {
      assert Ends(done + {e}, x, first) == Ends(done, x, first) + {e};
    } else {
      assert Ends(done + {e}, x, first) == Ends(done, x, first);
    }
  }

  /** Adding one more edge adds one for each of its end points that is not a key. */
  lemma DanglingStep(done: set<(int, int)>, e: (int, int), keys: set<int>)
    requires e !in done
    ensures DanglingCount(done + {e}, keys) ==
      DanglingCount(done, keys) + (if e.0 !in keys then 1 else 0) + (if e.1 !in keys then 1 else 0)
  {
    DanglingSideStep(done, e, keys, true);
    DanglingSideStep(done, e, keys, false);
  }

  lemma DanglingSideStep(done: set<(int, int)>, e: (int, int), keys: set<int>, first: bool)
    requires e !in done
    ensures |Dangling(done + {e}, keys, first)| ==
      |Dangling(done, keys, first)| + (if (if first then e.0 else e.1) !in keys then 1 else 0)
  {
    if (if first then e.0 else e.1) !in keys {
      assert Dangling(done + {e}, keys, first) == Dangling(done, keys, first) + {e};
    } else {
      assert Dangling(done + {e}, keys, first) == Dangling(done, keys, first);
    }
  }

  lemma EndpointsStep(done: set<(int, int)>, e: (int, int))
    ensures Endpoints(done + {e}) == Endpoints(done) + {e.0, e.1}
  {
    assert (set f | f in done + {e} :: f.0) == (set f | f in done :: f.0) + {e.0};
    assert (set f | f in done + {e} :: f.1) == (set f | f in done :: f.1) + {e.1};
  }

  /** The ids that occur as end points are exactly those of positive degree. */
  lemma EndpointsHavePositiveDegree(edges: set<(int, int)>, x: int)
    ensures x in Endpoints(edges) <==> Degree(edges, x) > 0
  {
    if x in Endpoints(edges) {
      var e :| e in edges && (e.0 == x || e.1 == x);
      if e.0 == x {
        assert e in Ends(edges, x, true);
      } else {
        assert e in Ends(edges, x, false);
      }
    }
    if Degree(edges, x) > 0 {
      if |Ends(edges, x, true)| > 0 {
        var e :| e in Ends(edges, x, true);
        assert x == e.0;
      } else {
        var e :| e in Ends(edges, x, false);
        assert x == e.1;
      }
    }
  }

  /** Some key of a map that has one. */
  ghost function Pick(m: map<int, nat>): (k: int)
    requires exists k :: k in m
    ensures k in m
  {
    var k :| k in m; k
  }

  /** The sum of the values of a map. */
  ghost function SumOf(m: map<int, nat>): (s: nat)
    ensures forall k :: k in m ==> m[k] <= s
    decreases |m|
  {
    if !exists k :: k in m then 0
    else
      var k := Pick(m);
      assert |m - {k}| < |m| by { assert (m - {k}).Keys == m.Keys - {k}; }
      assert forall j :: j in m && j != k ==> j in m - {k} && (m - {k})[j] == m[j];
      m[k] + SumOf(m - {k})
  }

  /** A sum over a map may start with any of its keys. */
  lemma {:induction false} SumOfRemove(m: map<int, nat>, k: int)
    requires k in m
    ensures SumOf(m) == m[k] + SumOf(m - {k})
    decreases |m|
  {
    var j := Pick(m);
    if j != k {
      assert (m - {k}).Keys == m.Keys - {k};
      assert (m - {j}).Keys == m.Keys - {j};
      SumOfRemove(m - {j}, k);
      SumOfRemove(m - {k}, j);
      assert (m - {j}) - {k} == (m - {k}) - {j};
    }
  }

  /** Adding one to a map entry (0 when absent), as degrees.get(v, 0) + 1 does, adds one to the sum. */
  lemma SumOfIncrement(m: map<int, nat>, x: int)
    ensures SumOf(m[x := (if x in m then m[x] else 0) + 1]) == SumOf(m) + 1
  {
    var m' := m[x := (if x in m then m[x] else 0) + 1];
    SumOfRemove(m', x);
    assert m' - {x} == m - {x};
    if x in m {
      SumOfRemove(m, x);
    } else {
      assert m - {x} == m;
    }
  }
}
