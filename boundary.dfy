/**
 * The periphery (outer boundary) of the triangulation as a cyclic sequence of
 * vertex ids, the arc a new vertex is attached to, and the splice that
 * rewrites the periphery afterwards.
 */
module Boundary {
  import opened Sequences

  /** tuple(sorted((a, b))): the canonical form of the undirected edge {a, b}. */
  function SortedPair(a: int, b: int): (e: (int, int))
    ensures e.0 <= e.1
    ensures (e.0 == a && e.1 == b) || (e.0 == b && e.1 == a)
  {
    if a <= b then (a, b) else (b, a)
  }

  /** The id that follows position k when the periphery is read as a cycle. */
  function CyclicNext(p: seq<int>, k: nat): int
    requires k < |p|
  {
    if k + 1 < |p| then p[k + 1] else p[0]
  }

  /** Every pair of cyclically consecutive periphery ids is joined by an edge. */
  ghost predicate BoundaryClosed(p: seq<int>, edges: set<(int, int)>)
  {
    forall k {:trigger CyclicNext(p, k)} :: 0 <= k < |p| ==> SortedPair(p[k], CyclicNext(p, k)) in edges
  }

  /**
   * The arc from position i to position j: the forward slice when i < j,
   * otherwise the slice that wraps past the end of the list.
   */
  function Arc(p: seq<int>, i: nat, j: nat): (arc: seq<int>)
    requires i < |p| && j < |p|
    ensures i != j ==> 2 <= |arc| <= |p| && arc[0] == p[i] && arc[|arc| - 1] == p[j]
    ensures |arc| == if i < j then j - i + 1 else |p| - i + j + 1
  {
    if i < j then p[i..j + 1] else p[i..] + p[..j + 1]
  }

  /** The arc without its two end points: the ids that leave the periphery. */
  function Interior(arc: seq<int>): (r: seq<int>)
    requires |arc| >= 2
    ensures |r| == |arc| - 2 && arc == [arc[0]] + r + [arc[|arc| - 1]]
    ensures forall v :: v in r ==> v in arc
  {
    arc[1..|arc| - 1]
  }

  /** [v for v in s if v not in xs] */
  function RemoveAll(s: seq<int>, xs: seq<int>): (r: seq<int>)
    ensures |r| <= |s|
    ensures forall v :: v in xs ==> v !in r
  {
    if s == [] then []
    else if s[0] in xs then RemoveAll(s[1..], xs)
    else [s[0]] + RemoveAll(s[1..], xs)
  }

  /** list.insert(list.index(x) + 1, n) */
  function InsertAfter(s: seq<int>, x: int, n: int): (r: seq<int>)
    requires x in s
    ensures multiset(r) == multiset(s) + multiset{n}
  {
    var k := IndexOf(s, x);
    assert s == s[..k + 1] + s[k + 1..];
    s[..k + 1] + [n] + s[k + 1..]
  }

  /**
   * The periphery after attaching n to the arc from p[i] to p[j], in closed
   * form: for a forward arc the ids strictly between p[i] and p[j] give way
   * to n; for a wrapping arc everything after p[i] and before p[j] is
   * dropped and n closes the cycle. SpliceIsNewPeriphery shows that the
   * remove-then-insert steps of add_vertex_to_periphery compute exactly this.
   */
  function NewPeriphery(p: seq<int>, i: nat, j: nat, n: int): seq<int>
    requires i < |p| && j < |p| && i != j
  {
    if i < j then p[..i + 1] + [n] + p[j..] else p[j..i + 1] + [n]
  }

  /** The edges fanned from n to every arc id. */
  function Fan(arc: seq<int>, n: int): (r: set<(int, int)>)
    ensures forall v :: v in arc ==> SortedPair(n, v) in r
    ensures forall e :: e in r ==> e.0 == n || e.1 == n
  {
    set v | v in arc :: SortedPair(n, v)
  }

  lemma {:induction false} RemoveAllAppend(a: seq<int>, b: seq<int>, xs: seq<int>)
    ensures RemoveAll(a + b, xs) == RemoveAll(a, xs) + RemoveAll(b, xs)
  {
    if a == [] {
      assert a + b == b;
    } else {
      assert (a + b)[0] == a[0];
      assert (a + b)[1..] == a[1..] + b;
      RemoveAllAppend(a[1..], b, xs);
    }
  }

  lemma RemoveAllThree(a: seq<int>, b: seq<int>, c: seq<int>, xs: seq<int>)
    ensures RemoveAll(a + b + c, xs) == RemoveAll(a, xs) + RemoveAll(b, xs) + RemoveAll(c, xs)
  {
    RemoveAllAppend(a + b, c, xs);
    RemoveAllAppend(a, b, xs);
  }

  /** Removing exactly the middle part's ids from three parts leaves the outer two. */
  lemma RemoveMiddle(a: seq<int>, b: seq<int>, c: seq<int>, xs: seq<int>)
    requires forall v :: v in a ==> v !in xs
    requires forall v :: v in b ==> v in xs
    requires forall v :: v in c ==> v !in xs
    ensures RemoveAll(a + b + c, xs) == a + c
  {
    RemoveAllThree(a, b, c, xs);
    assert RemoveAll(a, xs) == a by { RemoveAllKeeps(a, xs); }
    assert RemoveAll(b, xs) == [] by { RemoveAllDrops(b, xs); }
    assert RemoveAll(c, xs) == c by { RemoveAllKeeps(c, xs); }
  }

  /** Removing exactly the outer parts' ids from three parts leaves the middle one. */
  lemma RemoveEnds(a: seq<int>, b: seq<int>, c: seq<int>, xs: seq<int>)
    requires forall v :: v in a ==> v in xs
    requires forall v :: v in b ==> v !in xs
    requires forall v :: v in c ==> v in xs
    ensures RemoveAll(a + b + c, xs) == b
  {
    RemoveAllThree(a, b, c, xs);
    assert RemoveAll(a, xs) == [] by { RemoveAllDrops(a, xs); }
    assert RemoveAll(b, xs) == b by { RemoveAllKeeps(b, xs); }
    assert RemoveAll(c, xs) == [] by { RemoveAllDrops(c, xs); }
  }

  lemma {:induction false} RemoveAllKeeps(a: seq<int>, xs: seq<int>)
    requires forall v :: v in a ==> v !in xs
    ensures RemoveAll(a, xs) == a
  {
    if a != [] {
      var head := a[0];
      assert head in a;
      assert head !in xs;
      assert forall v :: v in a[1..] ==> v in a;
      RemoveAllKeeps(a[1..], xs);
      assert a == [a[0]] + a[1..];
    }
  }

  lemma {:induction false} RemoveAllDrops(a: seq<int>, xs: seq<int>)
    requires forall v :: v in a ==> v in xs
    ensures RemoveAll(a, xs) == []
  {
    if a != [] {
      var head := a[0];
      assert head in a;
      assert head in xs;
      assert forall v :: v in a[1..] ==> v in a;
      RemoveAllDrops(a[1..], xs);
      assert RemoveAll(a, xs) == RemoveAll(a[1..], xs);
    }
  }

  lemma SplitThree(p: seq<int>, a: nat, b: nat)
    requires a <= b <= |p|
    ensures p == p[..a] + p[a..b] + p[b..]
  {
  }

  /** Slices of a duplicate-free sequence over disjoint index ranges share no value. */
  lemma SlicesDisjoint(p: seq<int>, a: nat, b: nat, c: nat, d: nat)
    requires NoDuplicates(p) && a <= b <= |p| && c <= d <= |p|
    requires b <= c || d <= a
    ensures forall v :: v in p[a..b] ==> v !in p[c..d]
  {
    forall v | v in p[a..b] ensures v !in p[c..d] {
      var k :| 0 <= k < b - a && p[a..b][k] == v;
      forall m | 0 <= m < d - c ensures p[c..d][m] != v {
        assert p[c..d][m] == p[c + m] && v == p[a + k];
      }
    }
  }

  /** Removing the interior of a forward arc keeps the ids up to p[i] and from p[j] on. */
  lemma KeptShapeForward(p: seq<int>, i: nat, j: nat)
    requires i < j < |p| && NoDuplicates(p)
    ensures RemoveAll(p, Interior(Arc(p, i, j))) == p[..i + 1] + p[j..]
  {
    var inner := ForwardInterior(p, i, j);
    var before, middle, after := p[..i + 1], p[i + 1..j], p[j..];
    SplitThree(p, i + 1, j);
    OutsideKept(p, i, j, inner);
    RemoveMiddle(before, middle, after, inner);
  }

  lemma ForwardInterior(p: seq<int>, i: nat, j: nat) returns (inner: seq<int>)
    requires i < j < |p|
    ensures inner == Interior(Arc(p, i, j)) == p[i + 1..j]
  {
    var arc := Arc(p, i, j);
    assert arc == p[i..j + 1];
    inner := Interior(arc);
    assert |inner| == j - i - 1;
    assert forall k :: 0 <= k < |inner| ==> inner[k] == arc[k + 1] == p[i + 1 + k];
  }

  lemma OutsideKept(p: seq<int>, i: nat, j: nat, inner: seq<int>)
    requires i < j < |p| && NoDuplicates(p) && inner == p[i + 1..j]
    ensures forall v :: v in p[..i + 1] ==> v !in inner
    ensures forall v :: v in p[j..] ==> v !in inner
  {
    SlicesDisjoint(p, 0, i + 1, i + 1, j);
    SlicesDisjoint(p, j, |p|, i + 1, j);
    assert p[0..i + 1] == p[..i + 1] && p[j..|p|] == p[j..];
  }

  /** Removing the interior of a wrapping arc keeps exactly the ids from p[j] to p[i]. */
  lemma KeptShapeWrap(p: seq<int>, i: nat, j: nat)
    requires j < i < |p| && NoDuplicates(p)
    ensures RemoveAll(p, Interior(Arc(p, i, j))) == p[j..i + 1]
  {
    var inner := WrapInterior(p, i, j);
    var before, middle, after := p[..j], p[j..i + 1], p[i + 1..];
    SplitThree(p, j, i + 1);
    MiddleKept(p, i, j, inner);
    RemoveEnds(before, middle, after, inner);
  }

  lemma WrapInterior(p: seq<int>, i: nat, j: nat) returns (inner: seq<int>)
    requires j < i < |p|
    ensures inner == Interior(Arc(p, i, j)) == p[i + 1..] + p[..j]
  {
    var arc := Arc(p, i, j);
    assert arc == p[i..] + p[..j + 1];
    inner := Interior(arc);
    assert |inner| == |p| - i - 1 + j;
    assert forall k :: 0 <= k < |inner| ==> inner[k] == arc[k + 1];
  }

  lemma MiddleKept(p: seq<int>, i: nat, j: nat, inner: seq<int>)
    requires j < i < |p| && NoDuplicates(p) && inner == p[i + 1..] + p[..j]
    ensures forall v :: v in p[j..i + 1] ==> v !in inner
  {
    SlicesDisjoint(p, j, i + 1, i + 1, |p|);
    SlicesDisjoint(p, j, i + 1, 0, j);
    assert p[i + 1..|p|] == p[i + 1..] && p[0..j] == p[..j];
  }

  lemma KeptShape(p: seq<int>, i: nat, j: nat)
    requires i < |p| && j < |p| && i != j && NoDuplicates(p)
    ensures RemoveAll(p, Interior(Arc(p, i, j))) == if i < j then p[..i + 1] + p[j..] else p[j..i + 1]
  {
    if i < j {
      KeptShapeForward(p, i, j);
    } else {
      KeptShapeWrap(p, i, j);
    }
  }

  /**
   * The splice as add_vertex_to_periphery performs it: dropping the arc's
   * interior ids keeps p[i], and inserting n right after p[i] in what is
   * kept yields NewPeriphery.
   */
  lemma SpliceIsNewPeriphery(p: seq<int>, i: nat, j: nat, n: int)
    requires i < |p| && j < |p| && i != j && NoDuplicates(p)
    ensures var kept := RemoveAll(p, Interior(Arc(p, i, j)));
      p[i] in kept && InsertAfter(kept, p[i], n) == NewPeriphery(p, i, j, n)
  {
    KeptShape(p, i, j);
    if i < j {
      SpliceForward(p, i, j, n);
    } else {
      SpliceWrap(p, i, j, n);
    }
  }

  lemma SpliceForward(p: seq<int>, i: nat, j: nat, n: int)
    requires i < j < |p| && NoDuplicates(p)
    ensures var kept := p[..i + 1] + p[j..];
      p[i] in kept && InsertAfter(kept, p[i], n) == p[..i + 1] + [n] + p[j..]
  {
    var kept := p[..i + 1] + p[j..];
    assert kept[i] == p[i];
    forall m | 0 <= m < i ensures kept[m] != kept[i] {
      assert kept[m] == p[m];
    }
    InsertAfterAt(kept, i, n);
    assert kept[..i + 1] == p[..i + 1];
    assert kept[i + 1..] == p[j..];
  }

  lemma SpliceWrap(p: seq<int>, i: nat, j: nat, n: int)
    requires j < i < |p| && NoDuplicates(p)
    ensures var kept := p[j..i + 1];
      p[i] in kept && InsertAfter(kept, p[i], n) == p[j..i + 1] + [n]
  {
    var kept := p[j..i + 1];
    assert kept[i - j] == p[i];
    forall m | 0 <= m < i - j ensures kept[m] != kept[i - j] {
      assert kept[m] == p[j + m];
    }
    InsertAfterAt(kept, i - j, n);
    assert kept[..i - j + 1] == kept;
  }

  /** Inserting after the first occurrence of s[k] inserts at position k + 1. */
  lemma InsertAfterAt(s: seq<int>, k: nat, n: int)
    requires k < |s| && forall m :: 0 <= m < k ==> s[m] != s[k]
    ensures s[k] in s && InsertAfter(s, s[k], n) == s[..k + 1] + [n] + s[k + 1..]
  {
    var x := s[k];
    var at := IndexOf(s, x);
    assert at <= k;
    assert at == k;
  }

  /** A slice of a duplicate-free sequence is duplicate-free. */
  lemma SliceDistinct(p: seq<int>, lo: nat, hi: nat)
    requires NoDuplicates(p) && lo <= hi <= |p|
    ensures NoDuplicates(p[lo..hi])
  {
    forall a, b | 0 <= a < b < hi - lo ensures p[lo..hi][a] != p[lo..hi][b] {
      assert p[lo..hi][a] == p[lo + a] && p[lo..hi][b] == p[lo + b];
    }
  }

  /** Joining two duplicate-free sequences with no common value gives a duplicate-free one. */
  lemma ConcatDistinct(a: seq<int>, b: seq<int>)
    requires NoDuplicates(a) && NoDuplicates(b)
    requires forall v :: v in a ==> v !in b
    ensures NoDuplicates(a + b)
  {
    forall x, y | 0 <= x < y < |a + b| ensures (a + b)[x] != (a + b)[y] {
      if y < |a| {
        assert (a + b)[x] == a[x] && (a + b)[y] == a[y];
      } else if x < |a| {
        var u, w := a[x], b[y - |a|];
        assert u in a && w in b;
        assert (a + b)[x] == u && (a + b)[y] == w;
      } else {
        assert (a + b)[x] == b[x - |a|] && (a + b)[y] == b[y - |a|];
      }
    }
  }

  /** An arc between two different positions never repeats an id. */
  lemma ArcDistinct(p: seq<int>, i: nat, j: nat)
    requires i < |p| && j < |p| && i != j && NoDuplicates(p)
    ensures NoDuplicates(Arc(p, i, j))
  {
    if i < j {
      SliceDistinct(p, i, j + 1);
    } else {
      SliceDistinct(p, i, |p|);
      SliceDistinct(p, 0, j + 1);
      SlicesDisjoint(p, i, |p|, 0, j + 1);
      assert p[i..|p|] == p[i..] && p[0..j + 1] == p[..j + 1];
      ConcatDistinct(p[i..], p[..j + 1]);
    }
  }

  /** Every id of a slice is an id of the whole sequence. */
  lemma SliceMembers(p: seq<int>, lo: nat, hi: nat)
    requires lo <= hi <= |p|
    ensures forall v :: v in p[lo..hi] ==> v in p
  {
    forall v | v in p[lo..hi] ensures v in p {
      var k :| 0 <= k < hi - lo && p[lo..hi][k] == v;
      assert p[lo + k] == v;
    }
  }

  /** With a fresh id n, the rewritten periphery never repeats an id. */
  lemma NewPeripheryDistinct(p: seq<int>, i: nat, j: nat, n: int)
    requires i < |p| && j < |p| && i != j && NoDuplicates(p) && n !in p
    ensures NoDuplicates(NewPeriphery(p, i, j, n))
  {
    if i < j {
      var front, back := p[..i + 1], p[j..];
      SliceDistinct(p, 0, i + 1);
      SliceDistinct(p, j, |p|);
      assert p[0..i + 1] == front && p[j..|p|] == back;
      SliceMembers(p, 0, i + 1);
      ConcatDistinct(front, [n]);
      SlicesDisjoint(p, 0, i + 1, j, |p|);
      SliceMembers(p, j, |p|);
      ConcatDistinct(front + [n], back);
    } else {
      var kept := p[j..i + 1];
      SliceDistinct(p, j, i + 1);
      SliceMembers(p, j, i + 1);
      ConcatDistinct(kept, [n]);
    }
  }

  /** The rewritten periphery holds n and exactly the old ids that were not inside the arc. */
  lemma NewPeripheryMembers(p: seq<int>, i: nat, j: nat, n: int)
    requires i < |p| && j < |p| && i != j && NoDuplicates(p)
    ensures forall v :: v in NewPeriphery(p, i, j, n) <==> v == n || (v in p && v !in Interior(Arc(p, i, j)))
  {
    var kept := RemoveAll(p, Interior(Arc(p, i, j)));
    SpliceIsNewPeriphery(p, i, j, n);
    RemoveAllMembers(p, Interior(Arc(p, i, j)));
    var k := IndexOf(kept, p[i]);
    assert kept == kept[..k + 1] + kept[k + 1..];
    assert NewPeriphery(p, i, j, n) == kept[..k + 1] + [n] + kept[k + 1..];
  }

  lemma {:induction false} RemoveAllMembers(s: seq<int>, xs: seq<int>)
    ensures forall v :: v in RemoveAll(s, xs) <==> v in s && v !in xs
  {
    if s != [] {
      RemoveAllMembers(s[1..], xs);
      assert s == [s[0]] + s[1..];
    }
  }

  /**
   * The periphery grows by one id for the new vertex and loses the arc's
   * interior, so its length changes by 1 - (|arc| - 2); it always keeps at
   * least three ids.
   */
  lemma NewPeripheryLength(p: seq<int>, i: nat, j: nat, n: int)
    requires i < |p| && j < |p| && i != j && NoDuplicates(p)
    ensures |NewPeriphery(p, i, j, n)| == |p| + 1 - (|Arc(p, i, j)| - 2)
    ensures |NewPeriphery(p, i, j, n)| >= 3
  {
  }

  /**
   * The new id sits immediately after p[i] (list.insert after vp) and,
   * reading the periphery as a cycle, immediately before p[j].
   */
  lemma NewPeripheryPlacement(p: seq<int>, i: nat, j: nat, n: int)
    requires i < |p| && j < |p| && i != j && NoDuplicates(p) && n !in p
    ensures var q := NewPeriphery(p, i, j, n);
      && p[i] in q && n in q
      && IndexOf(q, p[i]) + 1 < |q| && q[IndexOf(q, p[i]) + 1] == n
      && CyclicNext(q, IndexOf(q, n)) == p[j]
  {
    var q := NewPeriphery(p, i, j, n);
    NewPeripheryDistinct(p, i, j, n);
    var at := if i < j then i else i - j;
    assert q[at] == p[i] && q[at + 1] == n;
    IndexOfDistinct(q, at);
    IndexOfDistinct(q, at + 1);
  }

  /**
   * If the old periphery was closed by edges and the two new boundary sides
   * (p[i], n) and (n, p[j]) are edges, the rewritten periphery is closed too.
   */
  lemma NewPeripheryClosed(p: seq<int>, i: nat, j: nat, n: int, edges: set<(int, int)>)
    requires i < |p| && j < |p| && i != j && NoDuplicates(p)
    requires BoundaryClosed(p, edges)
    requires SortedPair(n, p[i]) in edges && SortedPair(n, p[j]) in edges
    ensures BoundaryClosed(NewPeriphery(p, i, j, n), edges)
  {
    var q := NewPeriphery(p, i, j, n);
    forall k | 0 <= k < |q| ensures SortedPair(q[k], CyclicNext(q, k)) in edges {
      if i < j {
        ClosedForwardStep(p, i, j, n, edges, q, k);
      } else {
        ClosedWrapStep(p, i, j, n, edges, q, k);
      }
    }
  }

  lemma ClosedForwardStep(p: seq<int>, i: nat, j: nat, n: int, edges: set<(int, int)>, q: seq<int>, k: nat)
    requires i < j < |p| && BoundaryClosed(p, edges)
    requires SortedPair(n, p[i]) in edges && SortedPair(n, p[j]) in edges
    requires q == p[..i + 1] + [n] + p[j..] && k < |q|
    ensures SortedPair(q[k], CyclicNext(q, k)) in edges
  {
    if k < i {
      ForwardFrontStep(p, i, j, n, q, k);
    } else if k == i {
      assert q[k] == p[i] && CyclicNext(q, k) == n;
    } else if k == i + 1 {
      assert q[k] == n && CyclicNext(q, k) == p[j];
    } else {
      ForwardBackStep(p, i, j, n, q, k);
      var m := k - i - 2 + j;
      var a, b := p[m], CyclicNext(p, m);
      assert SortedPair(a, b) in edges;  // the old boundary's side from p[m]
    }
  }

  /** Before p[i], the new periphery reads like the old one. */
  lemma ForwardFrontStep(p: seq<int>, i: nat, j: nat, n: int, q: seq<int>, k: nat)
    requires i < j < |p| && q == p[..i + 1] + [n] + p[j..] && k < i
    ensures q[k] == p[k] && CyclicNext(q, k) == CyclicNext(p, k)
  {
    assert q[k + 1] == p[k + 1];
  }

  /** From p[j] on, the new periphery reads like the old one, shifted. */
  lemma ForwardBackStep(p: seq<int>, i: nat, j: nat, n: int, q: seq<int>, k: nat)
    requires i < j < |p| && q == p[..i + 1] + [n] + p[j..] && i + 1 < k < |q|
    ensures var m := k - i - 2 + j;
      m < |p| && q[k] == p[m] && CyclicNext(q, k) == CyclicNext(p, m)
  {
    var m := k - i - 2 + j;
    assert q[k] == p[m];
    if k + 1 < |q| {
      assert q[k + 1] == p[m + 1];
    }
  }

  lemma ClosedWrapStep(p: seq<int>, i: nat, j: nat, n: int, edges: set<(int, int)>, q: seq<int>, k: nat)
    requires j < i < |p| && BoundaryClosed(p, edges)
    requires SortedPair(n, p[i]) in edges && SortedPair(n, p[j]) in edges
    requires q == p[j..i + 1] + [n] && k < |q|
    ensures SortedPair(q[k], CyclicNext(q, k)) in edges
  {
    if k < i - j {
      WrapKeptStep(p, i, j, n, q, k);
      var m := j + k;
      var a, b := p[m], CyclicNext(p, m);
      assert SortedPair(a, b) in edges;  // the old boundary's side from p[m]
    } else if k == i - j {
      assert q[k] == p[i] && CyclicNext(q, k) == n;
    } else {
      assert q[k] == n && CyclicNext(q, k) == p[j];
    }
  }

  /** Between p[j] and p[i], the new periphery reads like the old one, shifted. */
  lemma WrapKeptStep(p: seq<int>, i: nat, j: nat, n: int, q: seq<int>, k: nat)
    requires j < i < |p| && q == p[j..i + 1] + [n] && k < i - j
    ensures q[k] == p[j + k] && CyclicNext(q, k) == CyclicNext(p, j + k)
  {
    assert q[k + 1] == p[j + k + 1];
  }

  /** Every arc id is a periphery id. */
  lemma ArcMembers(p: seq<int>, i: nat, j: nat)
    requires i < |p| && j < |p|
    ensures forall v :: v in Arc(p, i, j) ==> v in p
  {
    if i < j {
      SliceMembers(p, i, j + 1);
    } else {
      SliceMembers(p, i, |p|);
      SliceMembers(p, 0, j + 1);
      assert p[i..|p|] == p[i..] && p[0..j + 1] == p[..j + 1];
    }
  }

  /** Fanning to one more id adds exactly its edge. */
  lemma FanStep(s: seq<int>, x: int, n: int)
    ensures Fan(s + [x], n) == Fan(s, n) + {SortedPair(n, x)}
  {
    assert forall v :: v in s + [x] <==> v in s || v == x;
  }

  /** A fan from a fresh id to k distinct ids consists of k distinct edges. */
  lemma {:induction false} FanCard(s: seq<int>, n: int)
    requires NoDuplicates(s)
    ensures |Fan(s, n)| == |s|
  {
    if s != [] {
      var init, last := s[..|s| - 1], s[|s| - 1];
      assert s == init + [last];
      assert NoDuplicates(init) by {
        SliceDistinct(s, 0, |s| - 1);
        assert s[0..|s| - 1] == init;
      }
      FanCard(init, n);
      FanStep(init, last, n);
      assert SortedPair(n, last) !in Fan(init, n) by {
        forall v | v in init ensures SortedPair(n, v) != SortedPair(n, last) {
          var k :| 0 <= k < |init| && init[k] == v;
          assert s[k] == v && s[|s| - 1] == last;
        }
      }
    }
  }

  /** More edges never open a closed boundary. */
  lemma BoundaryClosedMono(p: seq<int>, edges: set<(int, int)>, more: set<(int, int)>)
    requires BoundaryClosed(p, edges) && edges <= more
    ensures BoundaryClosed(p, more)
  {
  }

  /** The two calls that illustrate the splice: from [1, 2, 3], (2, 1) gives [1, 2, 4] and (1, 2) gives [1, 4, 2, 3]. */
  lemma NewPeripheryExamples()
    ensures Arc([1, 2, 3], 1, 0) == [2, 3, 1] && NewPeriphery([1, 2, 3], 1, 0, 4) == [1, 2, 4]
    ensures Arc([1, 2, 3], 0, 1) == [1, 2] && NewPeriphery([1, 2, 3], 0, 1, 4) == [1, 4, 2, 3]
  {
    assert [1, 2, 3][..1] == [1];
  }
}
