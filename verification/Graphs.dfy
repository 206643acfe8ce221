/** Directed graphs given as a table of successor lists, and reachability over
    their edges. A node that is only ever mentioned as a successor has no entry
    in the table; it counts as a node without successors. */
module Graphs {

  type Graph<!V(==)> = map<V, seq<V>>

  function Succ<V(==)>(g: Graph<V>, v: V): seq<V> {
    if v in g then g[v] else []
  }

  ghost predicate IsPath<V>(g: Graph<V>, p: seq<V>, x: V, y: V) {
    && |p| > 0 && p[0] == x && p[|p| - 1] == y
    && forall i :: 0 <= i < |p| - 1 ==> p[i + 1] in Succ(g, p[i])
  }

  /** Some path, possibly of length zero, leads from x to y. */
  ghost predicate Reaches<V(!new)>(g: Graph<V>, x: V, y: V) {
    exists p :: IsPath(g, p, x, y)
  }

  ghost predicate Mutual<V(!new)>(g: Graph<V>, x: V, y: V) {
    Reaches(g, x, y) && Reaches(g, y, x)
  }

  /** Every key, and every successor of a key. */
  ghost function Nodes<V(!new)>(g: Graph<V>): set<V> {
    g.Keys + set v, w | v in g.Keys && w in g[v] :: w
  }

  lemma ReachesSelf<V(!new)>(g: Graph<V>, x: V)
    ensures Reaches(g, x, x)
  {
    assert IsPath(g, [x], x, x);
  }

  lemma ReachesStep<V(!new)>(g: Graph<V>, x: V, y: V, z: V)
    requires Reaches(g, x, y) && z in Succ(g, y)
    ensures Reaches(g, x, z)
  {
    var p :| IsPath(g, p, x, y);
    assert IsPath(g, p + [z], x, z);
  }

  lemma ReachesTrans<V(!new)>(g: Graph<V>, x: V, y: V, z: V)
    requires Reaches(g, x, y) && Reaches(g, y, z)
    ensures Reaches(g, x, z)
  {
    var p :| IsPath(g, p, x, y);
    var q :| IsPath(g, q, y, z);
    var r := p + q[1..];
    forall i | 0 <= i < |r| - 1
      ensures r[i + 1] in Succ(g, r[i])
    {
      if i < |p| - 1 {
        assert r[i] == p[i] && r[i + 1] == p[i + 1];
      } else {
        assert r[i] == q[i - (|p| - 1)] && r[i + 1] == q[i - (|p| - 1) + 1];
      }
    }
    assert IsPath(g, r, x, z);
  }

  /** A path that leaves a set does so over some edge; from the far end of that
      edge the goal can still be reached. */
  lemma LeavesSet<V(!new)>(g: Graph<V>, x: V, y: V, s: set<V>) returns (a: V, b: V)
    requires Reaches(g, x, y) && x in s && y !in s
    ensures a in s && b !in s && b in Succ(g, a) && Reaches(g, b, y)
  {
    var p :| IsPath(g, p, x, y);
    var i := 0;
    while p[i + 1] in s
      invariant 0 <= i < |p| - 1 && p[i] in s
      decreases |p| - i
    {
      i := i + 1;
    }
    a, b := p[i], p[i + 1];
    assert IsPath(g, p[i + 1..], b, y);
  }

  /** A set closed under successors contains all that its members reach. */
  lemma ClosedReaches<V(!new)>(g: Graph<V>, s: set<V>, x: V, y: V)
    requires forall v, w :: v in s && w in Succ(g, v) ==> w in s
    requires x in s && Reaches(g, x, y)
    ensures y in s
  {
    if y !in s {
      var a, b := LeavesSet(g, x, y, s);
    }
  }

  /** The nodes are exactly what the keys reach. */
  lemma NodesAreReachable<V(!new)>(g: Graph<V>, v: V)
    ensures v in Nodes(g) <==> exists k :: k in g && Reaches(g, k, v)
  {
    if v in g {
      ReachesSelf(g, v);
    } else if v in Nodes(g) {
      var k, w :| k in g.Keys && w in g[k] && w == v;
      ReachesSelf(g, k);
      ReachesStep(g, k, k, v);
    }
    if exists k :: k in g && Reaches(g, k, v) {
      var k :| k in g && Reaches(g, k, v);
      ClosedReaches(g, Nodes(g), k, v);
    }
  }
}
