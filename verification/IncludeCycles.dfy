/** What the tuples of tools/find-includes-cycles.py say of the table of includes itself: walks from file to
    file along the listed includes, and the cycles among them. */
module IncludeCycles {
  import opened Graphs
  import opened Tarjan

  /** Each file of p includes the next one. */
  ghost predicate Walk<V(!new)>(g: Graph<V>, p: seq<V>) {
    |p| > 0 && forall i :: 0 <= i < |p| - 1 ==> p[i] in g && p[i + 1] in g[p[i]]
  }

  ghost predicate WalkBetween<V(!new)>(g: Graph<V>, p: seq<V>, x: V, y: V) {
    Walk(g, p) && p[0] == x && p[|p| - 1] == y
  }

  /** Reaching is walking along the listed includes. */
  lemma ReachesIsWalk<V(!new)>(g: Graph<V>, x: V, y: V)
    ensures Reaches(g, x, y) <==> exists p :: WalkBetween(g, p, x, y)
  {
    if Reaches(g, x, y) {
      var p :| IsPath(g, p, x, y);
      forall i | 0 <= i < |p| - 1
        ensures p[i] in g && p[i + 1] in g[p[i]]
      {
        assert p[i + 1] in Succ(g, p[i]);
      }
      assert WalkBetween(g, p, x, y);
    }
    if exists p :: WalkBetween(g, p, x, y) {
      var p :| WalkBetween(g, p, x, y);
      assert IsPath(g, p, x, y);
    }
  }

  /** A file is listed exactly when a walk leads to it from a key of the table. */
  lemma ListedIsWalked<V(!new)>(g: Graph<V>, r: seq<seq<V>>, v: V)
    requires IsCondensation(g, r)
    ensures (exists i :: 0 <= i < |r| && v in r[i]) <==> exists p, k :: k in g && WalkBetween(g, p, k, v)
  {
    hide Reaches, SinksFirst, IsComponent, Walk;
    assert Listed(r, v) <==> FromKeys(g, v);
    if FromKeys(g, v) {
      var k :| k in g && Reaches(g, k, v);
      ReachesIsWalk(g, k, v);
      var p :| WalkBetween(g, p, k, v);
    }
    if exists p, k :: k in g && WalkBetween(g, p, k, v) {
      var p, k :| k in g && WalkBetween(g, p, k, v);
      ReachesIsWalk(g, k, v);
    }
  }

  /** What a listed file includes lies in its own tuple or in an earlier one. */
  lemma IncludesComeFirst<V(!new)>(g: Graph<V>, r: seq<seq<V>>, i: nat, v: V, w: V)
    requires IsCondensation(g, r) && i < |r| && v in r[i] && v in g && w in g[v]
    ensures exists j :: 0 <= j <= i && w in r[j]
  {
    hide IsComponent;
    assert WalkBetween(g, [v, w], v, w);
    ReachesIsWalk(g, v, w);
    hide Reaches, Walk;
    assert Listed(r, v);
    FollowsKeys(g, v, w);
    assert Listed(r, w);
    var j :| 0 <= j < |r| && w in r[j];
    EarlierReaches(g, r, i, j, v, w);
  }

  lemma FollowsKeys<V(!new)>(g: Graph<V>, v: V, w: V)
    requires FromKeys(g, v) && Reaches(g, v, w)
    ensures FromKeys(g, w)
  {
    hide Reaches;
    var k :| k in g && Reaches(g, k, v);
    ReachesTrans(g, k, v, w);
  }

  lemma EarlierReaches<V(!new)>(g: Graph<V>, r: seq<seq<V>>, i: nat, j: nat, v: V, w: V)
    requires IsCondensation(g, r) && i < |r| && j < |r| && v in r[i] && w in r[j] && Reaches(g, v, w)
    ensures j <= i
  {
    hide Reaches, IsComponent;
  }

  /** A closed walk along the includes through two files or more. */
  ghost predicate Cycle<V(!new)>(g: Graph<V>, c: seq<V>) {
    |c| >= 2 && Walk(g, c) && c[|c| - 1] == c[0] && exists i :: 0 <= i < |c| && c[i] != c[0]
  }

  /** Every cycle lies in one tuple, and that tuple is printed. */
  lemma CyclesArePrinted<V(!new)>(g: Graph<V>, r: seq<seq<V>>, c: seq<V>)
    requires IsCondensation(g, r) && Cycle(g, c)
    ensures exists i :: 0 <= i < |r| && |r[i]| != 1 && forall v :: v in c ==> v in r[i]
  {
    assert c[0] in g;
    ReachesSelf(g, c[0]);
    assert Listed(r, c[0]);
    var i :| 0 <= i < |r| && c[0] in r[i];
    forall v | v in c
      ensures Mutual(g, c[0], v)
    {
      var k :| 0 <= k < |c| && c[k] == v;
      AroundCycle(g, c, k);
    }
    assert IsComponent(g, r[i]);
    var k :| 0 <= k < |c| && c[k] != c[0];
    hide Mutual, Walk, SinksFirst, Listed;
    assert forall v :: v in c ==> v in r[i];
    assert c[k] in c;
    OnlyMember(r[i], c[0]);
  }

  lemma AroundCycle<V(!new)>(g: Graph<V>, c: seq<V>, k: nat)
    requires Cycle(g, c) && k < |c|
    ensures Mutual(g, c[0], c[k])
  {
    assert WalkBetween(g, c[..k + 1], c[0], c[k]);
    assert WalkBetween(g, c[k..], c[k], c[0]);
    ReachesIsWalk(g, c[0], c[k]);
    ReachesIsWalk(g, c[k], c[0]);
  }

  /** Every printed file lies on a cycle. */
  lemma PrintedOnCycle<V(!new)>(g: Graph<V>, r: seq<seq<V>>, i: nat, v: V)
    requires IsCondensation(g, r) && i < |r| && v in r[i] && |r[i]| != 1
    ensures exists c :: Cycle(g, c) && c[0] == v
  {
    assert IsComponent(g, r[i]);
    OnlyMember(r[i], v);
    var w :| w in r[i] && w != v;
    assert Mutual(g, v, w);
    hide IsComponent, Listed, FromKeys, SinksFirst;
    ReachesIsWalk(g, v, w);
    ReachesIsWalk(g, w, v);
    hide Reaches;
    var p :| WalkBetween(g, p, v, w);
    var q :| WalkBetween(g, q, w, v);
    JoinsUp(g, p, q, v, w);
  }

  lemma JoinsUp<V(!new)>(g: Graph<V>, p: seq<V>, q: seq<V>, v: V, w: V)
    requires WalkBetween(g, p, v, w) && WalkBetween(g, q, w, v) && v != w
    ensures Cycle(g, p + q[1..]) && (p + q[1..])[0] == v
  {
    var c := p + q[1..];
    forall i | 0 <= i < |c| - 1
      ensures c[i] in g && c[i + 1] in g[c[i]]
    {
      if i < |p| - 1 {
        assert c[i] == p[i] && c[i + 1] == p[i + 1];
      } else {
        assert c[i] == q[i - (|p| - 1)] && c[i + 1] == q[i - (|p| - 1) + 1];
      }
    }
    assert c[|p| - 1] == w;
  }
}
