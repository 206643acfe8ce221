/** The depth-first search of tools/find-includes-cycles.py.

    `State` is a snapshot of the variables the nested function shares with its
    enclosing one. `Inv` is what holds whenever strongconnect is entered or left;
    `active` is the set of nodes whose call has not returned. */
module Tarjan {
  import opened Graphs

  datatype State<V> = State(index: map<V, nat>, stack: seq<V>, counter: nat, result: seq<seq<V>>)

  ghost predicate Emitted<V>(s: State<V>, v: V) {
    exists i :: 0 <= i < |s.result| && v in s.result[i]
  }

  ghost predicate NoDuplicates<V>(c: seq<V>) {
    forall i, j :: 0 <= i < j < |c| ==> c[i] != c[j]
  }

  /** c lists one whole equivalence class of mutual reachability, once each. */
  ghost predicate IsComponent<V(!new)>(g: Graph<V>, c: seq<V>) {
    && |c| > 0 && NoDuplicates(c)
    && forall v, w :: v in c ==> (w in c <==> Mutual(g, v, w))
  }

  /** Numbers grow along the stack; visited nodes are on the stack or emitted. */
  ghost predicate Shape<V(!new)>(s: State<V>, active: set<V>) {
    && (forall v :: v in s.index ==> s.index[v] < s.counter)
    && (forall i :: 0 <= i < |s.stack| ==> s.stack[i] in s.index)
    && (forall i, j :: 0 <= i < j < |s.stack| ==> s.index[s.stack[i]] < s.index[s.stack[j]])
    && (forall v :: v in active ==> v in s.stack)
    && (forall v :: v in s.index <==> v in s.stack || Emitted(s, v))
    && (forall v :: v in s.stack ==> !Emitted(s, v))
  }

  /** v gets back to an active node no younger than itself. */
  ghost predicate Returns<V(!new)>(g: Graph<V>, s: State<V>, active: set<V>, v: V) {
    exists u :: u in active && u in s.index && v in s.index && s.index[u] <= s.index[v] && Reaches(g, v, u)
  }

  ghost predicate Ordered<V(!new)>(g: Graph<V>, s: State<V>) {
    forall v, w :: v in s.stack && w in s.stack && v in s.index && w in s.index && s.index[v] <= s.index[w] ==> Reaches(g, v, w)
  }

  ghost predicate Anchored<V(!new)>(g: Graph<V>, s: State<V>, active: set<V>) {
    forall v :: v in s.stack ==> Returns(g, s, active, v)
  }

  ghost predicate Explored<V(!new)>(g: Graph<V>, s: State<V>, active: set<V>) {
    forall v, w :: v in s.index && v !in active && w in Succ(g, v) ==> w in s.index
  }

  /** Emitted tuples are components, pairwise disjoint, sinks first. */
  ghost predicate Done<V(!new)>(g: Graph<V>, s: State<V>) {
    && (forall i :: 0 <= i < |s.result| ==> IsComponent(g, s.result[i]))
    && (forall i, j, v :: 0 <= i < j < |s.result| && v in s.result[i] ==> v !in s.result[j])
    && (forall i, v, w :: 0 <= i < |s.result| && v in s.result[i] && w in Succ(g, v) ==> EmittedBy(s, i, w))
  }

  ghost predicate EmittedBy<V>(s: State<V>, i: nat, w: V) {
    exists j :: 0 <= j <= i && j < |s.result| && w in s.result[j]
  }

  ghost predicate Inv<V(!new)>(g: Graph<V>, s: State<V>, active: set<V>) {
    && Shape(s, active)
    && Ordered(g, s)
    && Anchored(g, s, active)
    && Explored(g, s, active)
    && Done(g, s)
    && s.index.Keys <= Nodes(g)
  }

  /** t continues s: nothing visited is renumbered, nothing stacked or emitted is lost. */
  ghost predicate Extends<V>(s: State<V>, t: State<V>) {
    && (forall v :: v in s.index ==> v in t.index && t.index[v] == s.index[v])
    && (forall v :: v in t.index && v !in s.index ==> s.counter <= t.index[v])
    && s.stack <= t.stack && s.result <= t.result && s.counter <= t.counter
  }

  /** What l, the lowlink of `node`, has to do with the part of the stack grown since `base`:
      it is the number of some stacked node that `node` reaches, and no edge (apart from those out
      of `pending`) leads from the new part to an older node with a smaller number. */
  ghost predicate Low<V(!new)>(g: Graph<V>, base: State<V>, t: State<V>, node: V, l: nat, pending: set<V>) {
    && (exists y :: y in t.stack && y in t.index && t.index[y] == l && Reaches(g, node, y))
    && forall v, w :: v in t.stack && v !in base.stack && v !in pending && w in Succ(g, v) && w in base.stack && w in t.index
        ==> l <= t.index[w]
  }

  /** What strongconnect(node) started in `base` leaves behind. */
  ghost predicate Outcome<V(!new)>(g: Graph<V>, base: State<V>, t: State<V>, node: V, l: nat) {
    && node in t.index && t.index[node] == base.counter
    && if t.stack == base.stack then l == base.counter
       else l < base.counter && Low(g, base, t, node, l, {})
  }

  // ---------------------------------------------------------------- facts

  lemma EmittedClosed<V(!new)>(g: Graph<V>, s: State<V>, i: nat, v: V, w: V)
    requires Done(g, s) && EmittedBy(s, i, v) && Reaches(g, v, w)
    ensures EmittedBy(s, i, w)
  {
    var all := set j, x | 0 <= j <= i && j < |s.result| && x in s.result[j] :: x;
    forall a, b | a in all && b in Succ(g, a)
      ensures b in all
    {
      var j :| 0 <= j <= i && j < |s.result| && a in s.result[j];
      assert EmittedBy(s, j, b);
    }
    ClosedReaches(g, all, v, w);
  }

  lemma EmittedClosed'<V(!new)>(g: Graph<V>, s: State<V>, v: V, w: V)
    requires Done(g, s) && Emitted(s, v) && Reaches(g, v, w)
    ensures Emitted(s, w)
  {
    var i :| 0 <= i < |s.result| && v in s.result[i];
    assert EmittedBy(s, i, v);
    EmittedClosed(g, s, i, v, w);
  }

  /** Visiting a fresh node that every active node reaches. */
  function Enter<V>(s: State<V>, node: V): State<V> {
    State(s.index[node := s.counter], s.stack + [node], s.counter + 1, s.result)
  }

  lemma EnterShape<V(!new)>(s: State<V>, active: set<V>, node: V)
    requires Shape(s, active) && node !in s.index
    ensures Shape(Enter(s, node), active + {node})
    ensures Extends(s, Enter(s, node))
  {
    var t := Enter(s, node);
    forall v
      ensures Emitted(t, v) <==> Emitted(s, v)
      ensures v in t.stack <==> v in s.stack || v == node
    {
      assert t.stack[|s.stack|] == node;
    }
  }

  lemma EnterOrdered<V(!new)>(g: Graph<V>, s: State<V>, active: set<V>, node: V)
    requires Shape(s, active) && Ordered(g, s) && Anchored(g, s, active) && node !in s.index
    requires forall u :: u in active ==> Reaches(g, u, node)
    ensures Ordered(g, Enter(s, node))
  {
    hide Reaches;
    var t := Enter(s, node);
    ReachesSelf(g, node);
    forall v, w | v in t.stack && w in t.stack && v in t.index && w in t.index && t.index[v] <= t.index[w]
      ensures Reaches(g, v, w)
    {
      if v != node && w == node {
        assert Returns(g, s, active, v);
        var u :| u in active && u in s.index && Reaches(g, v, u);
        ReachesTrans(g, v, u, node);
      }
    }
  }

  lemma EnterKeeps<V(!new)>(g: Graph<V>, s: State<V>, active: set<V>, node: V)
    requires Inv(g, s, active) && node in Nodes(g) && node !in s.index
    requires forall u :: u in active ==> Reaches(g, u, node)
    ensures Inv(g, Enter(s, node), active + {node})
    ensures Extends(s, Enter(s, node))
    ensures Low(g, s, Enter(s, node), node, s.counter, {node})
  {
    hide Reaches, Done, Ordered, Anchored, Explored, Shape, Extends, Low;
    EnterShape(s, active, node);
    EnterOrdered(g, s, active, node);
    EnterAnchored(g, s, active, node);
    EnterExplored(g, s, active, node);
    EnterLow(g, s, active, node);
    EnterDone(g, s, node);
  }

  lemma EnterAnchored<V(!new)>(g: Graph<V>, s: State<V>, active: set<V>, node: V)
    requires Shape(s, active) && Anchored(g, s, active) && node !in s.index
    ensures Anchored(g, Enter(s, node), active + {node})
  {
    hide Reaches;
    var t := Enter(s, node);
    ReachesSelf(g, node);
    assert t.stack[|s.stack|] == node;
    forall v | v in t.stack
      ensures Returns(g, t, active + {node}, v)
    {
      if v in s.stack {
        assert Returns(g, s, active, v);
      }
    }
  }

  lemma EnterExplored<V(!new)>(g: Graph<V>, s: State<V>, active: set<V>, node: V)
    requires Explored(g, s, active)
    ensures Explored(g, Enter(s, node), active + {node})
  {
  }

  lemma EnterLow<V(!new)>(g: Graph<V>, s: State<V>, active: set<V>, node: V)
    requires Shape(s, active) && node !in s.index
    ensures Low(g, s, Enter(s, node), node, s.counter, {node})
  {
    hide Reaches;
    ReachesSelf(g, node);
    assert Enter(s, node).stack[|s.stack|] == node;
  }

  lemma EnterDone<V(!new)>(g: Graph<V>, s: State<V>, node: V)
    requires Done(g, s)
    ensures Done(g, Enter(s, node))
  {
    hide IsComponent;
    var t := Enter(s, node);
    assert t.result == s.result;
    forall i: nat, w | EmittedBy(s, i, w) ensures EmittedBy(t, i, w) {}
  }

  // ------------------------------------------------- one successor considered

  /** The recursive call on an unvisited successor c, and the `min` after it. */
  lemma LowAfterCall<V(!new)>(g: Graph<V>, s: State<V>, t: State<V>, t': State<V>, node: V, l: nat, c: V, l': nat)
    requires Low(g, s, t, node, l, {node}) && s.stack <= t.stack
    requires Extends(t, t') && Outcome(g, t, t', c, l') && c in Succ(g, node)
    requires forall i :: 0 <= i < |t.stack| ==> t.stack[i] in t.index
    requires forall v :: v in t.index ==> t.index[v] < t.counter
    ensures Low(g, s, t', node, if l' < l then l' else l, {node})
  {
    hide Reaches;
    forall v | v in t.stack ensures v in t'.stack {}
    forall v | v in s.stack ensures v in t.stack {}
    var y :| y in t.stack && y in t.index && t.index[y] == l && Reaches(g, node, y);
    if l' < l {
      var z :| z in t'.stack && z in t'.index && t'.index[z] == l' && Reaches(g, c, z);
      ReachesSelf(g, node);
      ReachesStep(g, node, node, c);
      ReachesTrans(g, node, c, z);
    } else {
      assert t'.index[y] == l;
    }
  }

  /** A successor already on the stack, and the `min` with its number. */
  lemma LowAfterBackEdge<V(!new)>(g: Graph<V>, s: State<V>, t: State<V>, node: V, l: nat, c: V)
    requires Low(g, s, t, node, l, {node})
    requires c in Succ(g, node) && c in t.stack && c in t.index
    ensures Low(g, s, t, node, if t.index[c] < l then t.index[c] else l, {node})
  {
    hide Reaches;
    ReachesSelf(g, node);
    ReachesStep(g, node, node, c);
  }

  // ------------------------------------------------------- leaving the node

  /** What the successor loop has established when it ends: t grew out of Enter(s, node),
      every successor of node is visited, and l is the lowlink. */
  ghost predicate Explored1<V(!new)>(g: Graph<V>, s: State<V>, t: State<V>, active: set<V>, node: V, l: nat) {
    && Shape(s, active)
    && Inv(g, t, active + {node})
    && Extends(Enter(s, node), t)
    && (forall w :: w in Succ(g, node) ==> w in t.index)
    && node !in s.index
    && l <= s.counter
    && Low(g, s, t, node, l, {})
  }

  lemma LeaveOpen<V(!new)>(g: Graph<V>, s: State<V>, t: State<V>, active: set<V>, node: V, l: nat)
    requires Explored1(g, s, t, active, node, l) && l < s.counter
    ensures Inv(g, t, active)
    ensures Outcome(g, s, t, node, l)
  {
    hide Reaches, Done, Ordered, Anchored;
    assert t.stack[|s.stack|] == node;
    assert Explored(g, t, active);
    assert Anchored(g, t, active) by {
      hide Shape, Explored;
      var y :| y in t.stack && y in t.index && t.index[y] == l && Reaches(g, node, y);
      AnchoredBelow(g, t, active, node, y);
    }
  }

  /** Once node reaches an older stacked node, nothing needs node as an anchor. */
  lemma AnchoredBelow<V(!new)>(g: Graph<V>, t: State<V>, active: set<V>, node: V, y: V)
    requires Anchored(g, t, active + {node})
    requires node in t.index && y in t.stack && y in t.index && t.index[y] < t.index[node] && Reaches(g, node, y)
    ensures Anchored(g, t, active)
  {
    hide Reaches;
    assert Returns(g, t, active + {node}, y);
    var a :| a in active + {node} && a in t.index && t.index[a] <= t.index[y] && Reaches(g, y, a);
    ReachesTrans(g, node, y, a);
    forall v | v in t.stack
      ensures Returns(g, t, active, v)
    {
      assert Returns(g, t, active + {node}, v);
      var u :| u in active + {node} && u in t.index && t.index[u] <= t.index[v] && Reaches(g, v, u);
      if u == node {
        ReachesTrans(g, v, node, a);
      }
    }
  }

  /** The part of the stack grown since s. */
  ghost function Segment<V(!new)>(s: State<V>, t: State<V>): set<V> {
    set v | v in t.stack && v !in s.stack
  }

  /** The segment holds exactly the stacked nodes numbered from s.counter on. */
  lemma SegmentApart<V(!new)>(s: State<V>, t: State<V>, active: set<V>, node: V)
    requires Shape(s, active) && Shape(t, active + {node}) && Extends(Enter(s, node), t) && node !in s.index
    ensures node in Segment(s, t) && node in t.index && t.index[node] == s.counter
    ensures forall v :: v in s.stack ==> v in t.stack && v in t.index && t.index[v] < s.counter
    ensures forall v :: v in Segment(s, t) ==> v in t.index && t.index[v] >= s.counter && v !in active
  {
    assert t.stack[|s.stack|] == node;
    forall v | v in s.stack
      ensures v in t.stack && v in t.index && t.index[v] < s.counter
    {
      var i :| 0 <= i < |s.stack| && s.stack[i] == v;
      assert t.stack[i] == Enter(s, node).stack[i] == v;
      assert t.index[v] == Enter(s, node).index[v];
    }
    EmittedStays(s, t);
  }

  /** The nodes of older calls are neither in it nor emitted. */
  lemma ActiveApart<V(!new)>(s: State<V>, t: State<V>, active: set<V>, node: V)
    requires Shape(s, active) && Shape(t, active + {node}) && Extends(Enter(s, node), t) && node !in s.index
    ensures forall v :: v in active ==> v !in Segment(s, t) && !Emitted(t, v)
  {
    hide Extends, Emitted;
  }

  lemma EmittedStays<V(!new)>(s: State<V>, t: State<V>)
    requires s.result <= t.result
    ensures forall v :: Emitted(s, v) ==> Emitted(t, v)
  {
    assert forall i :: 0 <= i < |s.result| ==> t.result[i] == s.result[i];
  }

  lemma SegmentEdges<V(!new)>(g: Graph<V>, s: State<V>, t: State<V>, active: set<V>, node: V, v: V, w: V)
    requires Explored1(g, s, t, active, node, s.counter)
    requires v in Segment(s, t) && w in Succ(g, v)
    ensures w in Segment(s, t) || Emitted(t, w)
  {
    hide Reaches, Done, Ordered, Anchored;
    SegmentApart(s, t, active, node);
    assert w in t.index;
  }

  lemma SegmentReaches<V(!new)>(g: Graph<V>, s: State<V>, t: State<V>, active: set<V>, node: V, v: V, w: V)
    requires Explored1(g, s, t, active, node, s.counter)
    requires v in Segment(s, t) && Reaches(g, v, w)
    ensures w in Segment(s, t) || Emitted(t, w)
  {
    hide Reaches, Shape, Ordered, Anchored, Explored, Low, IsComponent;
    var all := Segment(s, t) + set j, x | 0 <= j < |t.result| && x in t.result[j] :: x;
    forall a, b | a in all && b in Succ(g, a)
      ensures b in all
    {
      if a in Segment(s, t) {
        SegmentEdges(g, s, t, active, node, a, b);
      } else {
        assert Emitted(t, a);
        ReachesSelf(g, a);
        ReachesStep(g, a, a, b);
        EmittedClosed'(g, t, a, b);
      }
    }
    ClosedReaches(g, all, v, w);
  }

  lemma SegmentToRoot<V(!new)>(g: Graph<V>, s: State<V>, t: State<V>, active: set<V>, node: V, v: V)
    requires Explored1(g, s, t, active, node, s.counter)
    requires v in Segment(s, t)
    ensures Mutual(g, v, node)
  {
    hide Reaches, Done, Explored, Low, Shape, Extends;
    SegmentApart(s, t, active, node);
    ActiveApart(s, t, active, node);
    assert Returns(g, t, active + {node}, v);
    var u :| u in active + {node} && u in t.index && t.index[u] <= t.index[v] && Reaches(g, v, u);
    hide Anchored, Returns;
    if u != node {
      SegmentReaches(g, s, t, active, node, v, u);
    }
  }

  lemma SegmentIsComponent<V(!new)>(g: Graph<V>, s: State<V>, t: State<V>, active: set<V>, node: V, c: seq<V>)
    requires Explored1(g, s, t, active, node, s.counter)
    requires NoDuplicates(c) && forall v :: v in c <==> v in Segment(s, t)
    ensures IsComponent(g, c)
  {
    hide Reaches, Ordered, Anchored, Explored, Low;
    SegmentApart(s, t, active, node);
    assert |c| > 0 by { assert node in c; }
    forall v, w | v in c
      ensures w in c <==> Mutual(g, v, w)
    {
      if w in c {
        SegmentToRoot(g, s, t, active, node, v);
        SegmentToRoot(g, s, t, active, node, w);
        ReachesTrans(g, v, node, w);
        ReachesTrans(g, w, node, v);
      } else if Mutual(g, v, w) {
        SegmentReaches(g, s, t, active, node, v, w);
        EmittedClosed'(g, t, w, v);
      }
    }
  }

  /** Emitting the whole segment once node turns out to be its root. */
  function Pop<V>(s: State<V>, t: State<V>, c: seq<V>): State<V> {
    State(t.index, s.stack, t.counter, t.result + [c])
  }

  lemma PopEmits<V(!new)>(s: State<V>, t: State<V>, c: seq<V>)
    ensures forall v :: Emitted(Pop(s, t, c), v) <==> Emitted(t, v) || v in c
  {
    var p := Pop(s, t, c);
    assert p.result[|t.result|] == c;
    forall v
      ensures Emitted(p, v) <==> Emitted(t, v) || v in c
    {
      if Emitted(t, v) {
        var i :| 0 <= i < |t.result| && v in t.result[i];
        assert p.result[i] == t.result[i];
      }
    }
  }

  lemma PopDone<V(!new)>(g: Graph<V>, s: State<V>, t: State<V>, active: set<V>, node: V, c: seq<V>)
    requires Explored1(g, s, t, active, node, s.counter)
    requires NoDuplicates(c) && forall v :: v in c <==> v in Segment(s, t)
    ensures Done(g, Pop(s, t, c))
  {
    hide Reaches, IsComponent, NoDuplicates, Ordered, Anchored, Explored, Low;
    SegmentIsComponent(g, s, t, active, node, c);
    var p := Pop(s, t, c);
    forall i, v, w | 0 <= i < |p.result| && v in p.result[i] && w in Succ(g, v)
      ensures EmittedBy(p, i, w)
    {
      if i < |t.result| {
        assert EmittedBy(t, i, w);
        var j :| 0 <= j <= i && j < |t.result| && w in t.result[j];
        assert p.result[j] == t.result[j];
      } else {
        SegmentEdges(g, s, t, active, node, v, w);
        PopEmits(s, t, c);
        assert Emitted(p, w);
      }
    }
    forall v | v in c ensures !Emitted(t, v) {}
  }

  lemma PopShape<V(!new)>(s: State<V>, t: State<V>, active: set<V>, node: V, c: seq<V>)
    requires Shape(s, active) && Shape(t, active + {node}) && Extends(Enter(s, node), t) && node !in s.index
    requires forall v :: v in c <==> v in Segment(s, t)
    ensures Shape(Pop(s, t, c), active)
    ensures Extends(s, Pop(s, t, c))
  {
    SegmentApart(s, t, active, node);
    PopEmits(s, t, c);
  }

  lemma LeaveRoot<V(!new)>(g: Graph<V>, s: State<V>, t: State<V>, active: set<V>, node: V, c: seq<V>)
    requires Explored1(g, s, t, active, node, s.counter)
    requires NoDuplicates(c) && forall v :: v in c <==> v in Segment(s, t)
    ensures Inv(g, Pop(s, t, c), active)
    ensures Extends(s, Pop(s, t, c))
    ensures Outcome(g, s, Pop(s, t, c), node, s.counter)
  {
    hide Reaches, Done, NoDuplicates, Low, Shape;
    SegmentApart(s, t, active, node);
    PopDone(g, s, t, active, node, c);
    PopShape(s, t, active, node, c);
    var p := Pop(s, t, c);
    forall v | v in p.stack
      ensures Returns(g, p, active, v)
    {
      assert Returns(g, t, active + {node}, v);
    }
    assert Ordered(g, p);
    assert Explored(g, p, active);
  }

  /** Popping down to a node lists the segment backwards. */
  lemma PoppedSegment<V(!new)>(s: State<V>, t: State<V>, c: seq<V>)
    requires s.stack <= t.stack && NoDuplicates(t.stack)
    requires |c| == |t.stack| - |s.stack| && forall i :: 0 <= i < |c| ==> c[i] == t.stack[|t.stack| - 1 - i]
    ensures NoDuplicates(c) && forall v :: v in c <==> v in Segment(s, t)
  {
    assert forall k :: 0 <= k < |s.stack| ==> t.stack[k] in s.stack;
    forall v | v in Segment(s, t)
      ensures v in c
    {
      var i :| 0 <= i < |t.stack| && t.stack[i] == v;
      assert c[|t.stack| - 1 - i] == v;
    }
  }

  // ------------------------------------------------------- the successor loop

  /** Invariant of the successor loop: `seen` has been considered and l is the lowlink so far. */
  ghost predicate Midway<V(!new)>(g: Graph<V>, s: State<V>, t: State<V>, active: set<V>, node: V, l: nat,
      seen: seq<V>) {
    && Inv(g, s, active) && Inv(g, t, active + {node})
    && Extends(Enter(s, node), t) && node !in s.index
    && (forall u :: u in active ==> Reaches(g, u, node))
    && l <= s.counter
    && Low(g, s, t, node, l, {node})
    && Considered(s, t, l, seen)
  }

  ghost predicate Considered<V(!new)>(s: State<V>, t: State<V>, l: nat, seen: seq<V>) {
    forall w :: w in seen ==> w in t.index && (w in s.stack ==> l <= t.index[w])
  }

  lemma MidwayStart<V(!new)>(g: Graph<V>, s: State<V>, active: set<V>, node: V)
    requires Inv(g, s, active) && node in Nodes(g) && node !in s.index
    requires forall u :: u in active ==> Reaches(g, u, node)
    ensures Midway(g, s, Enter(s, node), active, node, s.counter, [])
  {
    hide Reaches, Inv, Low;
    EnterKeeps(g, s, active, node);
  }

  lemma ExtendsTrans<V(!new)>(a: State<V>, b: State<V>, c: State<V>)
    requires Extends(a, b) && Extends(b, c)
    ensures Extends(a, c)
  {
  }

  /** The recursive call meets its precondition, and measures less than its caller. */
  lemma BeforeCall<V(!new)>(g: Graph<V>, s: State<V>, t: State<V>, active: set<V>, node: V, l: nat, seen: seq<V>, c: V)
    requires Midway(g, s, t, active, node, l, seen) && c in Succ(g, node)
    ensures Inv(g, t, active + {node}) && forall u :: u in active + {node} ==> Reaches(g, u, c)
    ensures c in Nodes(g) && Nodes(g) - t.index.Keys < Nodes(g) - s.index.Keys
  {
    hide Reaches, Low, Shape, Ordered, Anchored, Explored, Done;
    ReachesSelf(g, node);
    forall u | u in active + {node}
      ensures Reaches(g, u, c)
    {
      ReachesStep(g, u, node, c);
    }
    assert node in Enter(s, node).index;
    assert forall v :: v in s.index ==> v in Enter(s, node).index;
    assert node in Nodes(g) - s.index.Keys && node !in Nodes(g) - t.index.Keys;
  }

  lemma MidwayCall<V(!new)>(g: Graph<V>, s: State<V>, t: State<V>, t': State<V>, active: set<V>, node: V, l: nat,
                            seen: seq<V>, c: V, l': nat)
    requires Midway(g, s, t, active, node, l, seen) && c in Succ(g, node) && c !in t.index
    requires Inv(g, t', active + {node}) && Extends(t, t') && Outcome(g, t, t', c, l')
    ensures Midway(g, s, t', active, node, Min(l, l'), seen + [c])
  {
    hide Reaches, Shape, Ordered, Anchored, Explored, Done, Considered;
    MidwayCallLow(g, s, t, t', active, node, l, seen, c, l');
    hide Low, Outcome;
    ExtendsTrans(Enter(s, node), t, t');
    MidwayCallConsidered(g, s, t, t', active, node, l, seen, c, Min(l, l'));
  }

  lemma MidwayCallLow<V(!new)>(g: Graph<V>, s: State<V>, t: State<V>, t': State<V>, active: set<V>, node: V, l: nat,
                               seen: seq<V>, c: V, l': nat)
    requires Midway(g, s, t, active, node, l, seen) && c in Succ(g, node)
    requires Extends(t, t') && Outcome(g, t, t', c, l')
    ensures Low(g, s, t', node, Min(l, l'), {node})
  {
    hide Reaches, Ordered, Anchored, Explored, Done, Considered, Low, Outcome;
    assert s.stack <= Enter(s, node).stack;
    LowAfterCall(g, s, t, t', node, l, c, l');
  }

  lemma MidwayCallConsidered<V(!new)>(g: Graph<V>, s: State<V>, t: State<V>, t': State<V>, active: set<V>, node: V,
      l: nat,
                                      seen: seq<V>, c: V, m: nat)
    requires Midway(g, s, t, active, node, l, seen) && m <= l
    requires c !in t.index && c in t'.index && Extends(t, t')
    ensures Considered(s, t', m, seen + [c])
  {
    hide Reaches, Ordered, Anchored, Explored, Done, Low;
    SegmentApart(s, t, active, node);
    assert c !in s.stack;
    hide Shape;
    ConsideredLater(s, t, t', l, m, seen);
  }

  lemma ConsideredLater<V(!new)>(s: State<V>, t: State<V>, t': State<V>, l: nat, m: nat, seen: seq<V>)
    requires Considered(s, t, l, seen) && m <= l && Extends(t, t')
    ensures Considered(s, t', m, seen)
  {
  }

  lemma MidwayBack<V(!new)>(g: Graph<V>, s: State<V>, t: State<V>, active: set<V>, node: V, l: nat, seen: seq<V>, c: V)
    requires Midway(g, s, t, active, node, l, seen) && c in Succ(g, node) && c in t.stack && c in t.index
    ensures Midway(g, s, t, active, node, Min(l, t.index[c]), seen + [c])
  {
    hide Reaches, Inv, Extends;
    LowAfterBackEdge(g, s, t, node, l, c);
  }

  lemma MidwaySkip<V(!new)>(g: Graph<V>, s: State<V>, t: State<V>, active: set<V>, node: V, l: nat, seen: seq<V>, c: V)
    requires Midway(g, s, t, active, node, l, seen) && c in t.index && c !in t.stack
    ensures Midway(g, s, t, active, node, l, seen + [c])
  {
    hide Reaches, Low, Ordered, Anchored, Explored, Done;
    SegmentApart(s, t, active, node);
  }

  lemma MidwayEnd<V(!new)>(g: Graph<V>, s: State<V>, t: State<V>, active: set<V>, node: V, l: nat)
    requires Midway(g, s, t, active, node, l, Succ(g, node))
    ensures Explored1(g, s, t, active, node, l)
    ensures node in t.index && t.index[node] == s.counter
    ensures s.stack + [node] <= t.stack && NoDuplicates(t.stack) && l <= s.counter
    ensures Extends(s, t)
  {
    hide Reaches, Ordered, Anchored, Explored, Done;
    SegmentApart(s, t, active, node);
    EnterShape(s, active, node);
    ExtendsTrans(s, Enter(s, node), t);
    assert t.stack[|s.stack|] == node;
  }

  // ------------------------------------------------------------ the program

  class Search<V(==,!new)> {
    const graph: Graph<V>
    var indexCounter: nat
    var stack: seq<V>
    var lowlinks: map<V, nat>
    var index: map<V, nat>
    var result: seq<seq<V>>

    constructor (graph: Graph<V>)
      ensures this.graph == graph && lowlinks == map[]
      ensures Now() == State(map[], [], 0, [])
    {
      this.graph := graph;
      indexCounter, stack, lowlinks, index, result := 0, [], map[], map[], [];
    }

    ghost function Now(): State<V>
      reads this
    {
      State(index, stack, indexCounter, result)
    }

    /** Pops up to and including `node`, which sits on top of the stack of s. */
    method PopDownTo(node: V, ghost s: State<V>) returns (component: seq<V>)
      requires s.stack + [node] <= stack && NoDuplicates(stack)
      modifies `stack
      ensures stack == s.stack
      ensures |component| == |old(stack)| - |s.stack|
      ensures forall i :: 0 <= i < |component| ==> component[i] == old(stack)[|old(stack)| - 1 - i]
    {
      ghost var full := stack;
      component := [];
      while true
        invariant |component| + |stack| == |full| && s.stack + [node] <= stack <= full
        invariant forall i :: 0 <= i < |component| ==> component[i] == full[|full| - 1 - i]
        decreases |stack|
      {
        var successor := stack[|stack| - 1];
        stack := stack[..|stack| - 1];
        component := component + [successor];
        assert successor == full[|stack|] && node == full[|s.stack|];
        if successor == node {
          assert stack == s.stack;
          break;
        }
      }
    }

    method StrongConnect(node: V, ghost active: set<V>)
      requires Inv(graph, Now(), active) && lowlinks.Keys == index.Keys
      requires node in Nodes(graph) && node !in index
      requires forall u :: u in active ==> Reaches(graph, u, node)
      modifies this
      ensures Inv(graph, Now(), active) && lowlinks.Keys == index.Keys
      ensures Extends(old(Now()), Now())
      ensures node in lowlinks && Outcome(graph, old(Now()), Now(), node, lowlinks[node])
      ensures forall v :: v in old(lowlinks) ==> v in lowlinks && lowlinks[v] == old(lowlinks[v])
      decreases Nodes(graph) - index.Keys
    {
      hide Inv, Low, Extends, Outcome, Reaches, Midway, Nodes, Explored1, NoDuplicates;
      ghost var s := Now();
      index := index[node := indexCounter];
      lowlinks := lowlinks[node := indexCounter];
      indexCounter := indexCounter + 1;
      stack := stack + [node];
      MidwayStart(graph, s, active, node);

      var successors := if node in graph then graph[node] else [];
      for i := 0 to |successors|
        invariant lowlinks.Keys == index.Keys && node in lowlinks
        invariant Midway(graph, s, Now(), active, node, lowlinks[node], successors[..i])
        invariant forall v :: v in old(lowlinks) ==> v in lowlinks && lowlinks[v] == old(lowlinks[v])
      {
        var successor := successors[i];
        ghost var t, l := Now(), lowlinks[node];
        if successor !in lowlinks {
          BeforeCall(graph, s, t, active, node, l, successors[..i], successor);
          StrongConnect(successor, active + {node});
          lowlinks := lowlinks[node := Min(lowlinks[node], lowlinks[successor])];
          MidwayCall(graph, s, t, Now(), active, node, l, successors[..i], successor, lowlinks[successor]);
        } else if successor in stack {
          lowlinks := lowlinks[node := Min(lowlinks[node], index[successor])];
          MidwayBack(graph, s, t, active, node, l, successors[..i], successor);
        } else {
          MidwaySkip(graph, s, t, active, node, l, successors[..i], successor);
        }
        assert successors[..i + 1] == successors[..i] + [successor];
      }
      assert successors[..|successors|] == successors;
      MidwayEnd(graph, s, Now(), active, node, lowlinks[node]);

      if lowlinks[node] == index[node] {
        ghost var t := Now();
        var component := PopDownTo(node, s);
        result := result + [component];
        PoppedSegment(s, t, component);
        LeaveRoot(graph, s, t, active, node, component);
      } else {
        LeaveOpen(graph, s, Now(), active, node, lowlinks[node]);
      }
    }
  }

  function Min(a: nat, b: nat): nat {
    if b < a then b else a
  }

  ghost predicate Listed<V>(r: seq<seq<V>>, v: V) {
    exists i :: 0 <= i < |r| && v in r[i]
  }

  ghost predicate FromKeys<V(!new)>(g: Graph<V>, v: V) {
    exists k :: k in g && Reaches(g, k, v)
  }

  ghost predicate SinksFirst<V(!new)>(g: Graph<V>, r: seq<seq<V>>) {
    forall i, j, v, w :: 0 <= i < |r| && 0 <= j < |r| && v in r[i] && w in r[j] && Reaches(g, v, w) ==> j <= i
  }

  /** r cuts exactly the nodes reachable from the keys into mutual-reachability classes,
      and no tuple reaches a later one. */
  ghost predicate IsCondensation<V(!new)>(g: Graph<V>, r: seq<seq<V>>) {
    && (forall i :: 0 <= i < |r| ==> IsComponent(g, r[i]))
    && (forall i, j, v :: 0 <= i < j < |r| && v in r[i] ==> v !in r[j])
    && (forall v :: Listed(r, v) <==> FromKeys(g, v))
    && SinksFirst(g, r)
  }

  lemma FinishedCovers<V(!new)>(g: Graph<V>, s: State<V>, v: V)
    requires Inv(g, s, {}) && g.Keys <= s.index.Keys
    ensures Listed(s.result, v) <==> FromKeys(g, v)
  {
    hide Reaches, IsComponent, Ordered, Explored;
    NodesAreReachable(g, v);
    assert forall x :: x in s.stack ==> !Returns(g, s, {}, x);
    assert forall x :: x in s.index <==> Emitted(s, x);
    assert Emitted(s, v) <==> Listed(s.result, v);
    if FromKeys(g, v) {
      var k :| k in g && Reaches(g, k, v);
      EmittedClosed'(g, s, k, v);
    }
  }

  lemma FinishedIsCondensation<V(!new)>(g: Graph<V>, s: State<V>)
    requires Inv(g, s, {}) && g.Keys <= s.index.Keys
    ensures IsCondensation(g, s.result)
  {
    hide Reaches, IsComponent, Ordered, Anchored, Shape, Explored, Listed, FromKeys;
    forall v
      ensures Listed(s.result, v) <==> FromKeys(g, v)
    {
      FinishedCovers(g, s, v);
    }
    forall i, j, v, w | 0 <= i < |s.result| && 0 <= j < |s.result| && v in s.result[i] && w in s.result[j] && Reaches(g, v, w)
      ensures j <= i
    {
      assert EmittedBy(s, i, v);
      EmittedClosed(g, s, i, v, w);
    }
  }

  /** Tarjan's algorithm finds the components, whatever order the keys are visited in. */
  method StronglyConnectedComponents<V(==,!new)>(graph: Graph<V>) returns (result: seq<seq<V>>)
    ensures IsCondensation(graph, result)
  {
    hide Reaches, IsCondensation, Outcome;
    var search := new Search(graph);
    assert Inv(graph, search.Now(), {});
    var todo := graph.Keys;
    while todo != {}
      invariant search.graph == graph && search.lowlinks.Keys == search.index.Keys
      invariant Inv(graph, search.Now(), {})
      invariant todo <= graph.Keys && graph.Keys - todo <= search.index.Keys
      decreases todo
    {
      hide Inv, Nodes;
      var node :| node in todo;
      todo := todo - {node};
      if node !in search.lowlinks {
        NodesAreReachable(graph, node);
        ReachesSelf(graph, node);
        search.StrongConnect(node, {});
      }
    }
    FinishedIsCondensation(graph, search.Now());
    result := search.result;
  }

  /** Two listed nodes share a tuple exactly when each reaches the other. */
  lemma SharedTuple<V(!new)>(g: Graph<V>, r: seq<seq<V>>, i: nat, j: nat, v: V, w: V)
    requires IsCondensation(g, r) && i < |r| && j < |r| && v in r[i] && w in r[j]
    ensures i == j <==> Mutual(g, v, w)
  {
    hide Reaches, Listed, FromKeys, SinksFirst;
    assert IsComponent(g, r[i]);
  }

  /** Any two lists that pass as condensations hold the same tuples up to order. */
  lemma SameTuples<V(!new)>(g: Graph<V>, r: seq<seq<V>>, q: seq<seq<V>>, i: nat)
    requires IsCondensation(g, r) && IsCondensation(g, q) && i < |r|
    ensures exists j :: 0 <= j < |q| && forall v :: v in q[j] <==> v in r[i]
  {
    hide Mutual, FromKeys, SinksFirst;
    assert IsComponent(g, r[i]);
    var v := r[i][0];
    assert v in r[i] && Listed(r, v);
    assert Listed(q, v);
    var j :| 0 <= j < |q| && v in q[j];
    assert IsComponent(g, q[j]);
  }

  /** The script prints the tuples whose length is not 1: a node is printed exactly when it lies on
      a cycle with some other node. */
  lemma PrintedIffOnCycle<V(!new)>(g: Graph<V>, r: seq<seq<V>>, v: V)
    requires IsCondensation(g, r)
    ensures (exists i :: 0 <= i < |r| && v in r[i] && |r[i]| != 1)
       <==> FromKeys(g, v) && exists w :: w != v && Mutual(g, v, w)
  {
    hide Mutual, FromKeys, SinksFirst;
    assert Listed(r, v) <==> FromKeys(g, v);
    if Listed(r, v) {
      var i :| 0 <= i < |r| && v in r[i];
      assert IsComponent(g, r[i]);
      OnlyMember(r[i], v);
    }
  }

  lemma OnlyMember<V(!new)>(c: seq<V>, v: V)
    requires v in c && NoDuplicates(c)
    ensures |c| == 1 <==> forall w :: w in c ==> w == v
  {
    if |c| != 1 {
      assert c[0] in c && c[1] in c;
    }
  }

  /** So a file that includes itself and lies on no longer cycle is not printed, though the
      script's heading promises all cycles. */
  lemma SelfIncludeNotPrinted(r: seq<seq<string>>, i: nat)
    requires IsCondensation(map["a.h" := ["a.h"]], r) && i < |r|
    ensures "a.h" in Succ(map["a.h" := ["a.h"]], "a.h") && |r[i]| == 1
  {
    hide Mutual, SinksFirst;
    var g: Graph<string> := map["a.h" := ["a.h"]];
    assert IsComponent(g, r[i]);
    forall v | v in r[i]
      ensures v == "a.h"
    {
      assert Listed(r, v);
      NodesAreReachable(g, v);
    }
    assert r[i][0] in r[i];
    OnlyMember(r[i], "a.h");
  }

}
