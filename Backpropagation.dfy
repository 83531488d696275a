/**
 * Backpropagation: after a leaf is evaluated, every edge of the path that
 * led to it gains one visit and the leaf's value, signed by whether the
 * edge's player is the leaf's player to move.
 */
module Backpropagation {
  import opened Games
  import opened Graph

  /**
   * The leaf's value times the edge's sign: +1 when the edge was played by
   * the player to move at the leaf, -1 otherwise.
   */
  function Signed<K>(e: Edge<K>, leafPlayer: Player, value: real): real {
    if e.player == leafPlayer then value else -value
  }

  /** One more visit with value delta: N and W grow, and Q is their new mean. */
  function Bump(st: Stats, delta: real): (r: Stats)
    ensures r.n == st.n + 1 && r.w == st.w + delta
    ensures Consistent(r)
  {
    var w := st.w + delta;
    Stats(st.n + 1, w, w / (st.n + 1) as real)
  }

  /** Any N, W and Q that count one more visit with value delta, and Q = W/N, are the bumped statistics. */
  lemma BumpIs(st: Stats, delta: real, n: nat, w: real, q: real)
    requires n == st.n + 1 && w == st.w + delta && q == w / n as real
    ensures Bump(st, delta) == Stats(n, w, q)
  {
  }

  /**
   * u differs from t at most in edge statistics: the same keys, states and
   * number of edges, and each edge keeps its action, player and destination.
   */
  ghost predicate SameShape<S, K>(t: Tree<S, K>, u: Tree<S, K>) {
    && t.Keys == u.Keys
    && forall k :: k in t ==>
         && u[k].state == t[k].state
         && |u[k].edges| == |t[k].edges|
         && forall i :: 0 <= i < |t[k].edges| ==>
              u[k].edges[i] == t[k].edges[i].(stats := u[k].edges[i].stats)
  }

  /** The update of the single edge r by the leaf's value. */
  function UpdateEdge<S, K>(t: Tree<S, K>, r: EdgeRef<K>, leafPlayer: Player, value: real): (u: Tree<S, K>)
    requires IsEdge(t, r)
    ensures u.Keys == t.Keys && forall k :: k in t ==> |u[k].edges| == |t[k].edges|
  {
    var node := t[r.parent];
    var e := node.edges[r.index];
    var e' := e.(stats := Bump(e.stats, Signed(e, leafPlayer, value)));
    t[r.parent := node.(edges := node.edges[r.index := e'])]
  }

  /** The updates of the first upTo edges of crumbs, first to last. */
  function BackPropagated<S, K>(t: Tree<S, K>, crumbs: seq<EdgeRef<K>>, upTo: nat, leafPlayer: Player, value: real): (u: Tree<S, K>)
    requires upTo <= |crumbs|
    requires forall j :: 0 <= j < |crumbs| ==> IsEdge(t, crumbs[j])
    ensures u.Keys == t.Keys && forall k :: k in t ==> |u[k].edges| == |t[k].edges|
    decreases upTo
  {
    if upTo == 0 then t
    else
      var earlier := BackPropagated(t, crumbs, upTo - 1, leafPlayer, value);
      assert IsEdge(t, crumbs[upTo - 1]);
      UpdateEdge(earlier, crumbs[upTo - 1], leafPlayer, value)
  }

  /** Propagating one more edge of the path updates that edge of the tree propagated so far. */
  lemma BackPropagatedNext<S, K>(t: Tree<S, K>, crumbs: seq<EdgeRef<K>>, j: nat, leafPlayer: Player, value: real)
    requires j < |crumbs|
    requires forall m :: 0 <= m < |crumbs| ==> IsEdge(t, crumbs[m])
    ensures IsEdge(BackPropagated(t, crumbs, j, leafPlayer, value), crumbs[j])
    ensures BackPropagated(t, crumbs, j + 1, leafPlayer, value)
         == UpdateEdge(BackPropagated(t, crumbs, j, leafPlayer, value), crumbs[j], leafPlayer, value)
  {
    assert IsEdge(t, crumbs[j]);
  }

  /** No edge occurs twice in crumbs. */
  ghost predicate NoRepeats<K>(crumbs: seq<EdgeRef<K>>) {
    forall i, j :: 0 <= i < j < |crumbs| ==> crumbs[i] != crumbs[j]
  }

  /** r is one of the first upTo edges of crumbs. */
  ghost predicate Occurs<K>(crumbs: seq<EdgeRef<K>>, upTo: nat, r: EdgeRef<K>)
    requires upTo <= |crumbs|
    decreases upTo
  {
    upTo > 0 && (crumbs[upTo - 1] == r || Occurs(crumbs, upTo - 1, r))
  }

  /** None of the first upTo edges of crumbs occurs earlier among them. */
  ghost predicate Simple<K>(crumbs: seq<EdgeRef<K>>, upTo: nat)
    requires upTo <= |crumbs|
    decreases upTo
  {
    upTo == 0 || (!Occurs(crumbs, upTo - 1, crumbs[upTo - 1]) && Simple(crumbs, upTo - 1))
  }

  /** Occurs is membership in the prefix. */
  lemma {:induction false} OccursInPrefix<K>(crumbs: seq<EdgeRef<K>>, upTo: nat, r: EdgeRef<K>)
    requires upTo <= |crumbs|
    ensures Occurs(crumbs, upTo, r) <==> r in crumbs[..upTo]
    decreases upTo
  {
    if upTo == 0 {
      assert crumbs[..0] == [];
    } else {
      OccursInPrefix(crumbs, upTo - 1, r);
      assert crumbs[..upTo] == crumbs[..upTo - 1] + [crumbs[upTo - 1]];
    }
  }

  /** A list without repeats is simple in each of its prefixes. */
  lemma {:induction false} NoRepeatsSimple<K>(crumbs: seq<EdgeRef<K>>, upTo: nat)
    requires upTo <= |crumbs| && NoRepeats(crumbs)
    ensures Simple(crumbs, upTo)
    decreases upTo
  {
    if upTo > 0 {
      NoRepeatsSimple(crumbs, upTo - 1);
      OccursInPrefix(crumbs, upTo - 1, crumbs[upTo - 1]);
      var before := crumbs[..upTo - 1];
      forall m | 0 <= m < |before| ensures before[m] != crumbs[upTo - 1] {
        assert before[m] == crumbs[m];
      }
    }
  }

  /**
   * A path of a well-formed store, such as the breadcrumbs of a descent,
   * never takes the same edge twice.
   */
  lemma PathNoRepeats<S(!new), K>(g: Game<S, K>, t: Tree<S, K>, from: K, crumbs: seq<EdgeRef<K>>, to: K)
    requires Wf(g, t) && IsPath(t, from, crumbs, to)
    ensures NoRepeats(crumbs)
  {
    PathIsSimple(g, t, from, crumbs, to);
  }

  /** Along a simple path, the edges that occur are bumped once and the others are unchanged. */
  lemma {:induction false} BumpedOnce<S, K>(
    t: Tree<S, K>, crumbs: seq<EdgeRef<K>>, upTo: nat, leafPlayer: Player, value: real, k: K, i: nat)
    requires upTo <= |crumbs|
    requires forall j :: 0 <= j < |crumbs| ==> IsEdge(t, crumbs[j])
    requires Simple(crumbs, upTo)
    requires k in t && i < |t[k].edges|
    ensures var e := t[k].edges[i];
      BackPropagated(t, crumbs, upTo, leafPlayer, value)[k].edges[i].stats
        == if Occurs(crumbs, upTo, EdgeRef(k, i)) then Bump(e.stats, Signed(e, leafPlayer, value)) else e.stats
    decreases upTo
  {
    if upTo > 0 {
      var last := crumbs[upTo - 1];
      var earlier := BackPropagated(t, crumbs, upTo - 1, leafPlayer, value);
      BumpedOnce(t, crumbs, upTo - 1, leafPlayer, value, k, i);
      BackPropagatedEdge(t, crumbs, upTo - 1, leafPlayer, value, k, i);
      UpdateEdgeStats(earlier, last, leafPlayer, value, k, i);
    }
  }

  /**
   * When no edge occurs twice on the path, each of the first upTo edges of
   * the path gets exactly one more visit and W grows by the signed value,
   * and every other edge keeps its statistics.
   */
  lemma BackPropagatedStats<S, K>(
    t: Tree<S, K>, crumbs: seq<EdgeRef<K>>, upTo: nat, leafPlayer: Player, value: real, k: K, i: nat)
    requires upTo <= |crumbs|
    requires forall j :: 0 <= j < |crumbs| ==> IsEdge(t, crumbs[j])
    requires NoRepeats(crumbs)
    requires k in t && i < |t[k].edges|
    ensures var e := t[k].edges[i];
      BackPropagated(t, crumbs, upTo, leafPlayer, value)[k].edges[i].stats
        == if EdgeRef(k, i) in crumbs[..upTo] then Bump(e.stats, Signed(e, leafPlayer, value)) else e.stats
  {
    NoRepeatsSimple(crumbs, upTo);
    OccursInPrefix(crumbs, upTo, EdgeRef(k, i));
    BumpedOnce(t, crumbs, upTo, leafPlayer, value, k, i);
  }

  /** Backpropagation keeps the action, player and destination of every edge. */
  lemma BackPropagatedEdge<S, K>(
    t: Tree<S, K>, crumbs: seq<EdgeRef<K>>, upTo: nat, leafPlayer: Player, value: real, k: K, i: nat)
    requires upTo <= |crumbs|
    requires forall j :: 0 <= j < |crumbs| ==> IsEdge(t, crumbs[j])
    requires k in t && i < |t[k].edges|
    ensures var u := BackPropagated(t, crumbs, upTo, leafPlayer, value);
      k in u && i < |u[k].edges| && u[k].edges[i] == t[k].edges[i].(stats := u[k].edges[i].stats)
  {
    BackPropagatedShape(t, crumbs, upTo, leafPlayer, value);
  }

  /** Updating the edge r changes the statistics of r alone. */
  lemma UpdateEdgeStats<S, K>(t: Tree<S, K>, r: EdgeRef<K>, leafPlayer: Player, value: real, k: K, i: nat)
    requires IsEdge(t, r) && k in t && i < |t[k].edges|
    ensures var e := t[k].edges[i];
      UpdateEdge(t, r, leafPlayer, value)[k].edges[i].stats
        == if EdgeRef(k, i) == r then Bump(e.stats, Signed(e, leafPlayer, value)) else e.stats
  {
  }

  /** Backpropagation changes nothing but edge statistics. */
  lemma {:induction false} BackPropagatedShape<S, K>(
    t: Tree<S, K>, crumbs: seq<EdgeRef<K>>, upTo: nat, leafPlayer: Player, value: real)
    requires upTo <= |crumbs|
    requires forall j :: 0 <= j < |crumbs| ==> IsEdge(t, crumbs[j])
    ensures SameShape(t, BackPropagated(t, crumbs, upTo, leafPlayer, value))
    decreases upTo
  {
    if upTo > 0 {
      BackPropagatedShape(t, crumbs, upTo - 1, leafPlayer, value);
      UpdateEdgeShape(BackPropagated(t, crumbs, upTo - 1, leafPlayer, value), crumbs[upTo - 1], leafPlayer, value);
    }
  }

  /** Updating one edge changes nothing but its statistics. */
  lemma UpdateEdgeShape<S, K>(t: Tree<S, K>, r: EdgeRef<K>, leafPlayer: Player, value: real)
    requires IsEdge(t, r)
    ensures SameShape(t, UpdateEdge(t, r, leafPlayer, value))
  {
  }

  /** Every edge of the store has consistent statistics. */
  ghost predicate AllConsistent<S, K>(t: Tree<S, K>) {
    forall k, i :: k in t && 0 <= i < |t[k].edges| ==> Consistent(t[k].edges[i].stats)
  }

  /** Backpropagation keeps Q == W/N true of every visited edge. */
  lemma {:induction false} BackPropagatedConsistent<S, K>(
    t: Tree<S, K>, crumbs: seq<EdgeRef<K>>, upTo: nat, leafPlayer: Player, value: real)
    requires AllConsistent(t)
    requires upTo <= |crumbs|
    requires forall j :: 0 <= j < |crumbs| ==> IsEdge(t, crumbs[j])
    ensures AllConsistent(BackPropagated(t, crumbs, upTo, leafPlayer, value))
    decreases upTo
  {
    if upTo > 0 {
      var earlier := BackPropagated(t, crumbs, upTo - 1, leafPlayer, value);
      BackPropagatedConsistent(t, crumbs, upTo - 1, leafPlayer, value);
      var u := UpdateEdge(earlier, crumbs[upTo - 1], leafPlayer, value);
      forall k, i | k in u && 0 <= i < |u[k].edges| ensures Consistent(u[k].edges[i].stats) {
        UpdateEdgeStats(earlier, crumbs[upTo - 1], leafPlayer, value, k, i);
      }
    }
  }

  /**
   * A store with the shape of a well-formed store and consistent statistics
   * on every edge is well formed.
   */
  lemma ShapeKeepsWf<S(!new), K>(g: Game<S, K>, t: Tree<S, K>, u: Tree<S, K>)
    requires Wf(g, t) && SameShape(t, u) && AllConsistent(u)
    ensures Wf(g, u)
  {
    forall k | k in u
      ensures WfNode(g, u, k)
    {
      assert WfNode(g, t, k);
      forall e | e in u[k].edges
        ensures e.child in u && g.rank(e.child) < g.rank(k) && Consistent(e.stats)
      {
        var i :| 0 <= i < |u[k].edges| && u[k].edges[i] == e;
        assert t[k].edges[i] in t[k].edges;
      }
    }
  }

  /** Backpropagation keeps the store well formed. */
  lemma BackPropagatedWf<S(!new), K>(
    g: Game<S, K>, t: Tree<S, K>, crumbs: seq<EdgeRef<K>>, upTo: nat, leafPlayer: Player, value: real)
    requires Wf(g, t)
    requires upTo <= |crumbs|
    requires forall j :: 0 <= j < |crumbs| ==> IsEdge(t, crumbs[j])
    ensures Wf(g, BackPropagated(t, crumbs, upTo, leafPlayer, value))
  {
    forall k, i | k in t && 0 <= i < |t[k].edges| ensures Consistent(t[k].edges[i].stats) {
      assert WfNode(g, t, k) && t[k].edges[i] in t[k].edges;
    }
    BackPropagatedConsistent(t, crumbs, upTo, leafPlayer, value);
    BackPropagatedShape(t, crumbs, upTo, leafPlayer, value);
    ShapeKeepsWf(g, t, BackPropagated(t, crumbs, upTo, leafPlayer, value));
  }

  /**
   * A path from `root` whose first edge leaves `root` and whose other edges
   * do not adds exactly one visit to the root's edges in all, once at least
   * its first edge is propagated.
   */
  lemma {:induction false} BackPropagatedRootVisits<S, K>(
    t: Tree<S, K>, root: K, crumbs: seq<EdgeRef<K>>, upTo: nat, leafPlayer: Player, value: real)
    requires forall j :: 0 <= j < |crumbs| ==> IsEdge(t, crumbs[j])
    requires 0 < upTo <= |crumbs| && crumbs[0].parent == root
    requires forall j :: 0 < j < |crumbs| ==> crumbs[j].parent != root
    ensures Visits(BackPropagated(t, crumbs, upTo, leafPlayer, value)[root].edges) == Visits(t[root].edges) + 1
    decreases upTo
  {
    var last := crumbs[upTo - 1];
    var earlier := BackPropagated(t, crumbs, upTo - 1, leafPlayer, value);
    if upTo == 1 {
      var e := t[root].edges[last.index];
      var e' := e.(stats := Bump(e.stats, Signed(e, leafPlayer, value)));
      assert UpdateEdge(t, last, leafPlayer, value)[root].edges == t[root].edges[last.index := e'];
      VisitsUpdate(t[root].edges, last.index, e');
    } else {
      BackPropagatedRootVisits(t, root, crumbs, upTo - 1, leafPlayer, value);
      assert last.parent != root;
    }
  }
}
