/**
 * The search graph: nodes, edges and their statistics, stored in an arena
 * keyed by state key. An edge names its destination by key, so several
 * parents may share one child (a transposition) and the graph is a DAG.
 */
module Graph {
  import opened Games

  /** Running statistics of an edge: visit count N, total value W, mean value Q. */
  datatype Stats = Stats(n: nat, w: real, q: real)

  /** The statistics every new edge starts with. */
  const Unvisited := Stats(0, 0.0, 0.0)

  /**
   * An edge of the graph: the action it plays, the player to move in its
   * source node, the key of its destination node, and its statistics. Its
   * source node is the node whose edge list holds it.
   */
  datatype Edge<K> = Edge(action: nat, player: Player, child: K, stats: Stats)

  /** A node: one game state and its outgoing edges in expansion order. */
  datatype Node<S, K> = Node(state: S, edges: seq<Edge<K>>)

  /** The store: state key to node. It owns every node of the graph. */
  type Tree<S, K(==)> = map<K, Node<S, K>>

  /** A reference to an edge: the key of its source node and its position there. */
  datatype EdgeRef<K> = EdgeRef(parent: K, index: nat)

  /** Q is the mean W/N of a visited edge; an unvisited edge has W and Q at 0. */
  ghost predicate Consistent(st: Stats) {
    && (st.n == 0 ==> st.w == 0.0 && st.q == 0.0)
    && (st.n > 0 ==> st.q == st.w / st.n as real)
  }

  /**
   * An expanded node is an unfinished state whose edges follow its valid
   * actions one for one: same action, the state's player to move, and the
   * key of the state the action leads to.
   */
  ghost predicate Mirrors<S(!new), K>(g: Game<S, K>, node: Node<S, K>) {
    node.edges != [] ==>
      var s := node.state;
      && !g.finished(s)
      && |node.edges| == |g.actions(s)|
      && forall i :: 0 <= i < |node.edges| ==>
           var e := node.edges[i];
           && e.action == g.actions(s)[i]
           && e.player == g.player(s)
           && e.child == g.key(g.next(s, e.action))
  }

  /**
   * The node stored under k is stored under its own state's key, mirrors its
   * state's actions, and each of its edges leads to a stored node of smaller
   * rank and carries consistent statistics.
   */
  ghost predicate WfNode<S(!new), K>(g: Game<S, K>, t: Tree<S, K>, k: K)
    requires k in t
  {
    && g.key(t[k].state) == k
    && Mirrors(g, t[k])
    && forall e :: e in t[k].edges ==>
         e.child in t && g.rank(e.child) < g.rank(k) && Consistent(e.stats)
  }

  /** The tree's invariant: every stored node satisfies WfNode. */
  ghost predicate Wf<S(!new), K>(g: Game<S, K>, t: Tree<S, K>) {
    forall k :: k in t ==> WfNode(g, t, k)
  }

  /** r names an edge of t. */
  ghost predicate IsEdge<S, K>(t: Tree<S, K>, r: EdgeRef<K>) {
    r.parent in t && r.index < |t[r.parent].edges|
  }

  /** The destination key of the edge r. */
  function ChildOf<S, K>(t: Tree<S, K>, r: EdgeRef<K>): K
    requires IsEdge(t, r)
  {
    t[r.parent].edges[r.index].child
  }

  /**
   * crumbs is a chain of edges from the node `from` to the node `to`: the
   * first edge leaves `from`, each edge leaves the node the one before it
   * enters, and the last enters `to`; with no edges, `to` is `from`.
   */
  ghost predicate IsPath<S, K>(t: Tree<S, K>, from: K, crumbs: seq<EdgeRef<K>>, to: K) {
    && (forall j :: 0 <= j < |crumbs| ==> IsEdge(t, crumbs[j]))
    && (if crumbs == [] then to == from
        else
          && crumbs[0].parent == from
          && ChildOf(t, crumbs[|crumbs| - 1]) == to
          && forall j :: 0 < j < |crumbs| ==> crumbs[j].parent == ChildOf(t, crumbs[j - 1]))
  }

  /** k is reachable from the stored node `from` along edges of t. */
  ghost predicate Reachable<S, K(!new)>(t: Tree<S, K>, from: K, k: K) {
    from in t && exists crumbs :: IsPath(t, from, crumbs, k)
  }

  /** The part of t reachable from k, every node unchanged. */
  ghost function Subtree<S, K(!new)>(t: Tree<S, K>, k: K): Tree<S, K> {
    map x | x in t && Reachable(t, k, x) :: t[x]
  }

  /** Sum of the visit counts N of a list of edges. */
  function Visits<K>(edges: seq<Edge<K>>): nat {
    if edges == [] then 0 else Visits(edges[..|edges| - 1]) + edges[|edges| - 1].stats.n
  }

  /** Replacing one edge changes the visit sum by the difference of the two counts. */
  lemma {:induction false} VisitsUpdate<K>(edges: seq<Edge<K>>, i: nat, e: Edge<K>)
    requires i < |edges|
    ensures Visits(edges[i := e]) + edges[i].stats.n == Visits(edges) + e.stats.n
    decreases |edges|
  {
    var last := |edges| - 1;
    var updated := edges[i := e];
    assert updated[..last] == if i == last then edges[..last] else edges[..last][i := e];
    if i < last {
      VisitsUpdate(edges[..last], i, e);
    }
  }

  /** Edges that were never visited sum to zero visits. */
  lemma {:induction false} VisitsUnvisited<K>(edges: seq<Edge<K>>)
    requires forall i :: 0 <= i < |edges| ==> edges[i].stats.n == 0
    ensures Visits(edges) == 0
    decreases |edges|
  {
    if edges != [] {
      VisitsUnvisited(edges[..|edges| - 1]);
    }
  }

  /** Along a path of a well-formed tree, ranks strictly decrease edge by edge. */
  lemma {:induction false} PathRanksDecrease<S(!new), K>(
    g: Game<S, K>, t: Tree<S, K>, from: K, crumbs: seq<EdgeRef<K>>, to: K, i: nat, j: nat)
    requires Wf(g, t) && IsPath(t, from, crumbs, to)
    requires i < j <= |crumbs|
    ensures g.rank(if j == |crumbs| then to else crumbs[j].parent) < g.rank(crumbs[i].parent)
    decreases j - i
  {
    var e := t[crumbs[j - 1].parent].edges[crumbs[j - 1].index];
    assert WfNode(g, t, crumbs[j - 1].parent) && e in t[crumbs[j - 1].parent].edges;
    if i < j - 1 {
      PathRanksDecrease(g, t, from, crumbs, to, i, j - 1);
    }
  }

  /**
   * A path of a well-formed tree visits distinct nodes: the source node of
   * every edge is `from` only for the first edge, no two edges leave the same
   * node, and a non-empty path ends at a node other than every source node.
   */
  lemma PathIsSimple<S(!new), K>(g: Game<S, K>, t: Tree<S, K>, from: K, crumbs: seq<EdgeRef<K>>, to: K)
    requires Wf(g, t) && IsPath(t, from, crumbs, to)
    ensures forall i, j :: 0 <= i < j < |crumbs| ==> crumbs[i].parent != crumbs[j].parent
    ensures forall j :: 0 < j < |crumbs| ==> crumbs[j].parent != from
    ensures forall j :: 0 <= j < |crumbs| ==> crumbs[j].parent != to
    ensures crumbs != [] ==> to != from
  {
    forall i, j | 0 <= i < j <= |crumbs|
      ensures g.rank(if j == |crumbs| then to else crumbs[j].parent) < g.rank(crumbs[i].parent)
    {
      PathRanksDecrease(g, t, from, crumbs, to, i, j);
    }
  }

  /** Following one more edge out of a reachable node reaches its destination. */
  lemma ReachableStep<S, K(!new)>(t: Tree<S, K>, from: K, k: K, i: nat)
    requires Reachable(t, from, k) && k in t && i < |t[k].edges|
    ensures Reachable(t, from, t[k].edges[i].child)
  {
    var crumbs :| IsPath(t, from, crumbs, k);
    var longer := crumbs + [EdgeRef(k, i)];
    assert IsPath(t, from, longer, t[k].edges[i].child);
  }

  /**
   * A set of keys that holds `from` and the destination of every edge leaving
   * its members holds every node reachable from `from`.
   */
  lemma {:induction false} ClosedHoldsPaths<S, K>(
    t: Tree<S, K>, keys: set<K>, from: K, crumbs: seq<EdgeRef<K>>, to: K)
    requires from in keys
    requires forall k, e :: k in keys && k in t && e in t[k].edges ==> e.child in keys
    requires IsPath(t, from, crumbs, to)
    ensures to in keys
    decreases |crumbs|
  {
    if crumbs != [] {
      var last := crumbs[|crumbs| - 1];
      var prefix := crumbs[..|crumbs| - 1];
      assert IsPath(t, from, prefix, last.parent);
      ClosedHoldsPaths(t, keys, from, prefix, last.parent);
      assert t[last.parent].edges[last.index] in t[last.parent].edges;
    }
  }

  /** Everything reachable from a stored node of a well-formed tree is stored. */
  lemma ReachableIsStored<S(!new), K(!new)>(g: Game<S, K>, t: Tree<S, K>, from: K, k: K)
    requires Wf(g, t) && Reachable(t, from, k)
    ensures k in t
  {
    var crumbs :| IsPath(t, from, crumbs, k);
    forall k', e | k' in t.Keys && k' in t && e in t[k'].edges
      ensures e.child in t.Keys
    {
      assert WfNode(g, t, k');
    }
    ClosedHoldsPaths(t, t.Keys, from, crumbs, k);
  }

  /** Following edge j of the stored node k leads to a node from which x is reachable. */
  ghost predicate ReachableVia<S, K(!new)>(t: Tree<S, K>, k: K, j: nat, x: K) {
    k in t && j < |t[k].edges| && Reachable(t, t[k].edges[j].child, x)
  }

  /** A chain of edges extended by one edge out of its end node. */
  lemma PathExtend<S, K>(t: Tree<S, K>, from: K, crumbs: seq<EdgeRef<K>>, to: K, i: nat)
    requires IsPath(t, from, crumbs, to) && to in t && i < |t[to].edges|
    ensures IsPath(t, from, crumbs + [EdgeRef(to, i)], t[to].edges[i].child)
  {
  }

  /** Whatever is reachable from the destination of an edge of k is reachable from k. */
  lemma ReachableThrough<S, K(!new)>(t: Tree<S, K>, k: K, j: nat, x: K)
    requires ReachableVia(t, k, j, x)
    ensures Reachable(t, k, x)
  {
    var r := EdgeRef(k, j);
    var child := t[k].edges[j].child;
    var crumbs: seq<EdgeRef<K>> :| IsPath(t, child, crumbs, x);
    var longer := [r] + crumbs;
    forall m | 0 < m < |longer|
      ensures longer[m].parent == ChildOf(t, longer[m - 1])
    {
      assert longer[m] == crumbs[m - 1];
      if m > 1 {
        assert longer[m - 1] == crumbs[m - 2];
      }
    }
    assert IsPath(t, k, longer, x);
  }

  /** A stored node reachable from k other than k itself is reachable through one of k's edges. */
  lemma ReachableSplit<S, K(!new)>(t: Tree<S, K>, k: K, x: K)
    requires Reachable(t, k, x) && x != k && x in t
    ensures exists j :: ReachableVia(t, k, j, x)
  {
    var crumbs: seq<EdgeRef<K>> :| IsPath(t, k, crumbs, x);
    var j := crumbs[0].index;
    var child := t[k].edges[j].child;
    var rest := crumbs[1..];
    forall m | 0 <= m < |rest| ensures IsEdge(t, rest[m]) {
      assert rest[m] == crumbs[m + 1];
    }
    if rest != [] {
      forall m | 0 < m < |rest|
        ensures rest[m].parent == ChildOf(t, rest[m - 1])
      {
        assert rest[m] == crumbs[m + 1] && rest[m - 1] == crumbs[m];
      }
      assert rest[0] == crumbs[1];
      assert rest[|rest| - 1] == crumbs[|crumbs| - 1];
    }
    assert IsPath(t, child, rest, x);
    assert ReachableVia(t, k, j, x);
  }

  /** Without its first edge, a path leads on from that edge's destination. */
  lemma PathTail<S, K>(t: Tree<S, K>, from: K, crumbs: seq<EdgeRef<K>>, to: K)
    requires IsPath(t, from, crumbs, to) && crumbs != []
    ensures IsPath(t, ChildOf(t, crumbs[0]), crumbs[1..], to)
  {
    var rest := crumbs[1..];
    forall m | 0 <= m < |rest| ensures IsEdge(t, rest[m]) {
      assert rest[m] == crumbs[m + 1];
    }
    if rest != [] {
      forall m | 0 < m < |rest|
        ensures rest[m].parent == ChildOf(t, rest[m - 1])
      {
        assert rest[m] == crumbs[m + 1] && rest[m - 1] == crumbs[m];
      }
      assert rest[0] == crumbs[1];
      assert rest[|rest| - 1] == crumbs[|crumbs| - 1];
    }
  }

  /**
   * A sub-store that agrees with a well-formed store on its nodes and holds
   * the destination of each of its edges is well formed.
   */
  lemma ClosedSubtreeWf<S(!new), K>(g: Game<S, K>, t: Tree<S, K>, u: Tree<S, K>)
    requires Wf(g, t)
    requires forall k :: k in u ==> k in t && u[k] == t[k]
    requires forall k, e :: k in u && e in u[k].edges ==> e.child in u
    ensures Wf(g, u)
  {
    forall k | k in u ensures WfNode(g, u, k) {
      assert WfNode(g, t, k);
    }
  }
}
