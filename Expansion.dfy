/**
 * Expansion of a leaf: one new edge per valid action, each leading to the
 * stored node of the resulting state, which is inserted when its key is new.
 */
module Expansion {
  import opened Games
  import opened Graph

  /** Stores `node` under its state's key, replacing whatever was there. */
  function AddNode<S, K>(g: Game<S, K>, t: Tree<S, K>, node: Node<S, K>): (r: Tree<S, K>)
    ensures r.Keys == t.Keys + {g.key(node.state)}
    ensures r[g.key(node.state)] == node
    ensures forall k :: k in t && k != g.key(node.state) ==> r[k] == t[k]
  {
    t[g.key(node.state) := node]
  }

  /** The edges expansion gives a node in state s for the actions acts, in order. */
  function NewEdges<S, K>(g: Game<S, K>, s: S, acts: seq<nat>): (es: seq<Edge<K>>)
    ensures |es| == |acts|
  {
    seq(|acts|, i requires 0 <= i < |acts| =>
      Edge(acts[i], g.player(s), g.key(g.next(s, acts[i])), Unvisited))
  }

  /**
   * One step of expansion of the node stored under `leaf`: the state action a
   * leads to is looked up by key and inserted as a fresh node when absent,
   * and an unvisited edge to it is appended to the leaf's edges.
   */
  function AddChild<S, K>(g: Game<S, K>, t: Tree<S, K>, leaf: K, a: nat): (r: Tree<S, K>)
    requires leaf in t
    ensures t.Keys <= r.Keys && leaf in r
  {
    var s := t[leaf].state;
    var childState := g.next(s, a);
    var t1 := if g.key(childState) in t then t else AddNode(g, t, Node(childState, []));
    var parent := t1[leaf];
    t1[leaf := parent.(edges := parent.edges + NewEdges(g, s, [a]))]
  }

  /** Expansion of the node stored under `leaf` for the actions acts, one after another. */
  function ExpandWith<S, K>(g: Game<S, K>, t: Tree<S, K>, leaf: K, acts: seq<nat>): (r: Tree<S, K>)
    requires leaf in t
    ensures t.Keys <= r.Keys && leaf in r
    decreases |acts|
  {
    if acts == [] then t
    else AddChild(g, ExpandWith(g, t, leaf, acts[..|acts| - 1]), leaf, acts[|acts| - 1])
  }

  /** The destination keys of expanding state s with the actions acts. */
  function ChildKeys<S, K>(g: Game<S, K>, s: S, acts: seq<nat>): set<K> {
    set a | a in acts :: g.key(g.next(s, a))
  }

  /**
   * One step of expansion: the leaf keeps its state and gains one edge at the
   * end; the only key that may be added is the destination's, which then
   * holds a fresh leaf in the state a leads to; other nodes are untouched.
   */
  lemma AddChildEffect<S, K>(g: Game<S, K>, t: Tree<S, K>, leaf: K, a: nat)
    requires leaf in t
    ensures var r := AddChild(g, t, leaf, a); var s := t[leaf].state;
      && r[leaf] == t[leaf].(edges := t[leaf].edges + NewEdges(g, s, [a]))
      && r.Keys == t.Keys + {g.key(g.next(s, a))}
      && (forall k :: k in t && k != leaf ==> r[k] == t[k])
      && (forall k :: k in r && k !in t ==> r[k] == Node(g.next(s, a), []))
  {
  }

  /** Expansion leaves the leaf's state alone and appends one edge per action, in order. */
  lemma {:induction false} ExpandWithLeaf<S, K>(g: Game<S, K>, t: Tree<S, K>, leaf: K, acts: seq<nat>)
    requires leaf in t
    ensures ExpandWith(g, t, leaf, acts)[leaf]
         == t[leaf].(edges := t[leaf].edges + NewEdges(g, t[leaf].state, acts))
    decreases |acts|
  {
    if acts != [] {
      var s := t[leaf].state;
      var prefix := acts[..|acts| - 1];
      var a := acts[|acts| - 1];
      ExpandWithLeaf(g, t, leaf, prefix);
      AddChildEffect(g, ExpandWith(g, t, leaf, prefix), leaf, a);
      assert NewEdges(g, s, prefix) + NewEdges(g, s, [a]) == NewEdges(g, s, acts);
    }
  }

  /**
   * Expansion adds exactly the destination keys to the store, and every node
   * other than the leaf that was stored before is untouched.
   */
  lemma {:induction false} ExpandWithKeys<S, K>(g: Game<S, K>, t: Tree<S, K>, leaf: K, acts: seq<nat>)
    requires leaf in t
    ensures var r := ExpandWith(g, t, leaf, acts);
      && r.Keys == t.Keys + ChildKeys(g, t[leaf].state, acts)
      && forall k :: k in t && k != leaf ==> r[k] == t[k]
    decreases |acts|
  {
    if acts != [] {
      var s := t[leaf].state;
      var prefix := acts[..|acts| - 1];
      var a := acts[|acts| - 1];
      ExpandWithKeys(g, t, leaf, prefix);
      ExpandWithLeaf(g, t, leaf, prefix);
      AddChildEffect(g, ExpandWith(g, t, leaf, prefix), leaf, a);
      assert acts == prefix + [a];
      assert ChildKeys(g, s, acts) == ChildKeys(g, s, prefix) + {g.key(g.next(s, a))};
    }
  }

  /**
   * Every node expansion inserts is a fresh leaf stored under its own key,
   * holding the state one of the actions leads to.
   */
  lemma {:induction false} ExpandWithInserted<S, K>(g: Game<S, K>, t: Tree<S, K>, leaf: K, acts: seq<nat>, k: K)
    requires leaf in t
    requires k in ExpandWith(g, t, leaf, acts) && k !in t
    ensures var r := ExpandWith(g, t, leaf, acts);
      && r[k].edges == []
      && g.key(r[k].state) == k
      && exists a :: a in acts && r[k].state == g.next(t[leaf].state, a)
    decreases |acts|
  {
    var s := t[leaf].state;
    var prefix := acts[..|acts| - 1];
    var a := acts[|acts| - 1];
    var r0 := ExpandWith(g, t, leaf, prefix);
    ExpandWithLeaf(g, t, leaf, prefix);
    ExpandWithKeys(g, t, leaf, prefix);
    AddChildEffect(g, r0, leaf, a);
    assert a in acts;
    if k in r0 {
      ExpandWithInserted(g, t, leaf, prefix, k);
      var a' :| a' in prefix && r0[k].state == g.next(s, a');
      assert a' in acts;
    }
  }

  /**
   * Expanding an unfinished leaf of a well-formed tree with its state's valid
   * actions keeps the tree well-formed.
   */
  lemma ExpandKeepsWf<S(!new), K>(g: Game<S, K>, t: Tree<S, K>, leaf: K)
    requires WellFormed(g) && Wf(g, t)
    requires leaf in t && t[leaf].edges == [] && !g.finished(t[leaf].state)
    ensures Wf(g, ExpandWith(g, t, leaf, g.actions(t[leaf].state)))
  {
    var r := ExpandWith(g, t, leaf, g.actions(t[leaf].state));
    forall k | k in r
      ensures WfNode(g, r, k)
    {
      ExpandedNodeWf(g, t, leaf, k);
    }
  }

  /** Each node of the expanded tree satisfies the tree's invariant. */
  lemma ExpandedNodeWf<S(!new), K>(g: Game<S, K>, t: Tree<S, K>, leaf: K, k: K)
    requires WellFormed(g) && Wf(g, t)
    requires leaf in t && t[leaf].edges == [] && !g.finished(t[leaf].state)
    requires k in ExpandWith(g, t, leaf, g.actions(t[leaf].state))
    ensures WfNode(g, ExpandWith(g, t, leaf, g.actions(t[leaf].state)), k)
  {
    ExpandWithKeys(g, t, leaf, g.actions(t[leaf].state));
    if k == leaf {
      ExpandedLeafWf(g, t, leaf);
    } else if k in t {
      ExpandedOldNodeWf(g, t, leaf, k);
    } else {
      ExpandWithInserted(g, t, leaf, g.actions(t[leaf].state), k);
    }
  }

  /** The expanded leaf mirrors its valid actions and its edges lower the rank. */
  lemma ExpandedLeafWf<S(!new), K>(g: Game<S, K>, t: Tree<S, K>, leaf: K)
    requires WellFormed(g) && Wf(g, t)
    requires leaf in t && t[leaf].edges == [] && !g.finished(t[leaf].state)
    ensures WfNode(g, ExpandWith(g, t, leaf, g.actions(t[leaf].state)), leaf)
  {
    var s := t[leaf].state;
    var acts := g.actions(s);
    var r := ExpandWith(g, t, leaf, acts);
    var es := NewEdges(g, s, acts);
    ExpandWithKeys(g, t, leaf, acts);
    ExpandWithLeaf(g, t, leaf, acts);
    assert WfNode(g, t, leaf);
    assert r[leaf] == Node(s, es) by {
      assert [] + es == es;
    }
    NewEdgesMirror(g, s);
    forall i | 0 <= i < |es| ensures es[i].child in r {
      assert acts[i] in acts;
    }
    NewEdgesLowerRank(g, s);
  }

  /** A node given the edges of its valid actions mirrors them. */
  lemma NewEdgesMirror<S(!new), K>(g: Game<S, K>, s: S)
    requires WellFormed(g) && !g.finished(s)
    ensures Mirrors(g, Node(s, NewEdges(g, s, g.actions(s))))
  {
  }

  /** The new edges of a state's valid actions are unvisited and lead to states of lower rank. */
  lemma NewEdgesLowerRank<S(!new), K>(g: Game<S, K>, s: S)
    requires WellFormed(g) && !g.finished(s)
    ensures forall e :: e in NewEdges(g, s, g.actions(s)) ==>
      g.rank(e.child) < g.rank(g.key(s)) && Consistent(e.stats)
  {
    var acts := g.actions(s);
    var es := NewEdges(g, s, acts);
    forall e | e in es ensures g.rank(e.child) < g.rank(g.key(s)) && Consistent(e.stats) {
      var i :| 0 <= i < |es| && es[i] == e;
      assert acts[i] in acts;
    }
  }

  /** A node stored before the expansion, other than the leaf, keeps the invariant. */
  lemma ExpandedOldNodeWf<S(!new), K>(g: Game<S, K>, t: Tree<S, K>, leaf: K, k: K)
    requires Wf(g, t)
    requires leaf in t && k in t && k != leaf
    ensures WfNode(g, ExpandWith(g, t, leaf, g.actions(t[leaf].state)), k)
  {
    var r := ExpandWith(g, t, leaf, g.actions(t[leaf].state));
    ExpandWithKeys(g, t, leaf, g.actions(t[leaf].state));
    assert WfNode(g, t, k);
    forall e | e in r[k].edges
      ensures e.child in r
    {
      assert e in t[k].edges;
    }
  }
}
