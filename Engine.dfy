/**
 * The search engine: a store of search nodes keyed by state, the key of the
 * current root, and the steps of one search from a given state. A call of
 * GetDistribution sets the root (a fresh store, or the root's subtree of the
 * old one), runs the configured number of simulations, and turns the root
 * edges' visit counts into a distribution over the action space.
 */
module Engine {
  import opened Wrappers
  import opened Games
  import opened Graph
  import opened Selection
  import opened Expansion
  import opened Backpropagation
  import opened Distribution

  /** The newest edges of a node have no visits yet. */
  lemma NewEdgesUnvisited<S, K>(g: Game<S, K>, s: S, acts: seq<nat>)
    ensures Visits(NewEdges(g, s, acts)) == 0
  {
    var es := NewEdges(g, s, acts);
    forall i | 0 <= i < |es| ensures es[i].stats.n == 0 {
    }
    VisitsUnvisited(es);
  }

  /**
   * One step of backpropagation on the edge r: N grows by one, W by the
   * leaf's value times the edge's sign, and Q becomes W/N.
   */
  method BumpEdge<S, K>(t: Tree<S, K>, r: EdgeRef<K>, leafPlayer: Player, value: real) returns (u: Tree<S, K>)
    requires IsEdge(t, r)
    ensures u == UpdateEdge(t, r, leafPlayer, value)
  {
    var node := t[r.parent];
    var edge := node.edges[r.index];
    var sign := if edge.player == leafPlayer then 1.0 else -1.0;
    var n := edge.stats.n + 1;
    var w := edge.stats.w + value * sign;
    var q := w / n as real;
    assert value * sign == Signed(edge, leafPlayer, value) by {
      if edge.player == leafPlayer {
        assert sign == 1.0;
      } else {
        assert sign == -1.0;
      }
    }
    BumpIs(edge.stats, Signed(edge, leafPlayer, value), n, w, q);
    var edge' := edge.(stats := Stats(n, w, q));
    u := t[r.parent := node.(edges := node.edges[r.index := edge'])];
  }

  /**
   * Adds one visit and the leaf's value, signed for the edge's player, to
   * every edge of the path, first to last. The store is passed and returned
   * whole, since the edges it updates live in the store's nodes.
   */
  method BackPropagate<S, K>(g: Game<S, K>, t: Tree<S, K>, leaf: Node<S, K>, value: real, crumbs: seq<EdgeRef<K>>)
    returns (u: Tree<S, K>)
    requires forall j :: 0 <= j < |crumbs| ==> IsEdge(t, crumbs[j])
    ensures u == BackPropagated(t, crumbs, |crumbs|, g.player(leaf.state), value)
  {
    var leafPlayer := g.player(leaf.state);
    u := t;
    for j := 0 to |crumbs|
      invariant u == BackPropagated(t, crumbs, j, leafPlayer, value)
    {
      BackPropagatedNext(t, crumbs, j, leafPlayer, value);
      u := BumpEdge(u, crumbs[j], leafPlayer, value);
    }
  }

  /**
   * Expanding the end of a path of a well-formed store keeps every stored
   * key, the leaf's state, the path's edges, and, when the path is not
   * empty, the node it starts from, and gives an empty path's node its new
   * edges.
   */
  lemma ExpandAtPathEnd<S(!new), K>(g: Game<S, K>, t: Tree<S, K>, from: K, crumbs: seq<EdgeRef<K>>, leaf: K)
    requires Wf(g, t) && IsPath(t, from, crumbs, leaf) && leaf in t && t[leaf].edges == []
    ensures var s := t[leaf].state; var u := ExpandWith(g, t, leaf, g.actions(s));
      && t.Keys <= u.Keys
      && u[leaf].state == s
      && (forall j :: 0 <= j < |crumbs| ==> IsEdge(u, crumbs[j]))
      && (crumbs != [] ==> u[from] == t[from])
      && (crumbs == [] ==> u[from].edges == NewEdges(g, s, g.actions(s)))
  {
    var s := t[leaf].state;
    PathIsSimple(g, t, from, crumbs, leaf);
    ExpandWithKeys(g, t, leaf, g.actions(s));
    ExpandWithLeaf(g, t, leaf, g.actions(s));
    var u := ExpandWith(g, t, leaf, g.actions(s));
    forall j | 0 <= j < |crumbs| ensures IsEdge(u, crumbs[j]) {
      assert IsEdge(t, crumbs[j]) && crumbs[j].parent != leaf;
    }
  }

  /**
   * How a leaf in state s is valued, with the draw counter going from
   * `before` to `after`: a finished state by the game's own value, with no
   * draw used; an unfinished one by random play from draw `before` on,
   * negated when the player to move at the end is not the player to move
   * in s, with `after` the first draw not used.
   */
  ghost predicate Evaluated<S(!new), K>(g: Game<S, K>, s: S, random: nat -> nat, before: nat, after: nat, value: real)
    requires WellFormed(g)
  {
    if g.finished(s) then after == before && value == g.value(s)
    else
      var (final, d) := Playout(g, s, random, before);
      && after == d
      && value == (if g.player(final) == g.player(s) then g.value(final) else -g.value(final))
  }

  /**
   * What one simulation does to the root: an expanded root keeps its edges
   * and gains one visit in all; an unexpanded root is left alone when its
   * game is over, and otherwise gets one unvisited edge per valid action.
   */
  ghost predicate SimulatedRoot<S, K>(g: Game<S, K>, before: Node<S, K>, after: Node<S, K>) {
    && after.state == before.state
    && if before.edges != [] then
         |after.edges| == |before.edges| && Visits(after.edges) == Visits(before.edges) + 1
       else if g.finished(before.state) then after == before
       else after.edges == NewEdges(g, before.state, g.actions(before.state)) && Visits(after.edges) == 0
  }

  /**
   * The store after the leaf at the end of a path is expanded (or left
   * alone, when its game is over) still holds every edge of the path and
   * the leaf's state.
   */
  lemma PathKeptByExpansion<S(!new), K>(g: Game<S, K>, t: Tree<S, K>, root: K, crumbs: seq<EdgeRef<K>>, leaf: K, t1: Tree<S, K>)
    requires Wf(g, t) && leaf in t && t[leaf].edges == []
    requires IsPath(t, root, crumbs, leaf)
    requires g.finished(t[leaf].state) ==> t1 == t
    requires !g.finished(t[leaf].state) ==> t1 == ExpandWith(g, t, leaf, g.actions(t[leaf].state))
    ensures forall j :: 0 <= j < |crumbs| ==> IsEdge(t1, crumbs[j])
    ensures leaf in t1 && t1[leaf].state == t[leaf].state
  {
    if !g.finished(t[leaf].state) {
      ExpandAtPathEnd(g, t, root, crumbs, leaf);
    }
  }

  /**
   * t' and d' are the store and the draw counter after one simulation from
   * the root in store t with counter d, through the given leaf, path and
   * value: the path leads from the root along selected edges, none taken
   * twice, to an unexpanded leaf; the leaf is valued as Evaluated says and
   * expanded unless its game is over; and t' is that expanded store with
   * the value propagated along the path for the leaf's player.
   */
  ghost predicate SimulatedVia<S(!new), K>(
    g: Game<S, K>, ucb: (real, nat, nat) -> real, random: nat -> nat, root: K, t: Tree<S, K>, d: nat,
    leaf: K, crumbs: seq<EdgeRef<K>>, value: real, t': Tree<S, K>, d': nat)
  {
    && WellFormed(g)
    && leaf in t && t[leaf].edges == []
    && IsPath(t, root, crumbs, leaf) && NoRepeats(crumbs)
    && (forall j :: 0 <= j < |crumbs| ==> IsSelected(t[crumbs[j].parent].edges, ucb, crumbs[j].index))
    && var s := t[leaf].state;
       var expanded := if g.finished(s) then t else ExpandWith(g, t, leaf, g.actions(s));
       && Evaluated(g, s, random, d, d', value)
       && (forall j :: 0 <= j < |crumbs| ==> IsEdge(expanded, crumbs[j]))
       && t' == BackPropagated(expanded, crumbs, |crumbs|, g.player(s), value)
  }

  /** Some leaf, path and value take store t and counter d to t' and d' in one simulation. */
  ghost predicate SimulationStep<S(!new), K(!new)>(
    g: Game<S, K>, ucb: (real, nat, nat) -> real, random: nat -> nat, root: K,
    t: Tree<S, K>, d: nat, t': Tree<S, K>, d': nat)
  {
    exists leaf, crumbs, value :: SimulatedVia(g, ucb, random, root, t, d, leaf, crumbs, value, t', d')
  }

  /**
   * Selection is deterministic, so there is only one path of selected
   * edges from a node to an unexpanded node.
   */
  lemma {:induction false} SelectedPathUnique<S, K>(
    t: Tree<S, K>, ucb: (real, nat, nat) -> real, from: K,
    crumbs: seq<EdgeRef<K>>, leaf: K, crumbs': seq<EdgeRef<K>>, leaf': K)
    requires IsPath(t, from, crumbs, leaf) && leaf in t && t[leaf].edges == []
    requires IsPath(t, from, crumbs', leaf') && leaf' in t && t[leaf'].edges == []
    requires forall j :: 0 <= j < |crumbs| ==> IsSelected(t[crumbs[j].parent].edges, ucb, crumbs[j].index)
    requires forall j :: 0 <= j < |crumbs'| ==> IsSelected(t[crumbs'[j].parent].edges, ucb, crumbs'[j].index)
    ensures crumbs == crumbs' && leaf == leaf'
    decreases |crumbs|
  {
    if crumbs != [] && crumbs' != [] {
      SelectedIsUnique(t[from].edges, ucb, crumbs[0].index, crumbs'[0].index);
      assert crumbs[0] == crumbs'[0];
      var mid := ChildOf(t, crumbs[0]);
      PathTail(t, from, crumbs, leaf);
      PathTail(t, from, crumbs', leaf');
      forall j | 0 <= j < |crumbs| - 1
        ensures IsSelected(t[crumbs[1..][j].parent].edges, ucb, crumbs[1..][j].index)
      {
        assert crumbs[1..][j] == crumbs[j + 1];
      }
      forall j | 0 <= j < |crumbs'| - 1
        ensures IsSelected(t[crumbs'[1..][j].parent].edges, ucb, crumbs'[1..][j].index)
      {
        assert crumbs'[1..][j] == crumbs'[j + 1];
      }
      SelectedPathUnique(t, ucb, mid, crumbs[1..], leaf, crumbs'[1..], leaf');
      assert crumbs == [crumbs[0]] + crumbs[1..];
      assert crumbs' == [crumbs'[0]] + crumbs'[1..];
    }
  }

  /**
   * A simulation step is a function of the store and the draw counter:
   * from the same store and counter, one simulation always ends in the
   * same store and counter.
   */
  lemma SimulationStepUnique<S(!new), K(!new)>(
    g: Game<S, K>, ucb: (real, nat, nat) -> real, random: nat -> nat, root: K, t: Tree<S, K>, d: nat,
    t1: Tree<S, K>, d1: nat, t2: Tree<S, K>, d2: nat)
    requires SimulationStep(g, ucb, random, root, t, d, t1, d1)
    requires SimulationStep(g, ucb, random, root, t, d, t2, d2)
    ensures t1 == t2 && d1 == d2
  {
    var leaf1, crumbs1, value1 :| SimulatedVia(g, ucb, random, root, t, d, leaf1, crumbs1, value1, t1, d1);
    var leaf2, crumbs2, value2 :| SimulatedVia(g, ucb, random, root, t, d, leaf2, crumbs2, value2, t2, d2);
    SelectedPathUnique(t, ucb, root, crumbs1, leaf1, crumbs2, leaf2);
    EvaluatedUnique(g, t[leaf1].state, random, d, d1, value1, d2, value2);
  }

  /** A leaf's value and the draws it uses are a function of its state and the draw counter. */
  lemma EvaluatedUnique<S(!new), K>(
    g: Game<S, K>, s: S, random: nat -> nat, before: nat, after1: nat, value1: real, after2: nat, value2: real)
    requires WellFormed(g)
    requires Evaluated(g, s, random, before, after1, value1) && Evaluated(g, s, random, before, after2, value2)
    ensures after1 == after2 && value1 == value2
  {
  }

  /**
   * trees and draws list the store and the draw counter before each of a
   * run of simulations from the root and after the last one: each entry
   * leads to the next by a simulation step.
   */
  ghost predicate Simulations<S(!new), K(!new)>(
    g: Game<S, K>, ucb: (real, nat, nat) -> real, random: nat -> nat, root: K,
    trees: seq<Tree<S, K>>, draws: seq<nat>)
  {
    && |trees| == |draws|
    && forall i :: 0 <= i < |trees| - 1 ==>
         SimulationStep(g, ucb, random, root, trees[i], draws[i], trees[i + 1], draws[i + 1])
  }

  /** A simulation through some leaf, path and value is a simulation step. */
  lemma SimulatedStep<S(!new), K(!new)>(
    g: Game<S, K>, ucb: (real, nat, nat) -> real, random: nat -> nat, root: K, t: Tree<S, K>, d: nat,
    leaf: K, crumbs: seq<EdgeRef<K>>, value: real, t': Tree<S, K>, d': nat)
    requires SimulatedVia(g, ucb, random, root, t, d, leaf, crumbs, value, t', d')
    ensures SimulationStep(g, ucb, random, root, t, d, t', d')
  {
  }

  /** A run of simulations followed by one more simulation step is a run of simulations. */
  lemma SimulationsExtend<S(!new), K(!new)>(
    g: Game<S, K>, ucb: (real, nat, nat) -> real, random: nat -> nat, root: K,
    trees: seq<Tree<S, K>>, draws: seq<nat>, t': Tree<S, K>, d': nat)
    requires Simulations(g, ucb, random, root, trees, draws) && trees != []
    requires SimulationStep(g, ucb, random, root, trees[|trees| - 1], draws[|draws| - 1], t', d')
    ensures Simulations(g, ucb, random, root, trees + [t'], draws + [d'])
  {
    var n := |trees| - 1;
    var trees', draws' := trees + [t'], draws + [d'];
    assert trees'[n] == trees[n] && trees'[n + 1] == t' && draws'[n] == draws[n] && draws'[n + 1] == d';
    forall i | 0 <= i < n
      ensures SimulationStep(g, ucb, random, root, trees'[i], draws'[i], trees'[i + 1], draws'[i + 1])
    {
      assert trees'[i] == trees[i] && trees'[i + 1] == trees[i + 1];
      assert draws'[i] == draws[i] && draws'[i + 1] == draws[i + 1];
    }
  }

  /**
   * The root node after i simulations from the root node `start`: an
   * expanded start keeps its edges and has gained i visits; a finished
   * unexpanded start is unchanged; an unfinished unexpanded one is
   * unchanged before the first simulation, and afterwards expanded with
   * i - 1 visits.
   */
  ghost predicate RootAfter<S, K>(g: Game<S, K>, start: Node<S, K>, node: Node<S, K>, i: nat) {
    && node.state == start.state
    && (start.edges != [] ==> |node.edges| == |start.edges| && Visits(node.edges) == Visits(start.edges) + i)
    && (start.edges == [] && g.finished(start.state) ==> node == start)
    && (start.edges == [] && !g.finished(start.state) ==>
          if i == 0 then node == start else node.edges != [] && Visits(node.edges) == i - 1)
  }

  /** One simulation takes the root after i simulations to the root after i + 1. */
  lemma RootAfterStep<S(!new), K>(g: Game<S, K>, start: Node<S, K>, before: Node<S, K>, after: Node<S, K>, i: nat)
    requires WellFormed(g) && RootAfter(g, start, before, i) && SimulatedRoot(g, before, after)
    ensures RootAfter(g, start, after, i + 1)
  {
    if start.edges == [] && !g.finished(start.state) && i == 0 {
      assert |after.edges| == |g.actions(start.state)| > 0;
    }
  }

  /**
   * A simulation on the values: from a well-formed store t, a path to the
   * unexpanded leaf, the store t1 after the leaf is expanded (unless its
   * game is over), and the store u after propagation along the path keep
   * every key and change the root as SimulatedRoot says.
   */
  lemma SimulationOutcome<S(!new), K>(
    g: Game<S, K>, t: Tree<S, K>, root: K, crumbs: seq<EdgeRef<K>>, leaf: K, t1: Tree<S, K>,
    leafPlayer: Player, value: real, u: Tree<S, K>)
    requires WellFormed(g) && Wf(g, t) && root in t && leaf in t && t[leaf].edges == []
    requires IsPath(t, root, crumbs, leaf)
    requires g.finished(t[leaf].state) ==> t1 == t
    requires !g.finished(t[leaf].state) ==> t1 == ExpandWith(g, t, leaf, g.actions(t[leaf].state))
    requires forall j :: 0 <= j < |crumbs| ==> IsEdge(t1, crumbs[j])
    requires u == BackPropagated(t1, crumbs, |crumbs|, leafPlayer, value)
    ensures t.Keys <= u.Keys && root in u && SimulatedRoot(g, t[root], u[root])
  {
    var s := t[leaf].state;
    PathIsSimple(g, t, root, crumbs, leaf);
    if !g.finished(s) {
      ExpandAtPathEnd(g, t, root, crumbs, leaf);
      if crumbs == [] {
        NewEdgesUnvisited(g, s, g.actions(s));
      }
    }
    BackPropagatedShape(t1, crumbs, |crumbs|, leafPlayer, value);
    if crumbs != [] {
      BackPropagatedRootVisits(t1, root, crumbs, |crumbs|, leafPlayer, value);
    }
  }

  /**
   * One round of the copy loop: when `before` holds the nodes of `subtree`
   * and those reachable through the first i edges of k, and r adds the
   * destination of edge i and what is reachable from it, r holds those
   * reachable through the first i + 1 edges.
   */
  lemma CopiedThrough<S, K(!new)>(t: Tree<S, K>, k: K, i: nat, subtree: Tree<S, K>, before: Tree<S, K>, r: Tree<S, K>)
    requires k in t && i < |t[k].edges| && t[k].edges[i].child in t
    requires forall x :: x in before <==> x in subtree || exists j :: 0 <= j < i && ReachableVia(t, k, j, x)
    requires forall x :: x in r <==> x in before || x == t[k].edges[i].child || Reachable(t, t[k].edges[i].child, x)
    ensures forall x :: x in r <==> x in subtree || exists j :: 0 <= j < i + 1 && ReachableVia(t, k, j, x)
  {
    var child := t[k].edges[i].child;
    assert IsPath(t, child, [], child);
    forall x
      ensures x in r <==> x in subtree || exists j :: 0 <= j < i + 1 && ReachableVia(t, k, j, x)
    {
      if x in r && x !in before {
        assert ReachableVia(t, k, i, x);
      }
      if ReachableVia(t, k, i, x) {
        assert x in r;
      }
    }
  }

  class MctsClassic<S(!new), K(==, !new)> {
    /** The game being searched. */
    const game: Game<S, K>
    /** The upper confidence bound of an edge from its Q, its N and its siblings' total N. */
    const ucb: (real, nat, nat) -> real
    /** The stream of random draws random play takes its actions from. */
    const random: nat -> nat
    /** The number of simulations of one search. */
    const simulations: nat
    /** The store of search nodes, by state key. */
    var tree: Tree<S, K>
    /** The key of the root node, once a search has started. */
    var root: Option<K>
    /** How many random draws random play has used so far. */
    var drawn: nat

    /** The game is well formed, the store is well formed, and the root is stored. */
    ghost predicate Valid()
      reads this
    {
      WellFormed(game) && Wf(game, tree) && (root.Some? ==> root.value in tree)
    }

    /** An engine with an empty store and no root. */
    constructor (game: Game<S, K>, ucb: (real, nat, nat) -> real, random: nat -> nat, simulations: nat)
      requires WellFormed(game)
      ensures Valid()
      ensures this.game == game && this.ucb == ucb && this.random == random
      ensures this.simulations == simulations
      ensures tree == map[] && root == None && drawn == 0
    {
      this.game := game;
      this.ucb := ucb;
      this.random := random;
      this.simulations := simulations;
      tree := map[];
      root := None;
      drawn := 0;
    }

    /** Starts a new store that holds only a fresh root node in `state`. */
    method CreateTree(state: S)
      requires Valid()
      modifies this
      ensures Valid()
      ensures tree == map[game.key(state) := Node(state, [])]
      ensures root == Some(game.key(state)) && drawn == old(drawn)
    {
      tree := map[];
      var node := Node(state, []);
      root := Some(game.key(node.state));
      tree := AddNode(game, tree, node);
    }

    /**
     * Copies into `subtree` every node reachable from the stored node k,
     * depth first through k's edges in order.
     */
    method CopySubtree(k: K, subtree: Tree<S, K>) returns (r: Tree<S, K>)
      requires Wf(game, tree) && k in tree && k in subtree
      requires forall x :: x in subtree ==> x in tree && subtree[x] == tree[x]
      ensures forall x :: x in r ==> x in tree && r[x] == tree[x]
      ensures forall x :: x in r <==> x in subtree || Reachable(tree, k, x)
      decreases game.rank(k)
    {
      r := subtree;
      var edges := tree[k].edges;
      assert WfNode(game, tree, k);
      for i := 0 to |edges|
        invariant forall x :: x in r ==> x in tree && r[x] == tree[x]
        invariant forall x :: x in r <==> x in subtree || exists j :: 0 <= j < i && ReachableVia(tree, k, j, x)
      {
        var child := edges[i].child;
        assert edges[i] in tree[k].edges;
        assert WfNode(game, tree, child);
        ghost var before := r;
        r := AddNode(game, r, tree[child]);
        r := CopySubtree(child, r);
        CopiedThrough(tree, k, i, subtree, before, r);
      }
      forall x
        ensures x in r <==> x in subtree || Reachable(tree, k, x)
      {
        if Reachable(tree, k, x) && x !in subtree {
          ReachableIsStored(game, tree, k, x);
          ReachableSplit(tree, k, x);
        }
        if x in r && x !in subtree {
          var j :| 0 <= j < |edges| && ReachableVia(tree, k, j, x);
          ReachableThrough(tree, k, j, x);
        }
      }
    }

    /** Replaces the store by the nodes reachable from the stored node `node`. */
    method PruneTree(node: K)
      requires Valid() && node in tree
      modifies this
      ensures root == old(root) && drawn == old(drawn)
      ensures WellFormed(game) && Wf(game, tree)
      ensures forall x :: x in tree <==> Reachable(old(tree), node, x)
      ensures forall x :: x in tree ==> x in old(tree) && tree[x] == old(tree)[x]
      ensures tree == Subtree(old(tree), node)
    {
      assert WfNode(game, tree, node);
      assert IsPath(tree, node, [], node);
      var subtree := AddNode(game, map[], tree[node]);
      subtree := CopySubtree(node, subtree);
      forall x, e | x in subtree && e in subtree[x].edges
        ensures e.child in subtree
      {
        var i :| 0 <= i < |tree[x].edges| && tree[x].edges[i] == e;
        ReachableStep(tree, node, x, i);
      }
      ClosedSubtreeWf(game, tree, subtree);
      tree := subtree;
    }

    /**
     * Descends from the root along selected edges until it reaches a node
     * without edges; the path is the list of edges taken.
     */
    method MoveToLeaf() returns (leaf: K, crumbs: seq<EdgeRef<K>>)
      requires Valid() && root.Some?
      ensures leaf in tree && tree[leaf].edges == []
      ensures IsPath(tree, root.value, crumbs, leaf)
      ensures forall j :: 0 <= j < |crumbs| ==> IsSelected(tree[crumbs[j].parent].edges, ucb, crumbs[j].index)
      ensures crumbs == [] <==> tree[root.value].edges == []
    {
      var node := root.value;
      crumbs := [];
      while tree[node].edges != []
        invariant node in tree
        invariant IsPath(tree, root.value, crumbs, node)
        invariant forall j :: 0 <= j < |crumbs| ==> IsSelected(tree[crumbs[j].parent].edges, ucb, crumbs[j].index)
        decreases game.rank(node)
      {
        var i := BestEdge(tree[node].edges, ucb);
        var edge := tree[node].edges[i];
        assert edge in tree[node].edges && WfNode(game, tree, node);
        PathExtend(tree, root.value, crumbs, node, i);
        crumbs := crumbs + [EdgeRef(node, i)];
        node := edge.child;
      }
      leaf := node;
    }

    /**
     * One round of the expansion loop: the state action a leads to is
     * inserted as a fresh node when its key is new, and an unvisited edge
     * to it is appended to the leaf's edges.
     */
    method AddChildTo(leaf: K, a: nat)
      requires leaf in tree
      modifies this
      ensures tree == AddChild(game, old(tree), leaf, a)
      ensures root == old(root) && drawn == old(drawn)
    {
      var s := tree[leaf].state;
      var newState := game.next(s, a);
      if game.key(newState) !in tree {
        var newNode := Node(newState, []);
        tree := AddNode(game, tree, newNode);
      }
      var node := tree[leaf];
      var newEdge := Edge(a, game.player(s), game.key(newState), Unvisited);
      tree := tree[leaf := node.(edges := node.edges + [newEdge])];
      assert NewEdges(game, s, [a]) == [newEdge];
    }

    /** Gives the leaf one unvisited edge per valid action of its state, inserting new destinations. */
    method Expand(leaf: K)
      requires Valid() && leaf in tree && tree[leaf].edges == [] && !game.finished(tree[leaf].state)
      modifies this
      ensures Valid() && root == old(root) && drawn == old(drawn)
      ensures tree == ExpandWith(game, old(tree), leaf, game.actions(old(tree)[leaf].state))
    {
      var acts := game.actions(tree[leaf].state);
      for i := 0 to |acts|
        invariant leaf in tree && tree == ExpandWith(game, old(tree), leaf, acts[..i])
        invariant root == old(root) && drawn == old(drawn)
      {
        AddChildTo(leaf, acts[i]);
        assert acts[..i + 1][..i] == acts[..i];
      }
      assert acts[..|acts|] == acts;
      ExpandKeepsWf(game, old(tree), leaf);
    }

    /**
     * The value of the leaf: random play's result for an unfinished leaf,
     * which is then expanded, and the game's own value for a finished one,
     * which is left alone.
     */
    method Evaluate(leaf: K) returns (value: real)
      requires Valid() && leaf in tree && tree[leaf].edges == []
      modifies this
      ensures Valid() && root == old(root)
      ensures var s := old(tree)[leaf].state;
        && tree == (if game.finished(s) then old(tree) else ExpandWith(game, old(tree), leaf, game.actions(s)))
        && Evaluated(game, s, random, old(drawn), drawn, value)
    {
      var state := tree[leaf].state;
      if !game.finished(state) {
        var v, d := Rollout(game, state, random, drawn);
        value, drawn := v, d;
        Expand(leaf);
      } else {
        value := game.value(state);
      }
    }

    /**
     * Propagation of the leaf's value along the path, applied to the store
     * (the edges the path names are the store's own).
     */
    method Propagate(leaf: K, value: real, crumbs: seq<EdgeRef<K>>)
      requires Valid() && leaf in tree
      requires forall j :: 0 <= j < |crumbs| ==> IsEdge(tree, crumbs[j])
      modifies this
      ensures Valid() && root == old(root) && drawn == old(drawn)
      ensures tree == BackPropagated(old(tree), crumbs, |crumbs|, game.player(old(tree)[leaf].state), value)
    {
      var propagated := BackPropagate(game, tree, tree[leaf], value, crumbs);
      BackPropagatedWf(game, tree, crumbs, |crumbs|, game.player(tree[leaf].state), value);
      tree := propagated;
    }

    /**
     * One simulation: select a path to a leaf; an unfinished leaf is valued
     * by random play and expanded, a finished one by its own value; the
     * value is then propagated along the path. The ghost results name the
     * leaf, the path and the value (SimulatedVia). The root's edges gain
     * one visit in all when they exist, and are created unvisited otherwise.
     */
    method Simulate() returns (ghost leaf: K, ghost crumbs: seq<EdgeRef<K>>, ghost value: real)
      requires Valid() && root.Some?
      modifies this
      ensures Valid() && root == old(root)
      ensures SimulatedVia(game, ucb, random, root.value, old(tree), old(drawn), leaf, crumbs, value, tree, drawn)
      ensures old(tree).Keys <= tree.Keys
      ensures SimulatedRoot(game, old(tree)[root.value], tree[root.value])
    {
      var l, c := MoveToLeaf();
      leaf, crumbs := l, c;
      ghost var t0 := tree;
      var v := Evaluate(l);
      value := v;
      PathKeptByExpansion(game, t0, root.value, c, l, tree);
      PathNoRepeats(game, t0, root.value, c, l);
      ghost var expanded := tree;
      Propagate(l, v, c);
      SimulationOutcome(game, t0, root.value, c, l, expanded, game.player(expanded[l].state), v, tree);
    }

    /**
     * The exploration loop: `simulations` simulations from the root, one
     * after the other. The ghost results list the store and the draw
     * counter before each simulation and after the last one. An expanded
     * root gains one visit per simulation; a finished unexpanded root is
     * left alone; an unfinished unexpanded root is expanded by the first
     * simulation and gains one visit from each later one.
     */
    method Explore() returns (ghost trees: seq<Tree<S, K>>, ghost draws: seq<nat>)
      requires Valid() && root.Some?
      modifies this
      ensures Valid() && root == old(root)
      ensures var start := old(tree)[root.value];
        var total := Visits(tree[root.value].edges);
        && tree[root.value].state == start.state
        && (start.edges != [] ==> total == Visits(start.edges) + simulations)
        && (start.edges == [] && game.finished(start.state) ==> tree[root.value] == start)
        && (start.edges == [] && !game.finished(start.state) ==>
              total == if simulations == 0 then 0 else simulations - 1)
      ensures |trees| == simulations + 1 && |draws| == simulations + 1
      ensures trees[0] == old(tree) && draws[0] == old(drawn)
      ensures trees[simulations] == tree && draws[simulations] == drawn
      ensures forall i :: 0 <= i < simulations ==>
        SimulationStep(game, ucb, random, root.value, trees[i], draws[i], trees[i + 1], draws[i + 1])
    {
      ghost var t0, d0 := tree, drawn;
      var k := root.value;
      ghost var start := tree[k];
      trees, draws := [tree], [drawn];
      for i := 0 to simulations
        invariant Valid() && root == Some(k)
        invariant |trees| == i + 1 && |draws| == i + 1 && trees[i] == tree && draws[i] == drawn
        invariant trees[0] == t0 && draws[0] == d0
        invariant Simulations(game, ucb, random, k, trees, draws)
        invariant RootAfter(game, start, tree[k], i)
      {
        ghost var before := tree[k];
        ghost var leaf, crumbs, value := Simulate();
        SimulatedStep(game, ucb, random, k, trees[i], draws[i], leaf, crumbs, value, tree, drawn);
        SimulationsExtend(game, ucb, random, k, trees, draws, tree, drawn);
        RootAfterStep(game, start, before, tree[k], i);
        trees, draws := trees + [tree], draws + [drawn];
      }
    }

    /**
     * One search from `state`: the root is a fresh node when the state's key
     * is not stored, and otherwise the stored node, with the store pruned to
     * its subtree; the simulations follow (Explore), and then the root
     * edges' visit counts, written by action and divided by their total,
     * give the distribution over the action space (see VisitDistribution
     * for the 0/0 case and for an action outside the action space).
     */
    method GetDistribution(state: S) returns (dist: Outcome, ghost trees: seq<Tree<S, K>>, ghost draws: seq<nat>)
      requires Valid()
      modifies this
      ensures Valid() && root == Some(game.key(state))
      ensures var k := game.key(state);
        var start := if k in old(tree) then old(tree)[k] else Node(state, []);
        var total := Visits(tree[k].edges);
        && tree[k].state == start.state
        && (start.edges != [] ==> total == Visits(start.edges) + simulations)
        && (start.edges == [] && game.finished(start.state) ==> tree[k] == start)
        && (start.edges == [] && !game.finished(start.state) ==>
              total == if simulations == 0 then 0 else simulations - 1)
      ensures VisitDistribution(tree[game.key(state)].edges, game.actionSize, dist)
      ensures var k := game.key(state);
        && |trees| == simulations + 1 && |draws| == simulations + 1
        && trees[0] == (if k in old(tree) then Subtree(old(tree), k) else map[k := Node(state, [])])
        && draws[0] == old(drawn)
        && trees[simulations] == tree && draws[simulations] == drawn
        && forall i :: 0 <= i < simulations ==>
             SimulationStep(game, ucb, random, k, trees[i], draws[i], trees[i + 1], draws[i + 1])
    {
      var k := game.key(state);
      if k !in tree {
        CreateTree(state);
      } else {
        root := Some(k);
        PruneTree(k);
        assert IsPath(old(tree), k, [], k);
      }
      trees, draws := Explore();
      dist := Distribute(tree[k].edges, game.actionSize);
    }
  }
}
