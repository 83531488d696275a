/**
 * Selection: which edge the search follows out of an expanded node.
 *
 * The upper confidence bound Q + C * sqrt(ln(total) / N) is taken as a
 * parameter `ucb(q, n, total)`; only the first-play rule and the tie-break
 * are modelled.
 */
module Selection {
  import opened Graph

  /** The score of edge e when the node's edges have `total` visits in all. */
  function Score<K>(ucb: (real, nat, nat) -> real, e: Edge<K>, total: nat): real {
    ucb(e.stats.q, e.stats.n, total)
  }

  /**
   * Edge i is the one to follow: the first edge never visited if there is
   * one; otherwise the first edge of maximal score.
   */
  ghost predicate IsSelected<K>(edges: seq<Edge<K>>, ucb: (real, nat, nat) -> real, i: nat) {
    && i < |edges|
    && if exists j :: 0 <= j < |edges| && edges[j].stats.n == 0 then
         && edges[i].stats.n == 0
         && forall j :: 0 <= j < i ==> edges[j].stats.n != 0
       else
         var total := Visits(edges);
         && (forall j :: 0 <= j < |edges| ==> Score(ucb, edges[j], total) <= Score(ucb, edges[i], total))
         && (forall j :: 0 <= j < i ==> Score(ucb, edges[j], total) < Score(ucb, edges[i], total))
  }

  /** At most one edge is selected: selection is deterministic. */
  lemma SelectedIsUnique<K>(edges: seq<Edge<K>>, ucb: (real, nat, nat) -> real, i: nat, i': nat)
    requires IsSelected(edges, ucb, i) && IsSelected(edges, ucb, i')
    ensures i == i'
  {
  }

  /**
   * The edge to follow out of a node with edges `edges`: scans the edges in
   * order, returns at once the first with no visits, and otherwise keeps the
   * first edge whose score exceeds every score before it. The running
   * maximum starts below every score, so the first edge scored is always
   * kept.
   */
  method BestEdge<K>(edges: seq<Edge<K>>, ucb: (real, nat, nat) -> real) returns (i: nat)
    requires |edges| > 0
    ensures IsSelected(edges, ucb, i)
  {
    var total := 0;
    for j := 0 to |edges|
      invariant total == Visits(edges[..j])
    {
      assert edges[..j + 1][..j] == edges[..j];
      total := total + edges[j].stats.n;
    }
    assert edges[..|edges|] == edges;
    var maxU := 0.0;
    i := 0;
    for j := 0 to |edges|
      invariant i < |edges| && (j > 0 ==> i < j)
      invariant forall m :: 0 <= m < j ==> edges[m].stats.n != 0
      invariant j > 0 ==> maxU == Score(ucb, edges[i], total)
      invariant forall m :: 0 <= m < j ==> Score(ucb, edges[m], total) <= maxU
      invariant forall m :: 0 <= m < i ==> Score(ucb, edges[m], total) < maxU
    {
      if edges[j].stats.n == 0 {
        return j;
      }
      var u := Score(ucb, edges[j], total);
      if j == 0 || u > maxU {
        maxU := u;
        i := j;
      }
    }
  }
}
