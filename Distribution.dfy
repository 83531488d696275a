/**
 * Distribution extraction: the visit counts of the root's edges, indexed by
 * action, normalised by their sum.
 */
module Distribution {
  import opened Wrappers
  import opened Graph

  /** Sum of a sequence of counts. */
  function Sum(xs: seq<nat>): nat {
    if xs == [] then 0 else Sum(xs[..|xs| - 1]) + xs[|xs| - 1]
  }

  /** Sum of a sequence of reals. */
  function RealSum(xs: seq<real>): real {
    if xs == [] then 0.0 else RealSum(xs[..|xs| - 1]) + xs[|xs| - 1]
  }

  /** Replacing one count changes the sum by the difference. */
  lemma {:induction false} SumUpdate(xs: seq<nat>, i: nat, x: nat)
    requires i < |xs|
    ensures Sum(xs[i := x]) + xs[i] == Sum(xs) + x
    decreases |xs|
  {
    var last := |xs| - 1;
    assert xs[i := x][..last] == if i == last then xs[..last] else xs[..last][i := x];
    if i < last {
      SumUpdate(xs[..last], i, x);
    }
  }

  /** A sequence of zeros sums to zero. */
  lemma {:induction false} SumZeros(xs: seq<nat>)
    requires forall i :: 0 <= i < |xs| ==> xs[i] == 0
    ensures Sum(xs) == 0
    decreases |xs|
  {
    if xs != [] {
      SumZeros(xs[..|xs| - 1]);
    }
  }

  /** No two edges play the same action. */
  ghost predicate DistinctActions<K>(edges: seq<Edge<K>>) {
    forall i, j :: 0 <= i < j < |edges| ==> edges[i].action != edges[j].action
  }

  /** No edge plays action a. */
  ghost predicate Unplayed<K>(edges: seq<Edge<K>>, a: nat) {
    forall j :: 0 <= j < |edges| ==> edges[j].action != a
  }

  /** No edge after position j, up to position upTo, plays the action of edge j. */
  ghost predicate LastOfItsAction<K>(edges: seq<Edge<K>>, j: nat, upTo: nat)
    requires j < upTo <= |edges|
  {
    forall m :: j < m < upTo ==> edges[m].action != edges[j].action
  }

  /** The visit count of the last of the first upTo edges that plays a, 0 if none does. */
  ghost function CountOf<K>(edges: seq<Edge<K>>, a: nat, upTo: nat): nat
    requires upTo <= |edges|
  {
    if upTo == 0 then 0
    else if edges[upTo - 1].action == a then edges[upTo - 1].stats.n
    else CountOf(edges, a, upTo - 1)
  }

  /** No edge plays a: CountOf is 0. */
  lemma {:induction false} CountOfAbsent<K>(edges: seq<Edge<K>>, a: nat, upTo: nat)
    requires upTo <= |edges|
    requires forall j :: 0 <= j < upTo ==> edges[j].action != a
    ensures CountOf(edges, a, upTo) == 0
    decreases upTo
  {
    if upTo > 0 {
      CountOfAbsent(edges, a, upTo - 1);
    }
  }

  /** Edge j is the last to play its action: CountOf is its visit count. */
  lemma {:induction false} CountOfLast<K>(edges: seq<Edge<K>>, j: nat, upTo: nat)
    requires j < upTo <= |edges| && LastOfItsAction(edges, j, upTo)
    ensures CountOf(edges, edges[j].action, upTo) == edges[j].stats.n
    decreases upTo
  {
    if j < upTo - 1 {
      CountOfLast(edges, j, upTo - 1);
    }
  }

  /** Every edge's action has an entry in a count vector of length size. */
  ghost predicate InRange<K>(edges: seq<Edge<K>>, size: nat) {
    forall j :: 0 <= j < |edges| ==> edges[j].action < size
  }

  /**
   * The count vector once the first upTo edges have written their N into
   * the entry of their action: entry a is the N of the last of them that
   * plays a, and 0 when none does.
   */
  ghost function CountVector<K>(edges: seq<Edge<K>>, size: nat, upTo: nat): seq<nat>
    requires upTo <= |edges|
  {
    seq(size, a requires 0 <= a < size => CountOf(edges, a, upTo))
  }

  /**
   * In the count vector of all edges, the entry of each edge's action is
   * the edge's N when no later edge plays that action, and the entry of an
   * action no edge plays is 0.
   */
  lemma CountVectorEntries<K>(edges: seq<Edge<K>>, size: nat)
    ensures |CountVector(edges, size, |edges|)| == size
    ensures forall j :: 0 <= j < |edges| && edges[j].action < size && LastOfItsAction(edges, j, |edges|) ==>
              CountVector(edges, size, |edges|)[edges[j].action] == edges[j].stats.n
    ensures forall a :: 0 <= a < size && Unplayed(edges, a) ==> CountVector(edges, size, |edges|)[a] == 0
  {
    var counts := CountVector(edges, size, |edges|);
    forall j | 0 <= j < |edges| && edges[j].action < size && LastOfItsAction(edges, j, |edges|)
      ensures counts[edges[j].action] == edges[j].stats.n
    {
      CountOfLast(edges, j, |edges|);
    }
    forall a | 0 <= a < size && Unplayed(edges, a)
      ensures counts[a] == 0
    {
      CountOfAbsent(edges, a, |edges|);
    }
  }

  /**
   * When the edges play distinct actions inside the action space, no count
   * is overwritten, and the count vector of the first upTo edges sums to
   * their visits.
   */
  lemma {:induction false} CountVectorSum<K>(edges: seq<Edge<K>>, size: nat, upTo: nat)
    requires upTo <= |edges| && InRange(edges, size) && DistinctActions(edges)
    ensures Sum(CountVector(edges, size, upTo)) == Visits(edges[..upTo])
    decreases upTo
  {
    var counts := CountVector(edges, size, upTo);
    if upTo == 0 {
      SumZeros(counts);
      assert edges[..0] == [];
    } else {
      var e := edges[upTo - 1];
      var before := CountVector(edges, size, upTo - 1);
      CountVectorSum(edges, size, upTo - 1);
      assert counts == before[e.action := e.stats.n];
      CountOfAbsent(edges, e.action, upTo - 1);
      SumUpdate(before, e.action, e.stats.n);
      assert edges[..upTo][..upTo - 1] == edges[..upTo - 1];
    }
  }

  /**
   * The vector of visit counts indexed by action: each edge in turn writes
   * its N into the entry of its action, overwriting what an earlier edge
   * with the same action wrote. None stands for the IndexError of an edge
   * whose action has no entry.
   */
  method VisitCounts<K>(edges: seq<Edge<K>>, size: nat) returns (r: Option<seq<nat>>)
    ensures r.None? <==> !InRange(edges, size)
    ensures r.Some? ==> r.value == CountVector(edges, size, |edges|)
  {
    var counts := seq(size, a => 0);
    assert counts == CountVector(edges, size, 0);
    for i := 0 to |edges|
      invariant forall j :: 0 <= j < i ==> edges[j].action < size
      invariant counts == CountVector(edges, size, i)
    {
      var e := edges[i];
      if e.action >= size {
        return None;
      }
      counts := counts[e.action := e.stats.n];
      assert counts == CountVector(edges, size, i + 1);
    }
    return Some(counts);
  }

  /**
   * What a search returns: the distribution over the action space (empty
   * when the action space is); the vector of NaN that numpy gives when the
   * counts are all 0 and at least one division 0/0 takes place; or the IndexError raised when a root edge's action has no entry
   * in the count vector.
   */
  datatype Outcome = Probabilities(p: seq<real>) | NotANumber | IndexError

  /**
   * The normalised distribution: each count divided by the sum of the
   * counts; NotANumber when the counts sum to zero and there is at least
   * one count to divide. An empty vector divided by 0 stays empty.
   */
  function Normalize(counts: seq<nat>): (r: Outcome)
    ensures r.NotANumber? <==> Sum(counts) == 0 && |counts| > 0
    ensures r.Probabilities? ==> |r.p| == |counts|
    ensures !r.IndexError?
  {
    var total := Sum(counts);
    if |counts| == 0 then Probabilities([])
    else if total == 0 then NotANumber
    else Probabilities(seq(|counts|, a requires 0 <= a < |counts| => counts[a] as real / total as real))
  }

  /** Division by a positive total distributes over a sum. */
  lemma DivAdd(x: real, y: real, total: real)
    requires total > 0.0
    ensures x / total + y / total == (x + y) / total
  {
  }

  /** The first n entries of the normalised vector sum to the first n counts over the total. */
  lemma {:induction false} NormalizedPrefixSum(counts: seq<nat>, n: nat)
    requires Sum(counts) > 0 && n <= |counts|
    ensures RealSum(Normalize(counts).p[..n]) == Sum(counts[..n]) as real / Sum(counts) as real
    decreases n
  {
    var d := Normalize(counts).p;
    var total := Sum(counts) as real;
    if n > 0 {
      NormalizedPrefixSum(counts, n - 1);
      assert d[..n][..n - 1] == d[..n - 1];
      assert counts[..n][..n - 1] == counts[..n - 1];
      assert RealSum(d[..n]) == RealSum(d[..n - 1]) + d[n - 1];
      assert Sum(counts[..n]) == Sum(counts[..n - 1]) + counts[n - 1];
      assert d[n - 1] == counts[n - 1] as real / total;
      DivAdd(Sum(counts[..n - 1]) as real, counts[n - 1] as real, total);
    } else {
      assert d[..0] == [] && counts[..0] == [];
    }
  }

  /** When the counts do not sum to zero, no entry of the normalised vector is negative. */
  lemma NormalizeNonNegative(counts: seq<nat>, a: nat)
    requires Sum(counts) > 0 && a < |counts|
    ensures 0.0 <= Normalize(counts).p[a]
  {
    var share := Normalize(counts).p[a];
    NormalizeEntry(counts, a);
    DivShare(counts[a] as real, Sum(counts) as real, share);
  }

  /** Entry a of the normalised vector is count a over the total. */
  lemma NormalizeEntry(counts: seq<nat>, a: nat)
    requires Sum(counts) > 0 && a < |counts|
    ensures Normalize(counts).p[a] == counts[a] as real / Sum(counts) as real
  {
  }

  /** A zero count normalises to 0. */
  lemma NormalizeZero(counts: seq<nat>, a: nat)
    requires Sum(counts) > 0 && a < |counts| && counts[a] == 0
    ensures Normalize(counts).p[a] == 0.0
  {
    NormalizeEntry(counts, a);
  }

  /** When the counts do not sum to zero, the entries of the normalised vector sum to 1. */
  lemma NormalizeSumsToOne(counts: seq<nat>)
    requires Sum(counts) > 0
    ensures RealSum(Normalize(counts).p) == 1.0
  {
    var d := Normalize(counts).p;
    NormalizedPrefixSum(counts, |counts|);
    assert d[..|d|] == d && counts[..|counts|] == counts;
    DivShare(Sum(counts) as real, Sum(counts) as real, Sum(counts) as real / Sum(counts) as real);
  }

  /** A non-negative amount divided by a positive total is non-negative, and 1 when it is the total. */
  lemma DivShare(x: real, total: real, share: real)
    requires total > 0.0 && x >= 0.0 && share == x / total
    ensures share >= 0.0
    ensures x == total ==> share == 1.0
  {
  }

  /**
   * out is what `get_distribution` computes from the root edges over the action space
   * 0 .. size-1: IndexError exactly when an edge's action lies outside it;
   * otherwise, with the total the sum of the counts that survive (the N of
   * the last edge playing each action), NotANumber exactly when that total
   * is 0 and the action space is not empty, and else a vector over the
   * action space whose entries are non-negative and, unless the action
   * space is empty, sum to 1, where the entry of the last edge playing an
   * action is that edge's N divided by the total and the entry of an
   * action no edge plays is 0.
   */
  ghost predicate VisitDistribution<K>(edges: seq<Edge<K>>, size: nat, out: Outcome) {
    && (out.IndexError? <==> !InRange(edges, size))
    && (InRange(edges, size) ==>
          var total := Sum(CountVector(edges, size, |edges|));
          && (out.NotANumber? <==> total == 0 && size > 0)
          && (out.Probabilities? ==>
                && |out.p| == size
                && (size > 0 ==> RealSum(out.p) == 1.0)
                && (forall a :: 0 <= a < size ==> 0.0 <= out.p[a])
                && (forall j :: 0 <= j < |edges| && LastOfItsAction(edges, j, |edges|) ==>
                      out.p[edges[j].action] == edges[j].stats.n as real / total as real)
                && (forall a :: 0 <= a < size && Unplayed(edges, a) ==> out.p[a] == 0.0)))
  }

  /** Normalising the count vector of edges inside the action space gives their visit distribution. */
  lemma NormalizedVisits<K>(edges: seq<Edge<K>>, size: nat)
    requires InRange(edges, size)
    ensures VisitDistribution(edges, size, Normalize(CountVector(edges, size, |edges|)))
  {
    var counts := CountVector(edges, size, |edges|);
    CountVectorEntries(edges, size);
    if Sum(counts) > 0 {
      var d := Normalize(counts).p;
      NormalizeSumsToOne(counts);
      forall a | 0 <= a < size ensures 0.0 <= d[a] {
        NormalizeNonNegative(counts, a);
      }
      forall j | 0 <= j < |edges| && LastOfItsAction(edges, j, |edges|)
        ensures d[edges[j].action] == edges[j].stats.n as real / Sum(counts) as real
      {
        NormalizeEntry(counts, edges[j].action);
      }
      forall a | 0 <= a < size && Unplayed(edges, a)
        ensures d[a] == 0.0
      {
        NormalizeZero(counts, a);
      }
    }
  }

  /**
   * The root edges' visit counts written by action and divided by their
   * sum; the count write fails with IndexError at an edge whose action has
   * no entry.
   */
  method Distribute<K>(edges: seq<Edge<K>>, size: nat) returns (dist: Outcome)
    ensures VisitDistribution(edges, size, dist)
  {
    var counts := VisitCounts(edges, size);
    if counts.None? {
      dist := IndexError;
    } else {
      NormalizedVisits(edges, size);
      dist := Normalize(counts.value);
    }
  }

  /**
   * When no two edges play the same action, a distribution gives every
   * edge its N divided by the visits of all the edges.
   */
  lemma DistinctVisitDistribution<K>(edges: seq<Edge<K>>, size: nat, out: Outcome)
    requires DistinctActions(edges) && VisitDistribution(edges, size, out) && out.Probabilities?
    ensures InRange(edges, size)
    ensures size > 0 ==> Visits(edges) > 0
    ensures size == 0 ==> edges == [] && out.p == []
    ensures forall j :: 0 <= j < |edges| ==>
              out.p[edges[j].action] == edges[j].stats.n as real / Visits(edges) as real
  {
    CountVectorSum(edges, size, |edges|);
    assert edges[..|edges|] == edges;
    forall j | 0 <= j < |edges| ensures LastOfItsAction(edges, j, |edges|) {
    }
  }

  /**
   * With an empty action space the count vector is empty, and dividing it
   * by its zero sum gives the empty vector, not NaN; any edge at all
   * raises IndexError.
   */
  lemma EmptyActionSpace<K>(edges: seq<Edge<K>>, out: Outcome)
    requires VisitDistribution(edges, 0, out)
    ensures edges == [] <==> out == Probabilities([])
    ensures edges != [] <==> out.IndexError?
  {
    if edges != [] {
      assert edges[0].action >= 0;
    }
  }
}
