/**
 * The game-state collaborator the search engine is written against, and the
 * random rollout that plays a state out to the end of the game.
 *
 * The game's rules are not part of this model: a game is a record of the
 * operations the engine calls on a state.
 */
module Games {

  /** Identifier of the player to move. */
  type Player = int

  /**
   * The operations of a game state:
   * - player(s): the player to move in s
   * - finished(s): whether s ends the game
   * - actions(s): the valid actions in s, in the order the game lists them
   * - next(s, a): the state after playing a in s (s itself is unchanged)
   * - key(s): the hashable key under which s is stored in the search tree
   * - value(s): the outcome of a finished s, seen by the player to move in s
   * - actionSize: the size of the action space, the length of the vector
   *   of visit counts (an action at or above it has no entry there)
   * - rank(k): a measure on keys that every valid move lowers; the search in
   *   `mcts_classic.py` relies on games ending, and this is how the model states it
   */
  datatype Game<!S, !K> = Game(
    player: S -> Player,
    finished: S -> bool,
    actions: S -> seq<nat>,
    next: (S, nat) -> S,
    key: S -> K,
    value: S -> real,
    actionSize: nat,
    rank: K -> nat)

  /**
   * What the engine expects of a game: an unfinished state has at least one
   * valid action, and every valid move leads to a state of smaller rank (so
   * games end and the search graph is acyclic). Actions may repeat and may
   * lie outside the action space.
   */
  ghost predicate WellFormed<S(!new), K>(g: Game<S, K>) {
    forall s :: !g.finished(s) ==>
      && 0 < |g.actions(s)|
      && forall a :: a in g.actions(s) ==> g.rank(g.key(g.next(s, a))) < g.rank(g.key(s))
  }

  /** The action a random draw d picks among the valid actions of s. */
  function Pick<S(!new), K>(g: Game<S, K>, s: S, d: nat): (a: nat)
    requires WellFormed(g) && !g.finished(s)
    ensures a in g.actions(s)
  {
    var acts := g.actions(s);
    acts[d % |acts|]
  }

  /**
   * The state a random playout from s ends in, and the number of the draw
   * after the last one it used; the playout's j-th move uses draw random(t + j).
   */
  function Playout<S(!new), K>(g: Game<S, K>, s: S, random: nat -> nat, t: nat): (S, nat)
    requires WellFormed(g)
    decreases g.rank(g.key(s))
  {
    if g.finished(s) then (s, t)
    else Playout(g, g.next(s, Pick(g, s, random(t))), random, t + 1)
  }

  /** A playout ends in a finished state and uses one draw per move it makes. */
  lemma {:induction false} PlayoutEnds<S(!new), K>(g: Game<S, K>, s: S, random: nat -> nat, t: nat)
    requires WellFormed(g)
    ensures g.finished(Playout(g, s, random, t).0)
    ensures t <= Playout(g, s, random, t).1
    ensures g.finished(s) <==> Playout(g, s, random, t) == (s, t)
    decreases g.rank(g.key(s))
  {
    if !g.finished(s) {
      PlayoutEnds(g, g.next(s, Pick(g, s, random(t))), random, t + 1);
    }
  }

  /**
   * Random rollout from s, using draws random(t), random(t + 1), ...: the value
   * of the final state, negated when the player to move there is not the
   * player to move in s; t' is the first draw not used.
   */
  method Rollout<S(!new), K>(g: Game<S, K>, s: S, random: nat -> nat, t: nat) returns (v: real, t': nat)
    requires WellFormed(g)
    ensures var (final, u) := Playout(g, s, random, t);
      && g.finished(final)
      && t' == u
      && v == (if g.player(final) == g.player(s) then g.value(final) else -g.value(final))
  {
    var state := s;
    t' := t;
    while !g.finished(state)
      invariant Playout(g, state, random, t') == Playout(g, s, random, t)
      decreases g.rank(g.key(state))
    {
      var action := Pick(g, state, random(t'));
      state := g.next(state, action);
      t' := t' + 1;
    }
    PlayoutEnds(g, s, random, t);
    v := if g.player(state) == g.player(s) then g.value(state) else -g.value(state);
  }
}
