# Classic Monte Carlo tree search, modelled in Dafny

This project models `mcts_classic.py` of the board-ai repository. That file
holds the classic Monte Carlo tree search (MCTS) engine: `MctsClassic`, its
`Node` and `Edge` records, and the `get_neighbors` board-neighbour table.

- **The engine.** `MctsClassic` chooses a move distribution for a game state.
  1. It roots a search tree at the state. It reuses the subtree of an earlier
     search when the state is already stored, and prunes everything else.
  2. It runs a fixed number of simulations. Each simulation:
     - walks down by the upper confidence bound to a leaf (selection);
     - values an unfinished leaf by a random playout and expands it;
     - adds one visit and the signed value to every edge of the path
       (backpropagation).
  3. It returns the root edges' visit counts, indexed by action and divided by
     their sum.

- **Layout.** The modules follow the engine's steps:

  | module | what it holds |
  |---|---|
  | `Games` | the game-state collaborator, as a record of functions, and the random playout (`_rollout`) |
  | `Graph` | nodes, edges, visit statistics, the search store (a map from state key to node), and the store's invariant |
  | `Selection` | `_get_best_edge` |
  | `Expansion` | `_expand_node` and `_add_node`, as functions on the store |
  | `Backpropagation` | `_back_propagate`'s effect, as a function on the store, and its properties |
  | `Distribution` | the visit-count vector and its normalisation |
  | `Engine` | the class `MctsClassic`, with `tree`, `root` and the random-draw counter as mutable fields (see below for how its methods relate to the source's) |
  | `Grid` | `get_neighbors` |

- **Methods of `MctsClassic`.**
  - These follow a source method each: the constructor, `GetDistribution`,
    `Simulate`, `MoveToLeaf`, `Expand`, `CreateTree` and `PruneTree`, with
    `CopySubtree` for the nested `copy_subtree`.
  - Four methods are parts of a source method, split out to keep each proof
    small:
    - `Explore` is the simulation loop of `get_distribution` (lines 67-70);
    - `Evaluate` (lines 80-84) and `Propagate` (line 85) are the two halves
      of `_simulate`;
    - `AddChildTo` is one round of `_expand_node`'s loop (lines 111-120).
  - The source's static methods are not in the class:
    - `_rollout` is `Games.Rollout`;
    - `_back_propagate` is `Engine.BackPropagate`;
    - `_get_best_edge` is `Selection.BestEdge`;
    - `_add_node` is `Expansion.AddNode`.
  - The distribution steps (lines 72-75) are `Distribution.Distribute`.
- **Store representation.** The store is a map from state key to node. An edge
  holds its destination's key, not an object pointer. A breadcrumb is a pair:
  the key of the node the edge leaves, and the edge's index in that node's edge
  list. The source follows object pointers (`edge.out_node`, `self._root`).
  The model reaches every node through its key instead. The store never holds
  two nodes under one key, so both reach the same node.
- **What a search returns.** `Distribution.Outcome` has three cases:
  - a probability vector, which is empty when the action space is;
  - `NotANumber`, for the 0/0 divisions that numpy fills with NaN;
  - `IndexError`, for a root edge whose action has no entry in the count
    vector.
- **Actions.** A game may list an action twice; line 74 then keeps the later
  edge's N. It may also list an action outside the action space, which raises
  IndexError at line 74. The model handles both cases.
- **The store invariant `Graph.Wf`.** It says that:
  - each node is stored under its own state's key;
  - an expanded node has one edge per valid action, in order, recording the
    state's player to move and the key of the state the action leads to;
  - every edge leads to a stored node of smaller rank;
  - every edge's Q is W/N.

## Model

| member | source | states |
|---|---|---|
| `Grid.GetNeighbors` | mcts_classic.py:12-24 | The table's keys are exactly the cells 0 .. N*N-1. Each cell's list is the framed window with -1 dropped. A cell d is in c's list if and only if d is another cell at most one row and one column away. Each list is strictly increasing. |
| `Grid.ListedAreNeighbours` | mcts_classic.py:21-23 | The 8-cell window of the framed board, with -1 filtered out, holds exactly the adjacent cells, in increasing order. |
| `Engine.MctsClassic.constructor` | mcts_classic.py:50-52 | A new engine has an empty store and no root. |
| `Engine.MctsClassic.GetDistribution` | mcts_classic.py:54-75 | The root is the state's key. The ghost results list `simulations + 1` stores and draw counters. The first is the fresh root alone, or the old store's subtree of the root (`Graph.Subtree`), with the old counter. The last is the final store and counter. Each one leads to the next by one `SimulationStep`. A stored node keeps its state. An expanded root gains exactly `simulations` visits. A finished fresh root is left alone. A fresh unfinished root ends with `simulations - 1` visits. The result is the root edges' `Distribution.VisitDistribution`: IndexError exactly when an action lies outside the action space, NotANumber exactly when the surviving counts sum to 0 over a non-empty action space, and otherwise each action's last edge's N over that sum. |
| `Engine.MctsClassic.Explore` | mcts_classic.py:67-70 | The loop runs `simulations` simulations in sequence. The ghost results list the store and counter before each one and after the last, each pair one `SimulationStep` apart. The root's visits grow as `GetDistribution` states. |
| `Engine.SimulationStepUnique` | mcts_classic.py:77-95 | From the same store and draw counter, a simulation step always ends in the same store and counter. So the sequence `GetDistribution` returns, and with it the distribution, is determined by the start store, `ucb` and the draws. |
| `Engine.SelectedPathUnique` | mcts_classic.py:87-95 | There is only one path of selected edges from a node to an unexpanded node, so the descent's breadcrumbs are determined. |
| `Engine.EvaluatedUnique` | mcts_classic.py:80-84 | The leaf's value and the draws it uses depend only on its state and the draw counter. |
| `Engine.MctsClassic.Simulate` | mcts_classic.py:77-85 | `SimulatedVia` holds for the ghost leaf, path and value. The leaf is an unexpanded node at the end of a path of selected edges, with no edge taken twice. The intermediate store is the old store, expanded at the leaf unless its game is over. The value is the game's value or the rollout's result. The new store is the intermediate store backpropagated along the path with the leaf's player and that value. Every key and the root are kept. An expanded root gains one visit in all; an unexpanded unfinished root gets one unvisited edge per valid action; a finished unexpanded root is unchanged. |
| `Engine.SimulationOutcome` | mcts_classic.py:79-85 | On store values: expansion at the end of the selected path, followed by backpropagation along it, changes the root as `Simulate` promises and loses no key. |
| `Engine.MctsClassic.Evaluate` | mcts_classic.py:80-84 | A finished leaf is valued by the game, no draw is used, and the store is untouched. An unfinished leaf is valued by the playout from the current random draw (`Engine.Evaluated`) and then expanded. |
| `Engine.MctsClassic.Propagate` | mcts_classic.py:85 | The store becomes its backpropagation along the path with the leaf's player, and stays valid. |
| `Engine.MctsClassic.MoveToLeaf` | mcts_classic.py:87-95 | The result is an unexpanded stored node reached from the root along the breadcrumbs. Every breadcrumb is the edge `_get_best_edge` selects at its node. The breadcrumbs are empty exactly when the root is unexpanded. |
| `Graph.PathRanksDecrease` | mcts_classic.py:91-94 | Along a path of a well-formed store, ranks strictly decrease, so the descent ends. |
| `Graph.PathIsSimple` | mcts_classic.py:91-94 | A path visits no node twice: its edges leave distinct nodes, none but the first leaves the start, and none leaves the end. |
| `Games.Rollout` | mcts_classic.py:97-106 | The loop reaches the finished state of `Playout` and uses its draws. The result is that state's value, negated when the player to move there differs from the starting player. |
| `Games.PlayoutEnds` | mcts_classic.py:102-105 | A random playout ends in a finished state, and the draw counter never moves backwards. |
| `Games.Pick` | mcts_classic.py:104 | A random choice is one of the valid actions. |
| `Engine.MctsClassic.Expand` | mcts_classic.py:108-120 | The store becomes `ExpandWith` of the leaf's valid actions, and stays valid. |
| `Engine.MctsClassic.AddChildTo` | mcts_classic.py:111-120 | One round of the loop is `AddChild`: the destination is inserted only when its key is new, then one unvisited edge is appended to the leaf. |
| `Expansion.ExpandWithLeaf` | mcts_classic.py:108-120 | The leaf keeps its state and gains, in order, one unvisited edge per action, labelled with its player and its destination's key. |
| `Expansion.ExpandWithKeys` | mcts_classic.py:111-117 | Expansion adds exactly the destinations' keys and leaves every other stored node untouched. |
| `Expansion.ExpandWithInserted` | mcts_classic.py:113-115 | Every inserted node is a fresh leaf stored under its own key, in a state one of the actions leads to. |
| `Expansion.AddChildEffect` | mcts_classic.py:111-120 | One step of expansion: the destination is inserted only when its key is new, and one edge is appended to the leaf. |
| `Expansion.ExpandKeepsWf` | mcts_classic.py:108-120 | Expanding an unfinished unexpanded leaf of a well-formed store gives a well-formed store. |
| `Expansion.AddNode` | mcts_classic.py:166-169 | The node is stored under its state's key, and every other key keeps its node. |
| `Engine.BackPropagate` | mcts_classic.py:122-130 | The loop's result is `BackPropagated` of the whole path, with the leaf's player. |
| `Engine.BumpEdge` | mcts_classic.py:127-130 | One step is the update `UpdateEdge`: the sign is +1 when the edge's player is the leaf's player and -1 otherwise, then N+1, W + value*sign, Q = W/N. |
| `Backpropagation.Bump` | mcts_classic.py:128-130 | N grows by one, W by the signed value, and Q = W/N holds afterwards. |
| `Backpropagation.PathNoRepeats` | mcts_classic.py:91-94 | A path of a well-formed store, such as a descent's breadcrumbs, never takes the same edge twice, so `BackPropagatedStats` applies to it. |
| `Backpropagation.BackPropagatedStats` | mcts_classic.py:126-130 | On a path without repeated edges, each edge of the path gains one visit and its signed value, and every other edge keeps its statistics. |
| `Backpropagation.BackPropagatedShape` | mcts_classic.py:126-130 | Backpropagation changes only statistics: keys, states, actions, players and destinations are kept. |
| `Backpropagation.BackPropagatedConsistent` | mcts_classic.py:128-130 | Q = W/N stays true of every edge. |
| `Backpropagation.BackPropagatedWf` | mcts_classic.py:122-130 | Backpropagation keeps the store well formed. |
| `Backpropagation.BackPropagatedRootVisits` | mcts_classic.py:126-128 | A path that leaves the root only at its first edge adds exactly one visit to the root's edges in all. |
| `Selection.BestEdge` | mcts_classic.py:132-145 | The result is the first unvisited edge when there is one. Otherwise it is the first edge of maximal score, since the running maximum starts below every score. |
| `Selection.SelectedIsUnique` | mcts_classic.py:132-145 | Selection is deterministic: at most one edge satisfies the selection rule. |
| `Engine.MctsClassic.CreateTree` | mcts_classic.py:147-151 | The store becomes exactly the fresh root, stored under its key, and the root is that key. |
| `Engine.MctsClassic.CopySubtree` | mcts_classic.py:156-159 | The copy keeps the store's node under each key it holds. It holds a key exactly when the key was already in the copy or is reachable from the node. |
| `Engine.MctsClassic.PruneTree` | mcts_classic.py:153-164 | The store becomes `Graph.Subtree` of the old store at the new root: exactly the nodes reachable from it, unchanged. It stays well formed. |
| `Graph.ClosedSubtreeWf` | mcts_classic.py:161-164 | A part of a well-formed store that holds every edge's destination is itself well formed. |
| `Graph.ReachableIsStored` | mcts_classic.py:156-159 | Everything reachable from a stored node is stored, so the copy never looks up a missing key. |
| `Distribution.VisitCounts` | mcts_classic.py:72-74 | The write fails (IndexError) exactly when some edge's action lies outside the action space. Otherwise the result is `CountVector`: each edge in turn writes its N at its action. |
| `Distribution.CountVectorEntries` | mcts_classic.py:72-74 | In the count vector, an action's entry is the N of the last edge that plays it, and 0 for an action no edge plays. |
| `Distribution.CountVectorSum` | mcts_classic.py:72-74 | When the edges play distinct actions inside the action space, no count is overwritten and the vector sums to the edges' visits. |
| `Distribution.Normalize` | mcts_classic.py:75 | The result is NotANumber exactly when there is at least one count and the counts sum to 0. Otherwise it is a vector of the same length (empty for no counts), never IndexError. |
| `Distribution.NormalizeSumsToOne` | mcts_classic.py:75 | Normalised counts with a positive sum add up to 1. |
| `Distribution.NormalizedVisits` | mcts_classic.py:72-75 | For edges inside the action space, normalising the count vector gives the visit distribution: non-negative entries summing to 1 over a non-empty action space, each action's last edge's N over the sum of the surviving counts, and 0 for unplayed actions. |
| `Distribution.Distribute` | mcts_classic.py:72-75 | Counting and dividing gives exactly the `VisitDistribution` of the edges, the IndexError case included. |
| `Distribution.DistinctVisitDistribution` | mcts_classic.py:72-75 | When no two edges play the same action, a probability result gives every edge its N over the edges' total visits, which are positive unless the action space is empty. |
| `Distribution.EmptyActionSpace` | mcts_classic.py:72-75 | With an empty action space the result is the empty vector exactly when there are no edges, and IndexError exactly when there are some. |

## Left out

- The game rules. They are a parameter: a record of the operations the engine
  calls on a state (`player`, `finished`, `actions`, `next`, `key`, `value`),
  plus the action-space size.
- Games.WellFormed: assumes two things the source never checks.
  - Games end. The model states this as a rank on state keys that every valid
    move lowers; this also makes the search graph acyclic. If a game never
    ends, the source's rollout loop at lines 102-105 does not terminate.
  - An unfinished state has at least one valid action. If it has none, the
    source's `random.choice` at line 104 raises IndexError before line 82
    expands the leaf. The model does not represent this exception. Repeated
    actions and actions outside the action space are allowed; see
    `Distribution.VisitDistribution`.
- Actions are natural numbers. A negative action would be a negative numpy
  index, which numpy counts from the vector's end. That case is not modelled.
- The UCB formula `Q + C_PUCT * sqrt(ln(total) / N)` with floating-point
  `math.log` and `** 0.5`. It is a parameter `ucb(q, n, total)`. Only the
  first-unvisited rule and the strict `>` tie-break are modelled. The `-inf`
  starting value is modelled as "the first scored edge is kept".
- `random.choice`. It is an injected stream of draws, `random`, with the
  counter `drawn`. Draw d picks `actions[d % |actions|]`.
- Floating point in general. W, Q and the distribution are exact reals.
- Integer widths. Counts are unbounded naturals; numpy's integer dtype is not
  modelled.
- NaN. When the surviving counts are all 0 and the action space is not empty,
  the source divides a zero vector by 0 and numpy returns NaN entries. The
  model returns `NotANumber` there. With an empty action space no division
  takes place: the result is the empty vector, in the source and in the model.
- The `verbose` flag and `progress_bar`. They only print, so they are left out.
- Configuration constants. `SIMULATIONS` is the field `simulations`.
  `C_PUCT` is folded into `ucb`. N is the parameter `n` of `GetNeighbors`, and
  `Game.BOARD_SIZE` is taken to be `n * n`. The module-level table
  `NEIGHBORS` is the result of `GetNeighbors`.
- Object identity. Python edges point to node objects; the model looks edges
  up by key. The store never holds two nodes under one key, so the two views
  agree.
- Recursion depth. `copy_subtree` re-copies a node once for every path that
  reaches it. The model's recursion does the same, and proves that the
  resulting key set is the reachable set. On a deep enough graph the source
  exceeds Python's recursion limit and raises RecursionError. The model's
  recursion has no such limit, so that error is not modelled.
- Backpropagation in place. `_back_propagate` is a static method that updates
  the edge objects it is given. The model's `Engine.BackPropagate` takes the
  store as a value and returns the updated store, and `MctsClassic.Propagate`
  writes that store back to the field.
- Root visit count. A search on a fresh unfinished root gives its edges S - 1
  visits in all, where S is the number of simulations. The first simulation
  finds the root without edges (lines 89-95), expands it and propagates along
  the empty path (lines 79-85). The later S - 1 simulations add one root
  visit each (`Engine.MctsClassic.GetDistribution`).
- `Engine.MctsClassic.Expand` requires an unexpanded, unfinished leaf. The
  source's only caller, `_simulate`, guarantees both. The source itself would
  append duplicate edges to an expanded node.
