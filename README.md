# Monte Carlo Tree Search over a ten-round heads/tails game

This project models, in Dafny, the search core of a small Rust program (`src/main.rs`). The
program runs Monte Carlo Tree Search over a fixed game. In each of ten rounds one action is
played: Heads gives us a point, Tails gives the opponent a point. A game state is won when our
score is strictly higher.

The model follows the program's four phases:

- **selection** descends while a node is fully expanded;
- **expansion** pushes a child for some untried action and advances the id counter;
- **simulation** plays random actions on a detached copy until round ten;
- **backpropagation** walks up the parent links, adding a visit and, on a win, a win.

The driver `mcts` repeats these phases `n_iterations` times.

Files and modules:

- `util.dfy` (`Util`): `Option`, occurrence counting, repetition-free sequences, and a pigeonhole
  lemma.
- `game.dfy` (`Game`): `Action`, `GameState`, the transition `Apply`, `IsTerminal`, `Evaluate`, and
  `PlayAll`, which plays a sequence of actions in order.
- `tree.dfy` (`SearchTree`): the `Node` record, the child-slot queries, and the arena invariant
  `ValidArena`. It also holds the class `Tree`, with `Select`, `Expand` and `Backpropagate` proved
  against the pure functions `ExpandedArena` and `Backpropagated`.
- `mcts.dfy` (`MonteCarlo`): the rollout `Simulate` and the driver `Mcts`.

In the model the tree is an arena. Class `Tree` holds a field `nodes: seq<Node>`, and the root sits
at index 0. A child slot is an `Option<nat>` holding the child's index, just as the source's slot
is an `Option<Box<Node>>`. Each node records its parent's index. The driver keeps every node's id
equal to its index (`IdsAreIndices`).

`ValidArena` collects the invariants:

- `1 <= visits` and `0 <= wins <= visits` at every node;
- the parent links and child slots agree with each other;
- every child's state is `Apply` of its parent's state under the child's action;
- no two children of a node share an action.

Random choice (`choose` on a slice, and `best_child`) becomes a nondeterministic `:|` pick from a
non-empty sequence. `Simulate` returns the sequence of actions it played as a ghost out-parameter,
so its result can be stated as `Evaluate(PlayAll(state, trace))`.

Two places where the model follows the code rather than the usual MCTS design:

- **Backpropagation leaves the root alone.** Textbook MCTS updates every node up to and including
  the root. The code's `while let Some(parent_id) = current_node.parent_id` loop only updates nodes
  that have a parent, so the root is never updated. The model does the same.
- **Backpropagation starts at the selected node.** In `mcts`, the node returned by `expand` is bound
  to a `node` that exists only inside the `else` block. So `backpropagate(node, result)` at line
  144 receives the node that selection returned. A freshly expanded child therefore keeps its
  initial one visit and no wins. The model does the same.

## Model

| member | source | states |
|---|---|---|
| Util.DistinctSubsetLength | src/main.rs:161-169 | a repetition-free sequence whose elements all occur in another sequence is no longer than it; this is the counting step behind "children never outnumber legal actions" |
| Game.Apply | src/main.rs:172-191 | the successor state: one more round and exactly one more point in total, which is ours exactly when the action is Heads |
| Game.IsTerminal | src/main.rs:290-292 | a state is terminal exactly at round ten |
| Game.Evaluate | src/main.rs:286-288 | a state is a win exactly when our score is strictly above the opponent's |
| Game.ApplyRaisesOneScore | src/main.rs:172-191 | a transition advances the round by one; Heads raises only our score and Tails only the opponent's, each by exactly one; both action lists are carried over unchanged |
| Game.ApplyKeepsScoresMatchRound | src/main.rs:172-191 | a transition keeps both scores non-negative and their sum equal to the round |
| Game.PlayAllSnoc | src/main.rs:210-245 | playing one more action after a sequence is one more transition from the state the sequence reaches |
| Game.PlayAllEffect | src/main.rs:221-240 | playing a sequence of actions advances the round by its length and each score by the number of its Heads or Tails, and leaves the action lists alone |
| Game.CountBoth | src/main.rs:12-15 | every action is either Heads or Tails, so their counts add up to the length of the sequence |
| Game.PlayAllKeepsScoresMatchRound | src/main.rs:172-191 | from any state whose scores sum to the round, every reachable state keeps that relation |
| Game.InitialPlayScoresMatchRound | src/main.rs:298-304 | the initial state of `main` has scores summing to its round, and so does every state a game from it reaches |
| Game.PlayoutOutcome | src/main.rs:286-288 | playing a sequence ends in a win exactly when the start scores plus the Heads and Tails counts favour us |
| Game.InitialGameOutcome | src/main.rs:290-304 | from the initial state, ten actions end the game, and it is won exactly when at least six of them are Heads |
| Game.TerminalOutcome | src/main.rs:286-292 | in a terminal state whose scores sum to the round, a win means at least six points |
| SearchTree.NewNode | src/main.rs:99-108 | a fresh node has the given id, action, state and parent, one visit, no wins and no children, so it satisfies `0 <= wins <= visits` and `visits >= 1` |
| SearchTree.Contains | src/main.rs:111-115 | `contains`: an `any` over the child slots, true when some slot holds a child reached by the action; the meaning is proved in `ContainsIff` |
| SearchTree.IsFullyExpanded | src/main.rs:270-272 | the stand-in for the unimplemented `is_fully_expanded`: a node has as many child slots as legal actions |
| SearchTree.ContainsIff | src/main.rs:111-115 | `contains(a)` holds exactly when some present slot holds a child with action `a`; an empty slot never matches |
| SearchTree.ContainsMeansInChildActions | src/main.rs:111-115 | `contains(a)` holds exactly when `a` is among the actions of the present children |
| SearchTree.Untried | src/main.rs:162-165 | an action is untried exactly when it is legal and not yet contained among the children |
| SearchTree.ChildCountBound | src/main.rs:161-169 | in a valid tree no node has more children than legal actions, and its children's actions are pairwise different |
| SearchTree.NotFullyExpandedHasUntried | src/main.rs:161-169 | a node that is not fully expanded and has a repetition-free action list has an untried action, so the `unwrap` at line 169 cannot fail on it |
| SearchTree.TreeScoresMatchRound | src/main.rs:172-191 | if the root's scores sum to its round, the scores of every node in a valid tree do too |
| SearchTree.ExpandedArena | src/main.rs:193-194 | the arena after expansion, with the parent link corrected to the expanded node: exactly one node is added, with id, action, successor state and parent `n`, and `n` gains one child slot holding it; earlier slots and every other node are unchanged |
| SearchTree.ExpandedChildActions | src/main.rs:194 | after expansion, the children's actions at `n` are the earlier ones followed by `a`; those of every other node are unchanged |
| SearchTree.ExpandedValid | src/main.rs:161-197 | expanding with an untried action keeps the tree valid (statistics, links, distinct child actions), and afterwards `contains(a)` holds at `n` |
| SearchTree.ExpandedArenaAsWritten | src/main.rs:193-194 | the expansion as the source writes it differs from the corrected `ExpandedArena` only in the new node's parent, which is the id counter |
| SearchTree.ParentLinkAsWrittenBreaksTree | src/main.rs:193 | with the parent recorded as the id counter, a second expansion of the root leaves a node whose recorded parent does not list it; with the parent's own index the tree stays valid |
| SearchTree.AncestorPathShape | src/main.rs:253-259 | the nodes the backpropagation loop updates start at `n` unless `n` is the root, strictly climb, all have a parent, and end at a child of the root |
| SearchTree.BackpropagatedEffect | src/main.rs:253-257 | backpropagation gives each node on the path one more visit and, iff the result is a win, one more win; nothing else in the arena changes |
| SearchTree.BackpropagatedValid | src/main.rs:253-257 | bumping any set of nodes keeps the tree valid, including `wins <= visits` |
| SearchTree.BackpropagateFrom | src/main.rs:250-259 | backpropagating from `n` keeps the tree valid, bumps `n` when it is not the root, leaves the root unchanged, and never lowers a visit count |
| SearchTree.Tree.constructor | src/main.rs:129-131 | a new tree holds just the root: id 0, placeholder action Heads, the given state, no parent; it is valid |
| SearchTree.Tree.Select | src/main.rs:151-159 | selection returns a node of the tree that is not fully expanded and every node above which, up to the root, is fully expanded; in particular it returns the root whenever the root is not fully expanded |
| SearchTree.SelectedBelowExpandedRoot | src/main.rs:152-156 | a node other than the root whose ancestors are all fully expanded can only be reached through a fully expanded root |
| SearchTree.Tree.Expand | src/main.rs:161-197 | expansion picks an untried action and appends a child with id `currentId + 1` and the successor state; it returns the child and the counter `currentId + 1`; the new arena is `ExpandedArena` and stays valid |
| SearchTree.Tree.Backpropagate | src/main.rs:250-259 | the loop walks parent links from `n`, bumping every node that has a parent; the new arena is `Backpropagated` over `AncestorPath` and stays valid |
| MonteCarlo.Simulate | src/main.rs:199-248 | a rollout from a node with round at most ten plays exactly `10 - round` legal actions, ends in a terminal state, and returns `evaluate` of that state, which is a win exactly when the node's scores plus the playout's Heads and Tails counts favour us; from a terminal node it returns the node's own evaluation; it can return a win only if the remaining rounds can still put us ahead, and returns a win whenever our lead exceeds the remaining rounds; the node is read only |
| MonteCarlo.ExpandedKeepsIds | src/main.rs:139-140 | expanding a non-terminal node with the next id keeps ids equal to arena indices and every round at most ten, and leaves the root's state and statistics alone |
| MonteCarlo.BackpropagatedKeepsIds | src/main.rs:144 | backpropagation from any node keeps ids and rounds, the arena length, and the root node unchanged |
| MonteCarlo.PassStep | src/main.rs:134-144 | the arena after one pass, exactly: selection stopped at a node that is not fully expanded and whose ancestors all are; a terminal node is scored by `evaluate` and the score is backpropagated from it; otherwise an untried action of that node gets a new child with the next id, a legal rollout of `10 - round` actions from the child gives the result, and the result is backpropagated from the selected node of the grown arena |
| MonteCarlo.PassBumpsSelected | src/main.rs:144 | every pass adds one visit to the selected node, and one win exactly when the result is a win, unless that node is the root; the root's visits and wins never change |
| MonteCarlo.TerminalPassResult | src/main.rs:136-137 | backpropagating from a terminal selected node keeps the tree valid, adds no node, keeps ids, rounds, the root's statistics and every node's state, and leaves the selected node terminal |
| MonteCarlo.ExpandPassResult | src/main.rs:138-144 | expanding a non-terminal selected node with an untried action and backpropagating keeps the tree valid, adds exactly one node, keeps ids, rounds, the root's statistics and every earlier state |
| MonteCarlo.PassStepResult | src/main.rs:134-144 | whichever branch it takes, a pass keeps the tree valid, adds a node exactly when it expanded, keeps ids, rounds, the root's statistics and every earlier state, ends on a terminal node when it did not expand, and always expands a lone non-terminal root |
| MonteCarlo.SearchPass | src/main.rs:134-144 | one pass keeps the tree valid, advances the counter exactly when it expanded, and leaves the arena exactly as `PassStep` gives it for the returned pass record: selection, then evaluation or expansion plus rollout, then backpropagation from the selected node |
| MonteCarlo.Replayed | src/main.rs:133-145 | a history of arenas, one per pass plus the starting one, where each arena is obtained from the one before by the logged pass as `PassStep` gives it |
| MonteCarlo.ReplayedSnoc | src/main.rs:133-145 | one more pass extends a replayed history by the arena that pass produced |
| MonteCarlo.Mcts | src/main.rs:128-149 | after the iterations the tree is valid, and it is the lone root node with id 0, the given state and parent none, replayed through exactly `n_iterations` logged passes (zero when negative), each one as `PassStep` gives it; every pass either expands, adding exactly one node, or evaluates a terminal node: the two counts add up to the iteration count, the node count is one plus the number of expanding passes and the counter equals that number, and a terminal node exists in the tree when some pass evaluated one; when at least one pass runs from a non-terminal state the first one expands the root, so the tree has at least two nodes; the root keeps one visit and no wins; ids are strictly increasing arena indices and no round exceeds ten |

## Left out

- `is_fully_expanded`, `best_child` and `uct_value` (UCB1, `f32`) are all `unimplemented!()` in the source (lines 270-280), so the source's `select` panics on its first call. The model supplies the first two: `is_fully_expanded` is "child count equals legal-action count" (`SearchTree.IsFullyExpanded`) and `best_child` is an arbitrary child. UCB1 is not modelled.
- `best_action` is unimplemented; `Mcts` returns the tree and the id counter instead of an action.
- `rand::thread_rng` and `choose` are foreign random calls; each becomes an arbitrary element of a non-empty sequence.
- The unfinished assignment at line 258 is not modelled: the model moves to the parent by its recorded index.
- The parent link is the node's arena index. The source stores the id counter instead; see Findings.
- `op_possible_actions` is only stored and copied, never used to choose an action.
- `Box` ownership is not modelled, and neither is the memory-layout commentary: child slots are arena indices, so the model does not capture aliasing or in-place mutation through references.
- The nodes pushed under the detached node during a rollout are not kept; only the node last created is read again, and the detached copy is dropped when the rollout returns.
- `main` I/O glue (building the initial state and calling `mcts(state, 1000)`) is not modelled; `Game.InitialState` is that state.
- The `i32` widths of ids, scores, visits, wins and the round are unbounded integers here, and overflow is not modelled. Ids and visits never exceed the iteration count, and a round is raised only while it is below ten, so these stay in range. Scores are what can overflow. The model and the source agree when every start score plus `10 - round` fits in an `i32`, as it does for `main`'s state (scores 0, round 0). For other states, such as a very negative round or a score near `i32::MAX`, the `+ 1` at lines 173, 179, 222 and 228 can overflow in the source: a panic in a debug build, wrap-around in a release build. The model keeps counting.
- MonteCarlo.Mcts: requires a start round of at most ten. From round 11 the source expands the root, and the rollout from round 12 never meets `round == 10` before the `i32` round overflows. It also requires a non-empty, repetition-free action list. With a repeated action, expansion's `unwrap` can fail on a node that is not fully expanded. With an empty list, selection calls the unimplemented `best_child` on a childless root.
- MonteCarlo.Simulate: requires a round of at most ten. From a larger round, the source's loop never meets `round == 10` until the `i32` round overflows at line 239. That panics in a debug build and wraps around in a release build; neither is modelled.
- MonteCarlo.Simulate: requires a non-empty action list while the game is not over, because of the `unwrap` at line 218.
- `backpropagate` declares a third parameter `root: &Node` (line 250) that its body never reads, and the call at line 144 passes only two arguments, so the source does not compile there. The model drops the parameter.
- The duplicated transition in `simulate` (lines 221-240) is the same computation as `Game.Apply`; both are modelled by that one function.

## Findings

| source | as written | input that shows it | evidently intended | confidence | as-written member | corrected member |
|---|---|---|---|---|---|---|
| src/main.rs:193 | the new child's parent is `Some(current_id)`, the id of the most recently created node | expand the root with counter 0, then the root again with counter 1: node 2 records parent 1, but node 1 has no children and the root lists node 2 | the parent is the node being expanded (`Some(node.id)`) | high, not executed | SearchTree.ExpandedArenaAsWritten | SearchTree.ExpandedArena |
