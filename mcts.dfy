/**
 * The Monte Carlo Tree Search driver over the heads/tails game: random rollouts and the
 * select / evaluate-or-expand-and-simulate / backpropagate iteration.
 */
module MonteCarlo {
  import opened Util
  import opened Game
  import opened SearchTree

  /**
   * Rollout: copy the node into a detached node and play some legal action from it until the
   * game is over, then score the final state. The random choice is left open; `trace` records
   * the actions played. The tree is not touched: the node is passed by value.
   */
  method Simulate(node: Node) returns (win: bool, ghost trace: seq<Action>)
    requires node.state.round <= MAX_ROUNDS
    requires node.state.round < MAX_ROUNDS ==> |node.state.myPossibleActions| > 0
    ensures |trace| == MAX_ROUNDS - node.state.round
    ensures forall k :: 0 <= k < |trace| ==> trace[k] in node.state.myPossibleActions
    ensures IsTerminal(PlayAll(node.state, trace))
    ensures win == Evaluate(PlayAll(node.state, trace))
    ensures win <==> node.state.myScore + Count(Heads, trace) > node.state.opScore + Count(Tails, trace)
    ensures Count(Heads, trace) + Count(Tails, trace) == |trace|
    ensures IsTerminal(node.state) ==> win == Evaluate(node.state)
    ensures win ==> node.state.myScore + (MAX_ROUNDS - node.state.round) > node.state.opScore
    ensures node.state.myScore > node.state.opScore + (MAX_ROUNDS - node.state.round) ==> win
  {
    var current := NewNode(node.id, node.action, node.state, node.parent);
    trace := [];
    while !IsTerminal(current.state)
      invariant current.state == PlayAll(node.state, trace)
      invariant current.children == []
      invariant current.state.myPossibleActions == node.state.myPossibleActions
      invariant current.state.round == node.state.round + |trace| <= MAX_ROUNDS
      invariant forall k :: 0 <= k < |trace| ==> trace[k] in node.state.myPossibleActions
      decreases MAX_ROUNDS - current.state.round
    {
      // The detached node belongs to no arena; it has no children when its untried actions are read.
      var untried := Untried([], current.state.myPossibleActions, current.children);
      assert current.state.myPossibleActions[0] in untried;
      var a :| a in untried;
      // The source pushes the new node under the detached one and moves to it; only the new node is read again.
      current := NewNode(0, a, Apply(current.state, a), None);
      PlayAllSnoc(node.state, trace, a);
      trace := trace + [a];
    }
    win := Evaluate(current.state);
    PlayoutOutcome(node.state, trace);
    PlayAllEffect(node.state, trace);
    CountBoth(trace);
  }

  /** Node ids are arena indices: the id counter numbers nodes in creation order. */
  ghost predicate IdsAreIndices(nodes: seq<Node>)
  {
    forall j :: 0 <= j < |nodes| ==> nodes[j].id == j
  }

  /** No node lies beyond the last round. */
  ghost predicate RoundsBounded(nodes: seq<Node>)
  {
    forall j :: 0 <= j < |nodes| ==> nodes[j].state.round <= MAX_ROUNDS
  }

  lemma ExpandedKeepsIds(nodes: seq<Node>, n: nat, a: Action, id: int)
    requires n < |nodes| && id == |nodes| && nodes[n].state.round < MAX_ROUNDS
    requires IdsAreIndices(nodes) && RoundsBounded(nodes)
    ensures var r := ExpandedArena(nodes, n, a, id);
      && IdsAreIndices(r) && RoundsBounded(r) && r[0].state == nodes[0].state
      && r[0].visits == nodes[0].visits && r[0].wins == nodes[0].wins
  {
  }

  lemma BackpropagatedKeepsIds(nodes: seq<Node>, n: nat, result: bool)
    requires ValidArena(nodes) && n < |nodes| && IdsAreIndices(nodes) && RoundsBounded(nodes)
    ensures var r := Backpropagated(nodes, AncestorPath(nodes, n), result);
      && IdsAreIndices(r) && RoundsBounded(r) && |r| == |nodes| && r[0] == nodes[0]
      && (forall j :: 0 <= j < |nodes| ==> r[j].state == nodes[j].state)
  {
    BackpropagatedEffect(nodes, AncestorPath(nodes, n), result);
    BackpropagateFrom(nodes, n, result);
  }

  /**
   * The record of one pass: the node selection stopped at, whether it was expanded, and, when
   * it was, the action of the new child and the actions the rollout played from it; `result`
   * is what was backpropagated.
   */
  datatype Pass = Pass(selected: nat, expanded: bool, action: Action, trace: seq<Action>, result: bool)

  /**
   * One pass takes the arena from `before` to `after` as recorded in `p`. Selection stopped at
   * a node that is not fully expanded, all of whose ancestors are. If that node is terminal, its
   * own score is the result and it is backpropagated from there. Otherwise one of its untried
   * actions gets a new child with the next id, a legal rollout from that child to the end of the
   * game gives the result, and the result is backpropagated from the selected node of the grown
   * arena.
   */
  ghost predicate PassStep(before: seq<Node>, after: seq<Node>, p: Pass)
  {
    && ValidArena(before) && p.selected < |before|
    && !IsFullyExpanded(before[p.selected]) && AncestorsFullyExpanded(before, p.selected)
    && (if !p.expanded then
          && IsTerminal(before[p.selected].state)
          && p.result == Evaluate(before[p.selected].state)
          && after == Backpropagated(before, AncestorPath(before, p.selected), p.result)
        else
          && !IsTerminal(before[p.selected].state)
          && p.action in UntriedActions(before, p.selected)
          && var grown := ExpandedArena(before, p.selected, p.action, |before|);
          && var child := grown[|before|].state;
          && |p.trace| == MAX_ROUNDS - child.round
          && (forall k :: 0 <= k < |p.trace| ==> p.trace[k] in child.myPossibleActions)
          && p.result == Evaluate(PlayAll(child, p.trace))
          && ParentsBefore(grown)
          && after == Backpropagated(grown, AncestorPath(grown, p.selected), p.result))
  }

  /**
   * Every pass counts one more visit at the node selection stopped at, and one more win there
   * exactly when the result is a win, unless that node is the root, whose statistics are never
   * updated.
   */
  lemma PassBumpsSelected(before: seq<Node>, after: seq<Node>, p: Pass)
    requires PassStep(before, after, p)
    ensures p.selected < |after|
    ensures after[0].visits == before[0].visits && after[0].wins == before[0].wins
    ensures p.selected != 0 ==> after[p.selected].visits == before[p.selected].visits + 1
    ensures p.selected != 0 ==> after[p.selected].wins == before[p.selected].wins + (if p.result then 1 else 0)
  {
    if p.expanded {
      var grown := ExpandedArena(before, p.selected, p.action, |before|);
      assert after == Backpropagated(grown, AncestorPath(grown, p.selected), p.result);
      ExpandedValid(before, p.selected, p.action, |before|);
      BackpropagateFrom(grown, p.selected, p.result);
    } else {
      assert after == Backpropagated(before, AncestorPath(before, p.selected), p.result);
      BackpropagateFrom(before, p.selected, p.result);
    }
  }

  /**
   * What a pass implies for the driver's bookkeeping: it adds a node exactly when it expanded,
   * keeps ids and rounds in order, leaves the root's statistics and every existing node's state alone, ends
   * on a terminal node when it did not expand, and always expands a lone non-terminal root.
   */
  ghost predicate PassResult(before: seq<Node>, after: seq<Node>, p: Pass)
  {
    && |before| > 0
    && |after| == |before| + (if p.expanded then 1 else 0)
    && IdsAreIndices(after) && RoundsBounded(after)
    && after[0].visits == before[0].visits && after[0].wins == before[0].wins
    && (forall j :: 0 <= j < |before| ==> after[j].state == before[j].state)
    && (!p.expanded ==> p.selected < |after| && IsTerminal(after[p.selected].state))
    && (|before| == 1 && !IsTerminal(before[0].state) ==> p.expanded)
  }

  /** A pass whose selected node is terminal only backpropagates from it. */
  lemma TerminalPassResult(nodes: seq<Node>, p: Pass)
    requires ValidArena(nodes) && p.selected < |nodes| && IsTerminal(nodes[p.selected].state) && !p.expanded
    requires IdsAreIndices(nodes) && RoundsBounded(nodes)
    ensures var r := Backpropagated(nodes, AncestorPath(nodes, p.selected), p.result);
      ValidArena(r) && PassResult(nodes, r, p)
  {
    BackpropagatedKeepsIds(nodes, p.selected, p.result);
    BackpropagateFrom(nodes, p.selected, p.result);
  }

  /** A pass whose selected node is not terminal expands it and then backpropagates from it. */
  lemma ExpandPassResult(nodes: seq<Node>, p: Pass)
    requires ValidArena(nodes) && p.selected < |nodes| && !IsTerminal(nodes[p.selected].state) && p.expanded
    requires IdsAreIndices(nodes) && RoundsBounded(nodes)
    requires p.action in UntriedActions(nodes, p.selected)
    ensures ValidArena(ExpandedArena(nodes, p.selected, p.action, |nodes|))
    ensures var grown := ExpandedArena(nodes, p.selected, p.action, |nodes|);
      var r := Backpropagated(grown, AncestorPath(grown, p.selected), p.result);
      ValidArena(r) && PassResult(nodes, r, p)
  {
    var grown := ExpandedArena(nodes, p.selected, p.action, |nodes|);
    ExpandedValid(nodes, p.selected, p.action, |nodes|);
    ExpandedKeepsIds(nodes, p.selected, p.action, |nodes|);
    BackpropagatedKeepsIds(grown, p.selected, p.result);
    BackpropagateFrom(grown, p.selected, p.result);
  }

  /** Whatever branch it takes, a pass keeps the arena valid and the driver's bookkeeping true. */
  lemma PassStepResult(before: seq<Node>, after: seq<Node>, p: Pass)
    requires PassStep(before, after, p)
    requires IdsAreIndices(before) && RoundsBounded(before)
    ensures ValidArena(after)
    ensures PassResult(before, after, p)
  {
    if p.expanded {
      var grown := ExpandedArena(before, p.selected, p.action, |before|);
      assert after == Backpropagated(grown, AncestorPath(grown, p.selected), p.result);
      ExpandPassResult(before, p);
    } else {
      assert after == Backpropagated(before, AncestorPath(before, p.selected), p.result);
      TerminalPassResult(before, p);
    }
  }

  /**
   * One pass of the search loop: select a node; if it is terminal, evaluate it, otherwise
   * expand it (advancing the id counter) and run a rollout from the new child; then
   * backpropagate the result from the selected node. `pass` records what was done.
   */
  method SearchPass(tree: Tree, currentId: int) returns (newId: int, expanded: bool, ghost pass: Pass)
    requires tree.Valid()
    requires |tree.nodes[0].state.myPossibleActions| > 0 && Distinct(tree.nodes[0].state.myPossibleActions)
    requires currentId + 1 == |tree.nodes|
    requires RoundsBounded(tree.nodes)
    modifies tree
    ensures tree.Valid()
    ensures expanded == pass.expanded
    ensures newId == currentId + (if expanded then 1 else 0)
    ensures PassStep(old(tree.nodes), tree.nodes, pass)
  {
    ghost var start := tree.nodes;
    var node := tree.Select();
    var result: bool;
    newId := currentId;
    if IsTerminal(tree.nodes[node].state) {
      result := Evaluate(tree.nodes[node].state);
      expanded := false;
      tree.Backpropagate(node, result);
      pass := Pass(node, false, Heads, [], result);
    } else {
      NotFullyExpandedHasUntried(tree.nodes, node);
      var child;
      child, newId := tree.Expand(node, currentId);
      expanded := true;
      ghost var grown := tree.nodes;
      ghost var a := grown[child].action;
      assert grown == ExpandedArena(start, node, a, |start|);
      ghost var trace;
      result, trace := Simulate(tree.nodes[child]);
      tree.Backpropagate(node, result);
      pass := Pass(node, true, a, trace, result);
      assert tree.nodes == Backpropagated(grown, AncestorPath(grown, node), result);
    }
  }

  /**
   * `history` is `history[0]` replayed through the passes of `log`: one arena after each pass,
   * each obtained from the one before by that pass.
   */
  ghost predicate Replayed(history: seq<seq<Node>>, log: seq<Pass>)
  {
    && |history| == |log| + 1
    && forall k {:trigger log[k]} :: 0 <= k < |log| ==> PassStep(history[k], history[k + 1], log[k])
  }

  /** Replaying one more pass extends the history by the arena that pass produced. */
  lemma ReplayedSnoc(history: seq<seq<Node>>, log: seq<Pass>, after: seq<Node>, p: Pass)
    requires Replayed(history, log) && PassStep(history[|log|], after, p)
    ensures Replayed(history + [after], log + [p])
  {
    var h, l := history + [after], log + [p];
    forall k | 0 <= k < |l|
      ensures PassStep(h[k], h[k + 1], l[k])
    {
      if k < |log| {
        assert h[k] == history[k] && h[k + 1] == history[k + 1] && l[k] == log[k];
      }
    }
  }

  /**
   * The search: build the tree from `state` and run `nIterations` passes of selection, then
   * terminal evaluation or expansion plus rollout, then backpropagation from the selected node.
   * Move selection at the end is unimplemented in the source; the tree and id counter are returned.
   * `log` records every pass and `history` the arena before each pass and after the last one, so
   * the final tree is the lone root replayed through the logged passes. `expansions` counts the
   * passes whose selected node was not terminal, each of which adds a node; `terminalPasses`
   * counts the others, each of which evaluates a terminal node of the tree.
   */
  method Mcts(state: GameState, nIterations: int)
    returns (tree: Tree, currentId: int, ghost log: seq<Pass>, ghost history: seq<seq<Node>>,
             ghost expansions: nat, ghost terminalPasses: nat)
    requires state.round <= MAX_ROUNDS
    requires |state.myPossibleActions| > 0 && Distinct(state.myPossibleActions)
    ensures tree.Valid()
    ensures |log| == (if nIterations > 0 then nIterations else 0) && |history| == |log| + 1
    ensures history[0] == [NewNode(0, Heads, state, None)] && history[|log|] == tree.nodes
    ensures Replayed(history, log)
    ensures tree.nodes[0].state == state && tree.nodes[0].id == 0
    ensures tree.nodes[0].visits == 1 && tree.nodes[0].wins == 0
    ensures currentId == expansions && |tree.nodes| == 1 + expansions
    ensures expansions + terminalPasses == |log|
    ensures terminalPasses > 0 ==> exists j :: 0 <= j < |tree.nodes| && IsTerminal(tree.nodes[j].state)
    ensures nIterations > 0 && !IsTerminal(state) ==> |tree.nodes| >= 2
    ensures IdsAreIndices(tree.nodes) && RoundsBounded(tree.nodes)
  {
    currentId := 0;
    expansions := 0;
    terminalPasses := 0;
    ghost var terminalNode: nat := 0;  // a terminal node once some pass evaluated one
    tree := new Tree(state);
    log := [];
    history := [tree.nodes];
    var i := 0;
    while i < nIterations
      invariant 0 <= i <= (if nIterations > 0 then nIterations else 0)
      invariant |log| == i && |history| == i + 1
      invariant history[0] == [NewNode(0, Heads, state, None)] && history[i] == tree.nodes
      invariant Replayed(history, log)
      invariant tree.Valid()
      invariant tree.nodes[0].state == state
      invariant tree.nodes[0].visits == 1 && tree.nodes[0].wins == 0
      invariant currentId == expansions && |tree.nodes| == 1 + expansions
      invariant expansions + terminalPasses == i
      invariant terminalNode < |tree.nodes|
      invariant terminalPasses > 0 ==> IsTerminal(tree.nodes[terminalNode].state)
      invariant i > 0 && !IsTerminal(state) ==> |tree.nodes| >= 2
      invariant IdsAreIndices(tree.nodes) && RoundsBounded(tree.nodes)
    {
      ghost var before := tree.nodes;
      var newId, expanded;
      ghost var pass;
      newId, expanded, pass := SearchPass(tree, currentId);
      PassStepResult(before, tree.nodes, pass);
      ReplayedSnoc(history, log, tree.nodes, pass);
      if expanded {
        expansions := expansions + 1;
      } else {
        terminalPasses := terminalPasses + 1;
        terminalNode := pass.selected;
      }
      log := log + [pass];
      history := history + [tree.nodes];
      currentId := newId;
      i := i + 1;
    }
    if terminalPasses > 0 {
      assert IsTerminal(tree.nodes[terminalNode].state);
    }
  }
}
