/**
 * The search tree. The source nests owned child boxes inside each node; here the tree is an arena:
 * a sequence of nodes addressed by index, each child slot holds the index of a child, and each
 * node records the index of its parent.
 */
module SearchTree {
  import opened Util
  import opened Game

  /**
   * A search-tree vertex: its statistics, the action that led to it, the resulting state,
   * its child slots and the arena index of its parent (`None` for the root).
   */
  datatype Node = Node(
    id: int,
    visits: int,
    wins: int,
    action: Action,
    state: GameState,
    children: seq<Option<nat>>,
    parent: Option<nat>)

  /** The statistics invariant: at least one visit, and between none and that many wins. */
  predicate StatsOk(n: Node)
  {
    1 <= n.visits && 0 <= n.wins <= n.visits
  }

  /** A node as it is created: one visit, no wins and no children. */
  function NewNode(id: int, action: Action, state: GameState, parent: Option<nat>): (n: Node)
    ensures n.id == id && n.action == action && n.state == state && n.parent == parent
    ensures n.children == [] && n.visits == 1 && n.wins == 0
    ensures StatsOk(n)
  {
    Node(id, 1, 0, action, state, [], parent)
  }

  /** Does the slot hold a child reached by `a`? An empty slot never does. */
  predicate SlotHolds(nodes: seq<Node>, slot: Option<nat>, a: Action)
  {
    match slot
    case Some(c) => c < |nodes| && nodes[c].action == a
    case None => false
  }

  /** Has `a` already been expanded among `children`? */
  predicate Contains(nodes: seq<Node>, children: seq<Option<nat>>, a: Action)
    decreases |children|
  {
    if children == [] then false
    else SlotHolds(nodes, children[0], a) || Contains(nodes, children[1..], a)
  }

  /** The actions of the children held in `children`, in slot order. */
  function ChildActions(nodes: seq<Node>, children: seq<Option<nat>>): seq<Action>
    decreases |children|
  {
    if children == [] then []
    else
      (if children[0].Some? && children[0].value < |nodes| then [nodes[children[0].value].action] else [])
      + ChildActions(nodes, children[1..])
  }

  /** The actions of `actions`, in order, that are not yet expanded among `children`. */
  function Untried(nodes: seq<Node>, actions: seq<Action>, children: seq<Option<nat>>): (r: seq<Action>)
    ensures forall a :: a in r <==> a in actions && !Contains(nodes, children, a)
    decreases |actions|
  {
    if actions == [] then []
    else
      (if Contains(nodes, children, actions[0]) then [] else [actions[0]])
      + Untried(nodes, actions[1..], children)
  }

  /** The legal actions of node `n` that have no child yet. */
  function UntriedActions(nodes: seq<Node>, n: nat): seq<Action>
    requires n < |nodes|
  {
    Untried(nodes, nodes[n].state.myPossibleActions, nodes[n].children)
  }

  /** Every legal action has a child (the source leaves this unimplemented; child count equals action count). */
  predicate IsFullyExpanded(n: Node)
  {
    |n.children| == |n.state.myPossibleActions|
  }

  /** The slot of node `i` holds a later node whose parent is `i` and whose state follows from `i`'s. */
  ghost predicate LinkedChild(nodes: seq<Node>, i: nat, slot: Option<nat>)
    requires i < |nodes|
  {
    && slot.Some?
    && i < slot.value < |nodes|
    && nodes[slot.value].parent == Some(i)
    && nodes[slot.value].action in nodes[i].state.myPossibleActions
    && nodes[slot.value].state == Apply(nodes[i].state, nodes[slot.value].action)
  }

  /** Every node keeps the statistics invariant. */
  ghost predicate AllStatsOk(nodes: seq<Node>)
  {
    forall i :: 0 <= i < |nodes| ==> StatsOk(nodes[i])
  }

  /** Every node has the root's legal actions (transitions copy them unchanged). */
  ghost predicate SameActions(nodes: seq<Node>)
    requires |nodes| > 0
  {
    forall i :: 0 <= i < |nodes| ==> nodes[i].state.myPossibleActions == nodes[0].state.myPossibleActions
  }

  /** Only the root lacks a parent, and every other node's parent comes before it. */
  ghost predicate ParentsBefore(nodes: seq<Node>)
  {
    && |nodes| > 0
    && nodes[0].parent == None
    && (forall i :: 0 < i < |nodes| ==> nodes[i].parent.Some? && nodes[i].parent.value < i)
  }

  /** Every node but the root has an earlier parent that lists it among its child slots. */
  ghost predicate ParentsLinked(nodes: seq<Node>)
  {
    && ParentsBefore(nodes)
    && (forall i, p :: 0 < i < |nodes| && 0 <= p < |nodes| && nodes[i].parent == Some(p) ==>
          Some(i) in nodes[p].children)
  }

  /** Every child slot of every node holds a linked child. */
  ghost predicate ChildrenLinked(nodes: seq<Node>)
  {
    forall i, k :: 0 <= i < |nodes| && 0 <= k < |nodes[i].children| ==>
      LinkedChild(nodes, i, nodes[i].children[k])
  }

  /** No two children of a node share an action. */
  ghost predicate ChildrenDistinct(nodes: seq<Node>)
  {
    forall i {:trigger ChildActions(nodes, nodes[i].children)} ::
      0 <= i < |nodes| ==> Distinct(ChildActions(nodes, nodes[i].children))
  }

  /** The arena invariant: a tree rooted at index 0 whose nodes keep the statistics invariant. */
  ghost predicate ValidArena(nodes: seq<Node>)
  {
    && |nodes| > 0
    && nodes[0].parent == None
    && AllStatsOk(nodes)
    && SameActions(nodes)
    && ParentsLinked(nodes)
    && ChildrenLinked(nodes)
    && ChildrenDistinct(nodes)
  }

  // ---------------------------------------------------------------------------------------------
  // Facts about child slots
  // ---------------------------------------------------------------------------------------------

  /** `contains` holds exactly when some present slot holds a child reached by `a`. */
  lemma {:induction false} ContainsIff(nodes: seq<Node>, children: seq<Option<nat>>, a: Action)
    ensures Contains(nodes, children, a) <==>
      exists k :: 0 <= k < |children| && children[k].Some?
        && children[k].value < |nodes| && nodes[children[k].value].action == a
    decreases |children|
  {
    if children != [] {
      ContainsIff(nodes, children[1..], a);
      if Contains(nodes, children[1..], a) {
        var k :| 0 <= k < |children[1..]| && children[1..][k].Some?
          && children[1..][k].value < |nodes| && nodes[children[1..][k].value].action == a;
        assert children[k + 1] == children[1..][k];
      }
      if (exists k :: 0 <= k < |children| && children[k].Some?
            && children[k].value < |nodes| && nodes[children[k].value].action == a)
      {
        var k :| 0 <= k < |children| && children[k].Some?
          && children[k].value < |nodes| && nodes[children[k].value].action == a;
        if k > 0 {
          assert children[1..][k - 1] == children[k];
        }
      }
    }
  }

  lemma {:induction false} ContainsMeansInChildActions(nodes: seq<Node>, children: seq<Option<nat>>, a: Action)
    ensures Contains(nodes, children, a) <==> a in ChildActions(nodes, children)
    decreases |children|
  {
    if children != [] {
      ContainsMeansInChildActions(nodes, children[1..], a);
    }
  }

  lemma {:induction false} ChildActionsSnoc(nodes: seq<Node>, children: seq<Option<nat>>, slot: Option<nat>)
    ensures ChildActions(nodes, children + [slot]) ==
      ChildActions(nodes, children)
      + (if slot.Some? && slot.value < |nodes| then [nodes[slot.value].action] else [])
    decreases |children|
  {
    if children == [] {
      assert children + [slot] == [slot];
    } else {
      assert (children + [slot])[1..] == children[1..] + [slot];
      ChildActionsSnoc(nodes, children[1..], slot);
    }
  }

  /** Child actions read in a larger arena that agrees on the actions of the slots' nodes are the same. */
  lemma {:induction false} ChildActionsFrame(nodes: seq<Node>, nodes': seq<Node>, children: seq<Option<nat>>)
    requires |nodes| <= |nodes'|
    requires forall k :: 0 <= k < |children| && children[k].Some? ==> children[k].value < |nodes|
    requires forall c :: 0 <= c < |nodes| ==> nodes'[c].action == nodes[c].action
    ensures ChildActions(nodes', children) == ChildActions(nodes, children)
    decreases |children|
  {
    if children != [] {
      assert children[0].Some? ==> children[0].value < |nodes|;
      forall k | 0 <= k < |children[1..]| && children[1..][k].Some?
        ensures children[1..][k].value < |nodes|
      {
        assert children[1..][k] == children[k + 1];
      }
      ChildActionsFrame(nodes, nodes', children[1..]);
    }
  }

  lemma {:induction false} ChildActionsFull(nodes: seq<Node>, children: seq<Option<nat>>)
    requires forall k :: 0 <= k < |children| ==> children[k].Some? && children[k].value < |nodes|
    ensures |ChildActions(nodes, children)| == |children|
    decreases |children|
  {
    if children != [] {
      forall k | 0 <= k < |children[1..]|
        ensures children[1..][k].Some? && children[1..][k].value < |nodes|
      {
        assert children[1..][k] == children[k + 1];
      }
      ChildActionsFull(nodes, children[1..]);
    }
  }

  /** No node has more children than its legal actions, and their actions are pairwise different. */
  lemma ChildCountBound(nodes: seq<Node>, i: nat)
    requires ValidArena(nodes) && i < |nodes|
    ensures |nodes[i].children| <= |nodes[i].state.myPossibleActions|
    ensures Distinct(ChildActions(nodes, nodes[i].children))
  {
    var children := nodes[i].children;
    var actions := ChildActions(nodes, children);
    forall k | 0 <= k < |children|
      ensures children[k].Some? && children[k].value < |nodes|
    {
      assert LinkedChild(nodes, i, children[k]);
    }
    ChildActionsFull(nodes, children);
    forall a | a in actions
      ensures a in nodes[i].state.myPossibleActions
    {
      ContainsMeansInChildActions(nodes, children, a);
      ContainsIff(nodes, children, a);
      var k :| 0 <= k < |children| && children[k].Some?
        && children[k].value < |nodes| && nodes[children[k].value].action == a;
      assert LinkedChild(nodes, i, children[k]);
    }
    DistinctSubsetLength(actions, nodes[i].state.myPossibleActions);
  }

  /**
   * A node that is not fully expanded, with a repetition-free action list, has an untried action:
   * the `unwrap` of expansion cannot fail on a node that selection returns.
   */
  lemma NotFullyExpandedHasUntried(nodes: seq<Node>, n: nat)
    requires ValidArena(nodes) && n < |nodes|
    requires Distinct(nodes[n].state.myPossibleActions)
    requires !IsFullyExpanded(nodes[n])
    ensures |UntriedActions(nodes, n)| > 0
  {
    var actions := nodes[n].state.myPossibleActions;
    var children := nodes[n].children;
    ChildCountBound(nodes, n);
    if UntriedActions(nodes, n) == [] {
      forall a | a in actions
        ensures a in ChildActions(nodes, children)
      {
        assert a !in UntriedActions(nodes, n);
        ContainsMeansInChildActions(nodes, children, a);
      }
      DistinctSubsetLength(actions, ChildActions(nodes, children));
      forall k | 0 <= k < |children|
        ensures children[k].Some? && children[k].value < |nodes|
      {
        assert LinkedChild(nodes, n, children[k]);
      }
      ChildActionsFull(nodes, children);
      assert false;
    }
  }

  /** Every state in a tree whose root state is consistent keeps the scores summing to the round. */
  lemma TreeScoresMatchRound(nodes: seq<Node>)
    requires ValidArena(nodes) && ScoresMatchRound(nodes[0].state)
    ensures forall i :: 0 <= i < |nodes| ==> ScoresMatchRound(nodes[i].state)
  {
    forall i | 0 <= i < |nodes|
      ensures ScoresMatchRound(nodes[i].state)
    {
      NodeScoresMatchRound(nodes, i);
    }
  }

  lemma {:induction false} NodeScoresMatchRound(nodes: seq<Node>, i: nat)
    requires ValidArena(nodes) && ScoresMatchRound(nodes[0].state) && i < |nodes|
    ensures ScoresMatchRound(nodes[i].state)
    decreases i
  {
    if i > 0 {
      var p := nodes[i].parent.value;
      NodeScoresMatchRound(nodes, p);
      var k :| 0 <= k < |nodes[p].children| && nodes[p].children[k] == Some(i);
      assert LinkedChild(nodes, p, nodes[p].children[k]);
      ApplyKeepsScoresMatchRound(nodes[p].state, nodes[i].action);
    }
  }

  // ---------------------------------------------------------------------------------------------
  // Expansion
  // ---------------------------------------------------------------------------------------------

  /**
   * The arena after node `n` is expanded with `a`: a new node with the given id, the action and
   * the successor state is appended, and its index is pushed onto `n`'s child slots. The arena
   * grows by one node and `n` by one child slot; nothing else changes.
   */
  function ExpandedArena(nodes: seq<Node>, n: nat, a: Action, id: int): (r: seq<Node>)
    requires n < |nodes|
    ensures |r| == |nodes| + 1
    ensures forall j :: 0 <= j < |nodes| && j != n ==> r[j] == nodes[j]
    ensures r[n] == nodes[n].(children := nodes[n].children + [Some(|nodes|)])
    ensures r[|nodes|] == NewNode(id, a, Apply(nodes[n].state, a), Some(n))
  {
    nodes[n := nodes[n].(children := nodes[n].children + [Some(|nodes|)])]
      + [NewNode(id, a, Apply(nodes[n].state, a), Some(n))]
  }

  /** Expansion adds `a` to the child actions of `n` and leaves those of every other node as they were. */
  lemma ExpandedChildActions(nodes: seq<Node>, n: nat, a: Action, id: int, i: nat)
    requires ValidArena(nodes) && n < |nodes| && i < |nodes|
    ensures ChildActions(ExpandedArena(nodes, n, a, id), ExpandedArena(nodes, n, a, id)[i].children)
         == ChildActions(nodes, nodes[i].children) + (if i == n then [a] else [])
  {
    var r := ExpandedArena(nodes, n, a, id);
    var m := |nodes|;
    var children := nodes[i].children;
    forall k | 0 <= k < |children| && children[k].Some?
      ensures children[k].value < m
    {
      assert LinkedChild(nodes, i, children[k]);
    }
    assert forall c :: 0 <= c < m ==> r[c].action == nodes[c].action;
    ChildActionsFrame(nodes, r, children);
    if i == n {
      ChildActionsSnoc(r, children, Some(m));
    }
  }

  lemma ExpandedStats(nodes: seq<Node>, n: nat, a: Action, id: int)
    requires n < |nodes| && AllStatsOk(nodes) && SameActions(nodes)
    ensures var r := ExpandedArena(nodes, n, a, id);
      && r[0].parent == nodes[0].parent && AllStatsOk(r) && SameActions(r)
  {
  }

  lemma ExpandedParents(nodes: seq<Node>, n: nat, a: Action, id: int)
    requires ParentsLinked(nodes) && n < |nodes|
    ensures ParentsLinked(ExpandedArena(nodes, n, a, id))
  {
    var r := ExpandedArena(nodes, n, a, id);
    var m := |nodes|;
    forall i | 0 < i < |r|
      ensures r[i].parent.Some? && r[i].parent.value < i && Some(i) in r[r[i].parent.value].children
    {
      if i < m {
        var p := nodes[i].parent.value;
        assert r[i].parent == nodes[i].parent;
        assert Some(i) in nodes[p].children;
        assert nodes[p].children <= r[p].children;
      } else {
        assert r[n].children[|nodes[n].children|] == Some(m);
      }
    }
  }

  lemma ExpandedLinks(nodes: seq<Node>, n: nat, a: Action, id: int)
    requires ChildrenLinked(nodes) && n < |nodes|
    requires a in nodes[n].state.myPossibleActions
    ensures ChildrenLinked(ExpandedArena(nodes, n, a, id))
  {
    var r := ExpandedArena(nodes, n, a, id);
    var m := |nodes|;
    forall i, k | 0 <= i < m && 0 <= k < |r[i].children|
      ensures LinkedChild(r, i, r[i].children[k])
    {
      if i == n && k == |nodes[n].children| {
        assert r[i].children[k] == Some(m);
      } else {
        assert r[i].children[k] == nodes[i].children[k];
        assert LinkedChild(nodes, i, nodes[i].children[k]);
        var c := nodes[i].children[k].value;
        assert c < m && r[c].parent == nodes[c].parent && r[c].state == nodes[c].state;
        assert r[c].action == nodes[c].action && r[i].state == nodes[i].state;
      }
    }
    assert r[m].children == [];
  }

  lemma ExpandedDistinct(nodes: seq<Node>, n: nat, a: Action, id: int)
    requires ValidArena(nodes) && n < |nodes|
    requires !Contains(nodes, nodes[n].children, a)
    ensures ChildrenDistinct(ExpandedArena(nodes, n, a, id))
  {
    var r := ExpandedArena(nodes, n, a, id);
    var m := |nodes|;
    forall i | 0 <= i < m
      ensures Distinct(ChildActions(r, r[i].children))
    {
      ExpandedChildActions(nodes, n, a, id, i);
      if i == n {
        ContainsMeansInChildActions(nodes, nodes[n].children, a);
        DistinctSnoc(ChildActions(nodes, nodes[n].children), a);
      }
    }
    assert r[m].children == [];
  }

  /** Expanding with an untried action keeps the arena a tree, and then `a` is expanded at `n`. */
  lemma ExpandedValid(nodes: seq<Node>, n: nat, a: Action, id: int)
    requires ValidArena(nodes) && n < |nodes|
    requires a in UntriedActions(nodes, n)
    ensures ValidArena(ExpandedArena(nodes, n, a, id))
    ensures Contains(ExpandedArena(nodes, n, a, id), ExpandedArena(nodes, n, a, id)[n].children, a)
  {
    var r := ExpandedArena(nodes, n, a, id);
    assert a in nodes[n].state.myPossibleActions && !Contains(nodes, nodes[n].children, a);
    ExpandedStats(nodes, n, a, id);
    ExpandedParents(nodes, n, a, id);
    ExpandedLinks(nodes, n, a, id);
    ExpandedDistinct(nodes, n, a, id);
    ExpandedChildActions(nodes, n, a, id, n);
    ContainsMeansInChildActions(r, r[n].children, a);
  }

  /**
   * Expansion as the source writes it: the new node records the id counter `currentId` as its
   * parent instead of the node it is pushed under. The arena index equals the id, so this is the
   * index of the most recently created node.
   */
  function ExpandedArenaAsWritten(nodes: seq<Node>, n: nat, a: Action, currentId: nat): (r: seq<Node>)
    requires n < |nodes|
    ensures |r| == |nodes| + 1
    ensures r[..|nodes|] == ExpandedArena(nodes, n, a, currentId + 1)[..|nodes|]
    ensures r[|nodes|] == ExpandedArena(nodes, n, a, currentId + 1)[|nodes|].(parent := Some(currentId))
  {
    nodes[n := nodes[n].(children := nodes[n].children + [Some(|nodes|)])]
      + [NewNode(currentId + 1, a, Apply(nodes[n].state, a), Some(currentId))]
  }

  /**
   * Expanding the root twice, as the driver does while the root is not fully expanded, gives the
   * second child the first child as recorded parent, although the root lists it as its child;
   * the corrected expansion keeps the tree.
   */
  lemma ParentLinkAsWrittenBreaksTree()
    ensures var t0 := [NewNode(0, Heads, InitialState(), None)];
      var t1 := ExpandedArenaAsWritten(t0, 0, Heads, 0);
      var t2 := ExpandedArenaAsWritten(t1, 0, Tails, 1);
      && ValidArena(t1) && !ValidArena(t2)
      && t2[2].parent == Some(1) && Some(2) in t2[0].children && Some(2) !in t2[1].children
    ensures var t0 := [NewNode(0, Heads, InitialState(), None)];
      var t1 := ExpandedArena(t0, 0, Heads, 1);
      var t2 := ExpandedArena(t1, 0, Tails, 2);
      && ValidArena(t2) && t2[2].parent == Some(0) && Some(2) in t2[0].children
  {
    var t0 := [NewNode(0, Heads, InitialState(), None)];
    assert ValidArena(t0);
    var t1 := ExpandedArenaAsWritten(t0, 0, Heads, 0);
    assert t1 == ExpandedArena(t0, 0, Heads, 1);
    assert Heads in UntriedActions(t0, 0);
    ExpandedValid(t0, 0, Heads, 1);
    var t2 := ExpandedArenaAsWritten(t1, 0, Tails, 1);
    assert t2[2].parent == Some(1) && t2[1].children == [];
    assert !ParentsLinked(t2);
    assert t1[0].children == [Some(1)] && t1[1].action == Heads;
    assert !Contains(t1, t1[0].children, Tails) by {
      assert t1[0].children[1..] == [];
    }
    assert t1[0].state.myPossibleActions == [Heads, Tails];
    assert Tails in UntriedActions(t1, 0);
    ExpandedValid(t1, 0, Tails, 2);
  }

  // ---------------------------------------------------------------------------------------------
  // Backpropagation
  // ---------------------------------------------------------------------------------------------

  /**
   * The nodes the backpropagation loop updates, from `n` upwards: every node on the way that has
   * a parent. The loop stops at the root without updating it.
   */
  ghost function AncestorPath(nodes: seq<Node>, n: nat): seq<nat>
    requires ParentsBefore(nodes) && n < |nodes|
    decreases n
  {
    match nodes[n].parent
    case None => []
    case Some(p) => [n] + AncestorPath(nodes, p)
  }

  /** The path starts at `n` unless `n` is the root, climbs strictly and ends just below the root. */
  lemma {:induction false} AncestorPathShape(nodes: seq<Node>, n: nat)
    requires ParentsBefore(nodes) && n < |nodes|
    ensures var path := AncestorPath(nodes, n);
      && (path == [] <==> n == 0)
      && (forall j :: 0 <= j < |path| ==> 0 < path[j] <= n && nodes[path[j]].parent.Some?)
      && (path != [] ==> path[0] == n && nodes[path[|path| - 1]].parent == Some(0))
      && (forall j1, j2 :: 0 <= j1 < j2 < |path| ==> path[j1] > path[j2])
    decreases n
  {
    if n > 0 {
      var p := nodes[n].parent.value;
      AncestorPathShape(nodes, p);
      var rest := AncestorPath(nodes, p);
      assert AncestorPath(nodes, n) == [n] + rest;
      if rest != [] {
        assert nodes[rest[|rest| - 1]].parent == Some(0);
      }
    }
  }

  /** One more visit, and one more win when the result is a win. */
  function Bump(n: Node, result: bool): (r: Node)
  {
    n.(visits := n.visits + 1, wins := if result then n.wins + 1 else n.wins)
  }

  /** The arena after every node on `path` is bumped once. */
  function Backpropagated(nodes: seq<Node>, path: seq<nat>, result: bool): (r: seq<Node>)
  {
    seq(|nodes|, i requires 0 <= i < |nodes| => if i in path then Bump(nodes[i], result) else nodes[i])
  }

  lemma BackpropagatedNone(nodes: seq<Node>, result: bool)
    ensures Backpropagated(nodes, [], result) == nodes
  {
  }

  /** Bumping one more node `c`, not yet on `done`, extends the path by `c`. */
  lemma BackpropagatedStep(nodes: seq<Node>, done: seq<nat>, c: nat, result: bool)
    requires c < |nodes|
    requires forall j :: 0 <= j < |done| ==> done[j] > c
    ensures Backpropagated(nodes, done, result)[c] == nodes[c]
    ensures Backpropagated(nodes, done, result)[c := Bump(nodes[c], result)]
         == Backpropagated(nodes, done + [c], result)
  {
    var before := Backpropagated(nodes, done, result);
    assert c !in done;
    assert before[c] == nodes[c];
    var after := Backpropagated(nodes, done + [c], result);
    forall i | 0 <= i < |nodes|
      ensures before[c := Bump(before[c], result)][i] == after[i]
    {
      assert (i in done + [c]) == (i in done || i == c);
    }
  }

  /** One step up the ancestor chain. */
  lemma AncestorPathStep(nodes: seq<Node>, c: nat)
    requires ParentsBefore(nodes) && c < |nodes|
    ensures nodes[c].parent.Some? ==>
      nodes[c].parent.value < c && AncestorPath(nodes, c) == [c] + AncestorPath(nodes, nodes[c].parent.value)
    ensures nodes[c].parent.None? ==> AncestorPath(nodes, c) == []
  {
  }

  /** Backpropagation changes only statistics: each node on the path gains one visit, and one win iff `result`. */
  lemma BackpropagatedEffect(nodes: seq<Node>, path: seq<nat>, result: bool)
    ensures var r := Backpropagated(nodes, path, result);
      && |r| == |nodes|
      && (forall i :: 0 <= i < |nodes| ==>
            && r[i].visits == nodes[i].visits + (if i in path then 1 else 0)
            && r[i].wins == nodes[i].wins + (if i in path && result then 1 else 0)
            && r[i].(visits := nodes[i].visits, wins := nodes[i].wins) == nodes[i])
  {
  }

  /** Two arenas of the same nodes that may differ only in their statistics. */
  ghost predicate SameStructure(nodes: seq<Node>, r: seq<Node>)
  {
    && |r| == |nodes|
    && forall i :: 0 <= i < |nodes| ==>
         && r[i].parent == nodes[i].parent && r[i].state == nodes[i].state
         && r[i].action == nodes[i].action && r[i].children == nodes[i].children
  }

  lemma SameStructureLinks(nodes: seq<Node>, r: seq<Node>)
    requires ChildrenLinked(nodes) && SameStructure(nodes, r)
    ensures ChildrenLinked(r)
  {
    forall i, k | 0 <= i < |r| && 0 <= k < |r[i].children|
      ensures LinkedChild(r, i, r[i].children[k])
    {
      assert LinkedChild(nodes, i, nodes[i].children[k]);
    }
  }

  lemma SameStructureDistinct(nodes: seq<Node>, r: seq<Node>)
    requires ChildrenLinked(nodes) && ChildrenDistinct(nodes) && SameStructure(nodes, r)
    ensures ChildrenDistinct(r)
  {
    forall i | 0 <= i < |r|
      ensures Distinct(ChildActions(r, r[i].children))
    {
      forall k | 0 <= k < |nodes[i].children| && nodes[i].children[k].Some?
        ensures nodes[i].children[k].value < |nodes|
      {
        assert LinkedChild(nodes, i, nodes[i].children[k]);
      }
      ChildActionsFrame(nodes, r, nodes[i].children);
    }
  }

  /** Changing statistics only, while keeping them consistent, keeps the arena a tree. */
  lemma SameStructureValid(nodes: seq<Node>, r: seq<Node>)
    requires ValidArena(nodes) && SameStructure(nodes, r) && AllStatsOk(r)
    ensures ValidArena(r)
  {
    assert SameActions(r) && ParentsLinked(r);
    SameStructureLinks(nodes, r);
    SameStructureDistinct(nodes, r);
  }

  /** Backpropagation keeps the arena a tree and keeps `0 <= wins <= visits` at every node. */
  lemma BackpropagatedValid(nodes: seq<Node>, path: seq<nat>, result: bool)
    requires ValidArena(nodes)
    ensures ValidArena(Backpropagated(nodes, path, result))
  {
    var r := Backpropagated(nodes, path, result);
    BackpropagatedEffect(nodes, path, result);
    assert SameStructure(nodes, r);
    assert AllStatsOk(r) by {
      assert AllStatsOk(nodes);
    }
    SameStructureValid(nodes, r);
  }

  /**
   * Backpropagating from `n`: every node from `n` up to, but not including, the root gains one
   * visit and, iff `result`, one win; the root and the nodes off the path are unchanged; no visit
   * count decreases.
   */
  lemma BackpropagateFrom(nodes: seq<Node>, n: nat, result: bool)
    requires ValidArena(nodes) && n < |nodes|
    ensures var r := Backpropagated(nodes, AncestorPath(nodes, n), result);
      && ValidArena(r)
      && r[0] == nodes[0]
      && (n != 0 ==> r[n] == Bump(nodes[n], result))
      && (forall i :: 0 <= i < |nodes| ==> nodes[i].visits <= r[i].visits <= nodes[i].visits + 1)
  {
    var path := AncestorPath(nodes, n);
    AncestorPathShape(nodes, n);
    BackpropagatedEffect(nodes, path, result);
    BackpropagatedValid(nodes, path, result);
    if n != 0 {
      assert path[0] == n;
    }
  }

  // ---------------------------------------------------------------------------------------------
  // Selection
  // ---------------------------------------------------------------------------------------------

  /** Every node above `n` on the way up to the root is fully expanded: selection went through it. */
  ghost predicate AncestorsFullyExpanded(nodes: seq<Node>, n: nat)
    requires ParentsBefore(nodes) && n < |nodes|
    decreases n
  {
    match nodes[n].parent
    case None => true
    case Some(p) => IsFullyExpanded(nodes[p]) && AncestorsFullyExpanded(nodes, p)
  }

  /** A node other than the root is reached by selection only through a fully expanded root. */
  lemma {:induction false} SelectedBelowExpandedRoot(nodes: seq<Node>, n: nat)
    requires ParentsBefore(nodes) && n < |nodes|
    requires AncestorsFullyExpanded(nodes, n)
    ensures n != 0 ==> IsFullyExpanded(nodes[0])
    decreases n
  {
    if n != 0 {
      var p := nodes[n].parent.value;
      if p != 0 {
        SelectedBelowExpandedRoot(nodes, p);
      }
    }
  }

  // ---------------------------------------------------------------------------------------------
  // The tree object
  // ---------------------------------------------------------------------------------------------

  /** The search tree: an arena of nodes whose root is at index 0. */
  class Tree {
    var nodes: seq<Node>

    ghost predicate Valid()
      reads this
    {
      ValidArena(nodes)
    }

    /** A tree holding only the root, with id 0, the placeholder action Heads and no parent. */
    constructor (state: GameState)
      ensures Valid()
      ensures nodes == [NewNode(0, Heads, state, None)]
    {
      nodes := [NewNode(0, Heads, state, None)];
    }

    /**
     * Selection: from the root, descend into some child while the node is fully expanded. The
     * child chosen (`best_child`, unimplemented in the source) is left open.
     */
    method Select() returns (n: nat)
      requires Valid()
      requires |nodes[0].state.myPossibleActions| > 0
      ensures n < |nodes|
      ensures !IsFullyExpanded(nodes[n])
      ensures AncestorsFullyExpanded(nodes, n)
      ensures !IsFullyExpanded(nodes[0]) ==> n == 0
    {
      n := 0;
      while IsFullyExpanded(nodes[n])
        invariant n < |nodes|
        invariant AncestorsFullyExpanded(nodes, n)
        decreases |nodes| - n
      {
        var children := nodes[n].children;
        assert |children| == |nodes[0].state.myPossibleActions| > 0;
        var k :| 0 <= k < |children|;
        assert LinkedChild(nodes, n, children[k]);
        n := children[k].value;
      }
      SelectedBelowExpandedRoot(nodes, n);
    }

    /**
     * Expansion: pick some untried action of node `n`, append a fresh child with the successor
     * state and id `currentId + 1`, and return it with the advanced id counter.
     */
    method Expand(n: nat, currentId: int) returns (child: nat, newId: int)
      requires Valid() && n < |nodes|
      requires |UntriedActions(nodes, n)| > 0
      modifies this
      ensures Valid()
      ensures child == old(|nodes|) && child < |nodes|
      ensures newId == currentId + 1 && nodes[child].id == newId
      ensures nodes[child].action in UntriedActions(old(nodes), n)
      ensures nodes == ExpandedArena(old(nodes), n, nodes[child].action, newId)
      ensures Contains(nodes, nodes[n].children, nodes[child].action)
    {
      var untried := UntriedActions(nodes, n);
      assert untried[0] in untried;
      var a :| a in untried;
      ExpandedValid(nodes, n, a, currentId + 1);
      var state := Apply(nodes[n].state, a);
      var newNode := NewNode(currentId + 1, a, state, Some(n));
      child := |nodes|;
      nodes := nodes[n := nodes[n].(children := nodes[n].children + [Some(child)])] + [newNode];
      newId := currentId + 1;
    }

    /**
     * Backpropagation: walk up from `n`; every node that has a parent gains a visit and, iff
     * `result`, a win; the walk stops at the root.
     */
    method Backpropagate(n: nat, result: bool)
      requires Valid() && n < |nodes|
      modifies this
      ensures Valid()
      ensures nodes == Backpropagated(old(nodes), AncestorPath(old(nodes), n), result)
    {
      ghost var start := nodes;
      ghost var path := AncestorPath(start, n);
      ghost var done: seq<nat> := [];
      assert ParentsBefore(start);
      BackpropagatedNone(start, result);
      var current: nat := n;
      while nodes[current].parent.Some?
        invariant current < |start|
        invariant path == done + AncestorPath(start, current)
        invariant forall j :: 0 <= j < |done| ==> done[j] > current
        invariant nodes == Backpropagated(start, done, result)
        decreases current
      {
        BackpropagatedStep(start, done, current, result);
        AncestorPathStep(start, current);
        var p := nodes[current].parent.value;
        nodes := nodes[current := Bump(nodes[current], result)];
        assert path == (done + [current]) + AncestorPath(start, p);
        done := done + [current];
        current := p;
      }
      BackpropagatedStep(start, done, current, result);
      AncestorPathStep(start, current);
      assert path == done;
      BackpropagatedValid(start, path, result);
    }
  }
}
