/**
 * Best-first search over the puzzle (the source's `EightPuzzle.solve` and
 * `PuzzleNode`). Parent links form an arena: the expanded nodes in the order
 * of expansion, each parent handle being an index into it.
 */
module Search {
  import opened Wrappers
  import opened Puzzle
  import opened Heuristics

  /** The estimate a search is guided by; none gives uniform-cost search. */
  datatype HeuristicKind = NoHeuristic | ByManhattan | ByLinearConflict

  /** The only error `solve` raises: an unrecognised heuristic selector. */
  datatype Error = InvalidHeuristic

  /** Decode the selector: none, "manhattan" or "linear_conflict"; anything else is an error. */
  function SelectHeuristic(selector: Option<string>): (r: Result<HeuristicKind, Error>)
    ensures r.Err? <==> selector != None && selector != Some("manhattan") && selector != Some("linear_conflict")
    ensures r.Ok? ==> (r.value == NoHeuristic <==> selector == None)
    ensures r.Ok? ==> (r.value == ByLinearConflict <==> selector == Some("linear_conflict"))
  {
    match selector
    case None => Ok(NoHeuristic)
    case Some(name) =>
      if name == "manhattan" then Ok(ByManhattan)
      else if name == "linear_conflict" then Ok(ByLinearConflict)
      else Err(InvalidHeuristic)
  }

  /** The estimate of the selected heuristic. */
  function Estimate(kind: HeuristicKind, s: seq<int>): nat
    requires ValidTiles(s)
  {
    match kind
    case NoHeuristic => 0
    case ByManhattan => Manhattan(s)
    case ByLinearConflict => LinearConflict(s)
  }

  /** The three estimates are ordered, none above linear conflict, and all vanish at the goal. */
  lemma EstimateBounds(kind: HeuristicKind, s: seq<int>)
    requires ValidTiles(s)
    ensures Estimate(kind, s) <= LinearConflict(s)
    ensures kind != NoHeuristic ==> Manhattan(s) <= Estimate(kind, s)
    ensures s == Goal ==> Estimate(kind, s) == 0
  {
    if s == Goal {
      HeuristicsAtGoal();
    }
  }

  /** Evaluate the selected heuristic with its loop implementation. */
  method Evaluate(kind: HeuristicKind, s: seq<int>) returns (h: int)
    requires ValidTiles(s)
    ensures h == Estimate(kind, s)
  {
    match kind
    case NoHeuristic =>
      h := 0;
    case ByManhattan =>
      h := ManhattanDistance(s);
    case ByLinearConflict =>
      h := LinearConflictValue(s);
  }

  /** A search node; `parent` is the arena handle of the node it was expanded from. */
  datatype Node = Node(state: seq<int>, parent: Option<nat>, action: Option<Move>,
                       cost: int, heuristic: int, depth: nat)

  /** The frontier orders nodes by path cost plus estimate. */
  function Priority(n: Node): int {
    n.cost + n.heuristic
  }

  /** The source's `__lt__`: strictly smaller priority. */
  predicate Less(n: Node, m: Node) {
    Priority(n) < Priority(m)
  }

  /**
   * `__lt__` is a strict weak order: irreflexive, transitive, and two nodes
   * neither of which is less than the other have the same priority.
   */
  lemma LessOrder(n: Node, m: Node, o: Node)
    ensures !Less(n, n)
    ensures Less(n, m) && Less(m, o) ==> Less(n, o)
    ensures !Less(n, m) && !Less(m, n) <==> Priority(n) == Priority(m)
    ensures Less(n, m) ==> !Less(m, n)
  {
  }

  /**
   * Node `n` is the root (initial state, no move, depth 0) or the result of a
   * move offered in the state of its parent, an arena node below `bound`, one
   * level deeper; its cost is its depth.
   */
  ghost predicate Linked(arena: seq<Node>, n: Node, bound: nat, initial: seq<int>) {
    && HasBlank(n.state) && ValidTiles(n.state) && n.cost == n.depth
    && (n.parent.None? ==> n.state == initial && n.action.None? && n.depth == 0)
    && (n.parent.Some? ==>
          && n.parent.value < bound <= |arena| && n.action.Some?
          && var p := arena[n.parent.value];
             && HasBlank(p.state) && n.action.value in Actions(p.state)
             && n.state == Apply(p.state, n.action.value)
             && n.depth == p.depth + 1)
  }

  /** Every arena node is linked to an earlier one. */
  ghost predicate WellLinked(arena: seq<Node>, initial: seq<int>) {
    forall i :: 0 <= i < |arena| ==> Linked(arena, arena[i], i, initial)
  }

  /** Links stay valid when the arena grows at its end. */
  lemma LinkedGrow(arena: seq<Node>, arena': seq<Node>, n: Node, bound: nat, bound': nat, initial: seq<int>)
    requires Linked(arena, n, bound, initial) && arena <= arena' && bound <= bound' <= |arena'|
    ensures Linked(arena', n, bound', initial)
  {
    if n.parent.Some? {
      assert arena'[n.parent.value] == arena[n.parent.value];
    }
  }

  /** The source's `path[::-1]`. */
  function Reversed(s: seq<Move>): (r: seq<Move>)
    ensures |r| == |s| && forall i :: 0 <= i < |s| ==> r[i] == s[|s| - 1 - i]
  {
    if s == [] then [] else [s[|s| - 1]] + Reversed(s[..|s| - 1])
  }

  /**
   * Walk the parent links from node `goal` back to the root, collecting the
   * moves, and reverse them: the moves lead from the initial state to the
   * node's state, and there are as many as the node's depth and cost.
   */
  method TracePath(arena: seq<Node>, goal: nat, ghost initial: seq<int>) returns (path: seq<Move>)
    requires goal < |arena| && WellLinked(arena, initial)
    ensures Run(initial, path) == Some(arena[goal].state)
    ensures |path| == arena[goal].depth == arena[goal].cost
  {
    var steps: seq<Move> := [];
    var current: nat := goal;
    while arena[current].parent.Some?
      invariant current < |arena| && |steps| + arena[current].depth == arena[goal].depth
      invariant Run(arena[current].state, Reversed(steps)) == Some(arena[goal].state)
      decreases current
    {
      assert Linked(arena, arena[current], current, initial);
      var action := arena[current].action.value;
      var parent := arena[current].parent.value;
      assert (steps + [action])[..|steps|] == steps;
      RunCons(arena[parent].state, action, Reversed(steps));
      steps := steps + [action];
      current := parent;
    }
    assert Linked(arena, arena[current], current, initial);
    path := Reversed(steps);
  }

  /**
   * The source's `heapq.heappop`: the index of a node no other frontier node
   * is `Less` than. Which of several equal-priority nodes comes out is left open.
   */
  method PopIndex(frontier: seq<Node>) returns (p: nat)
    requires frontier != []
    ensures p < |frontier|
    ensures forall q :: 0 <= q < |frontier| ==> !Less(frontier[q], frontier[p])
  {
    p := 0;
    for q := 1 to |frontier|
      invariant p < q
      invariant forall k :: 0 <= k < q ==> !Less(frontier[k], frontier[p])
    {
      if Less(frontier[q], frontier[p]) {
        p := q;
      }
    }
  }

  /** The states of the frontier nodes, in frontier order. */
  function States(frontier: seq<Node>): (r: seq<seq<int>>)
    ensures |r| == |frontier| && forall k :: 0 <= k < |frontier| ==> r[k] == frontier[k].state
  {
    seq(|frontier|, k requires 0 <= k < |frontier| => frontier[k].state)
  }

  /** Removing one node from the frontier loses at most that node's state. */
  lemma StatesRemove(frontier: seq<Node>, p: nat)
    requires p < |frontier|
    ensures forall y :: y in States(frontier) ==>
      y == frontier[p].state || y in States(frontier[..p] + frontier[p + 1..])
  {
    var rest := frontier[..p] + frontier[p + 1..];
    forall y | y in States(frontier)
      ensures y == frontier[p].state || y in States(rest)
    {
      var k :| 0 <= k < |frontier| && States(frontier)[k] == y;
      if k < p {
        assert States(rest)[k] == y;
      } else if k > p {
        assert States(rest)[k - 1] == y;
      }
    }
  }

  /** Pushing a node keeps every state and adds the new one. */
  /** Every move from an explored state leads to an explored or a pending state. */
  ghost predicate Closed(explored: set<seq<int>>, pending: seq<seq<int>>) {
    forall x, a :: x in explored && HasBlank(x) && a in Actions(x) ==>
      Apply(x, a) in explored || Apply(x, a) in pending
  }

  /** One search step keeps the explored set closed. */
  lemma ClosedStep(explored: set<seq<int>>, pending: seq<seq<int>>,
                   explored': set<seq<int>>, pending': seq<seq<int>>)
    requires Closed(explored, pending) && explored <= explored'
    requires forall y :: y in pending ==> y in explored' || y in pending'
    requires forall x, a :: x in explored' - explored && HasBlank(x) && a in Actions(x) ==>
      Apply(x, a) in pending'
    ensures Closed(explored', pending')
  {
  }

  /** Once nothing is pending, a closed set holds every state reachable from its members. */
  lemma {:induction false} ClosedHoldsReachable(explored: set<seq<int>>, s: seq<int>, path: seq<Move>)
    requires Closed(explored, []) && s in explored && forall x :: x in explored ==> HasBlank(x)
    ensures Run(s, path).Some? ==> Run(s, path).value in explored
    decreases |path|
  {
    if path != [] && HasBlank(s) && path[0] in Actions(s) {
      ClosedHoldsReachable(explored, Apply(s, path[0]), path[1..]);
    }
  }

  /** Some move sequence leads from `initial` to `s`. */
  ghost predicate Reachable(initial: seq<int>, s: seq<int>) {
    exists path :: Run(initial, path) == Some(s)
  }

  /** A move from a reachable state leads to a reachable state. */
  lemma ReachableStep(initial: seq<int>, s: seq<int>, a: Move)
    requires Reachable(initial, s) && HasBlank(s) && a in Actions(s)
    ensures Reachable(initial, Apply(s, a))
  {
    var path :| Run(initial, path) == Some(s);
    RunSnoc(initial, path, s, a);
  }

  /** Every nine-cell sequence over 0..8: a finite bound on the explored set. */
  ghost function AllStates(n: nat): set<seq<int>> {
    if n == 0 then {[]} else set w, v | w in AllStates(n - 1) && 0 <= v <= 8 :: w + [v]
  }

  lemma {:induction false} InAllStates(s: seq<int>)
    requires forall i :: 0 <= i < |s| ==> 0 <= s[i] <= 8
    ensures s in AllStates(|s|)
  {
    if s != [] {
      var w, v := s[..|s| - 1], s[|s| - 1];
      InAllStates(w);
      assert s == w + [v];
    }
  }

  /** A frontier node is linked into the arena, carries its estimate, and is reachable. */
  ghost predicate Pending(arena: seq<Node>, n: Node, initial: seq<int>, kind: HeuristicKind) {
    && Linked(arena, n, |arena|, initial)
    && n.heuristic == Estimate(kind, n.state)
    && Reachable(initial, n.state)
  }

  /** Every frontier node is pending. */
  ghost predicate FrontierOk(arena: seq<Node>, frontier: seq<Node>, initial: seq<int>, kind: HeuristicKind) {
    forall k :: 0 <= k < |frontier| ==> Pending(arena, frontier[k], initial, kind)
  }

  /** Giving a handle to an expanded node keeps the arena and the frontier linked. */
  lemma ArenaGrow(arena: seq<Node>, node: Node, frontier: seq<Node>, initial: seq<int>, kind: HeuristicKind)
    requires WellLinked(arena, initial) && Linked(arena, node, |arena|, initial)
    requires FrontierOk(arena, frontier, initial, kind)
    ensures WellLinked(arena + [node], initial)
    ensures FrontierOk(arena + [node], frontier, initial, kind)
  {
    var arena' := arena + [node];
    forall i | 0 <= i < |arena'| ensures Linked(arena', arena'[i], i, initial) {
      if i < |arena| {
        LinkedGrow(arena, arena', arena[i], i, i, initial);
      } else {
        LinkedGrow(arena, arena', node, |arena|, i, initial);
      }
    }
    forall k | 0 <= k < |frontier| ensures Pending(arena', frontier[k], initial, kind) {
      LinkedGrow(arena, arena', frontier[k], |arena|, |arena'|, initial);
    }
  }

  /** Removing one node keeps the rest of the frontier pending. */
  lemma FrontierRemove(arena: seq<Node>, frontier: seq<Node>, p: nat, initial: seq<int>, kind: HeuristicKind)
    requires FrontierOk(arena, frontier, initial, kind) && p < |frontier|
    ensures FrontierOk(arena, frontier[..p] + frontier[p + 1..], initial, kind)
  {
    var rest := frontier[..p] + frontier[p + 1..];
    forall k | 0 <= k < |rest| ensures Pending(arena, rest[k], initial, kind) {
      if k < p {
        assert rest[k] == frontier[k];
      } else {
        assert rest[k] == frontier[k + 1];
      }
    }
  }

  /** A child built from an expanded, reachable arena node is pending. */
  lemma ChildPending(arena: seq<Node>, current: nat, action: Move, h: int,
                     initial: seq<int>, kind: HeuristicKind)
    requires current < |arena| && Linked(arena, arena[current], current, initial)
    requires Reachable(initial, arena[current].state)
    requires action in Actions(arena[current].state)
    requires h == Estimate(kind, Apply(arena[current].state, action))
    ensures Pending(arena, Node(Apply(arena[current].state, action), Some(current), Some(action),
                                arena[current].cost + 1, h, arena[current].depth + 1), initial, kind)
  {
    ReachableStep(initial, arena[current].state, action);
  }

  /**
   * The child node for move `a` from arena node `parent` (handle `current`):
   * one move deeper, one step dearer, carrying the estimate of its state.
   */
  function Child(kind: HeuristicKind, parent: Node, current: nat, a: Move): Node
    requires HasBlank(parent.state) && ValidTiles(parent.state) && a in Actions(parent.state)
  {
    Node(Apply(parent.state, a), Some(current), Some(a), parent.cost + 1,
         Estimate(kind, Apply(parent.state, a)), parent.depth + 1)
  }

  /** The children of `parent`, one per offered move, in the order of `Actions`. */
  function Children(kind: HeuristicKind, parent: Node, current: nat): (r: seq<Node>)
    requires HasBlank(parent.state) && ValidTiles(parent.state)
    ensures |r| == |Actions(parent.state)|
    ensures forall t :: 0 <= t < |r| ==> r[t] == Child(kind, parent, current, Actions(parent.state)[t])
  {
    var actions := Actions(parent.state);
    seq(|actions|, t requires 0 <= t < |actions| => Child(kind, parent, current, actions[t]))
  }

  /** The children of a reachable arena node are pending. */
  lemma ChildrenPending(kind: HeuristicKind, arena: seq<Node>, current: nat, frontier: seq<Node>, initial: seq<int>)
    requires current < |arena| && Linked(arena, arena[current], current, initial)
    requires Reachable(initial, arena[current].state)
    requires FrontierOk(arena, frontier, initial, kind)
    ensures FrontierOk(arena, frontier + Children(kind, arena[current], current), initial, kind)
  {
    var node, children := arena[current], Children(kind, arena[current], current);
    var longer := frontier + children;
    forall k | 0 <= k < |longer| ensures Pending(arena, longer[k], initial, kind) {
      if k < |frontier| {
        assert longer[k] == frontier[k];
      } else {
        var a := Actions(node.state)[k - |frontier|];
        assert longer[k] == children[k - |frontier|];
        ChildPending(arena, current, a, Estimate(kind, Apply(node.state, a)), initial, kind);
      }
    }
  }

  /** Pushing the children keeps every frontier state and adds the state of every child. */
  lemma ChildrenStates(kind: HeuristicKind, parent: Node, current: nat, frontier: seq<Node>)
    requires HasBlank(parent.state) && ValidTiles(parent.state)
    ensures forall y :: y in States(frontier) ==> y in States(frontier + Children(kind, parent, current))
    ensures forall a :: a in Actions(parent.state) ==>
      Apply(parent.state, a) in States(frontier + Children(kind, parent, current))
  {
    var actions, children := Actions(parent.state), Children(kind, parent, current);
    var longer := frontier + children;
    forall y | y in States(frontier) ensures y in States(longer) {
      var k :| 0 <= k < |frontier| && States(frontier)[k] == y;
      assert longer[k] == frontier[k];
      assert States(longer)[k] == y;
    }
    forall a | a in actions ensures Apply(parent.state, a) in States(longer) {
      var t :| 0 <= t < |actions| && actions[t] == a;
      assert longer[|frontier| + t] == children[t] == Child(kind, parent, current, a);
      assert States(longer)[|frontier| + t] == Apply(parent.state, a);
    }
  }

  /** Extending a prefix of `s` by its next element. */
  lemma PrefixStep(front: seq<Node>, s: seq<Node>, t: nat)
    requires t < |s|
    ensures front + s[..t] + [s[t]] == front + s[..t + 1]
  {
    assert s[..t + 1] == s[..t] + [s[t]];
  }

  /**
   * Push a child for every move offered in the state of arena node `current`
   * (the source's loop over `get_actions`): the frontier gains exactly those
   * children, in move order, and nothing else.
   */
  method PushChildren(kind: HeuristicKind, arena: seq<Node>, current: nat, frontier: seq<Node>,
                      ghost initial: seq<int>)
    returns (frontier': seq<Node>)
    requires current < |arena| && Linked(arena, arena[current], current, initial)
    requires Reachable(initial, arena[current].state)
    requires FrontierOk(arena, frontier, initial, kind)
    ensures frontier' == frontier + Children(kind, arena[current], current)
    ensures FrontierOk(arena, frontier', initial, kind)
    ensures forall y :: y in States(frontier) ==> y in States(frontier')
    ensures forall a :: a in Actions(arena[current].state) ==> Apply(arena[current].state, a) in States(frontier')
  {
    var node := arena[current];
    var actions := Actions(node.state);
    ghost var children := Children(kind, node, current);
    frontier' := frontier;
    for t := 0 to |actions|
      invariant frontier' == frontier + children[..t]
    {
      var action := actions[t];
      // The source filters children against `explored`, but compares a tuple
      // with string keys; the test never excludes anything, so every child is pushed.
      var newState := Apply(node.state, action);
      var h := Evaluate(kind, newState);
      var child := Node(newState, Some(current), Some(action), node.cost + 1, h, node.depth + 1);
      assert child == Child(kind, node, current, action) == children[t];
      PrefixStep(frontier, children, t);
      frontier' := frontier' + [child];
    }
    assert children[..|actions|] == children;
    ChildrenPending(kind, arena, current, frontier, initial);
    ChildrenStates(kind, node, current, frontier);
  }

  /**
   * The loop invariant of `solve` about its variables: the nodes are linked and
   * pending, the counter is the number of explored states, and the explored
   * states are reachable, exclude the goal, and are closed relative to the frontier.
   */
  ghost predicate SearchInv(initial: seq<int>, kind: HeuristicKind, root: Node, arena: seq<Node>,
                            frontier: seq<Node>, explored: set<seq<int>>, nodesExpanded: int) {
    && WellLinked(arena, initial) && FrontierOk(arena, frontier, initial, kind)
    && nodesExpanded == |explored| == |arena|
    && (forall x :: x in explored ==> HasBlank(x) && Reachable(initial, x))
    && explored <= AllStates(9)
    && Goal !in explored
    && (explored == {} ==> frontier == [root] && arena == [])
    && (explored != {} ==> initial in explored)
    && Closed(explored, States(frontier))
  }

  /**
   * The loop invariant of `solve` about its history: `trace`/`picks` is a run
   * from the start node that ends in the current frontier, arena and explored
   * set, and no snapshot of it has the goal explored.
   */
  ghost predicate RunInv(kind: HeuristicKind, root: Node, trace: seq<Snapshot>, picks: seq<nat>,
                         frontier: seq<Node>, arena: seq<Node>, explored: set<seq<int>>) {
    && Traced(kind, root, trace, picks) && trace[|trace| - 1] == Snapshot(frontier, arena, explored)
    && forall i :: 0 <= i < |trace| ==> Goal !in trace[i].explored
  }

  /** The start of `solve`: only the start node is pending, nothing is explored, and the run is empty. */
  lemma StartInv(initial: seq<int>, kind: HeuristicKind, root: Node)
    requires HasBlank(initial) && ValidTiles(initial)
    requires root == StartNode(kind, initial)
    ensures SearchInv(initial, kind, root, [], [root], {}, 0)
    ensures RunInv(kind, root, [Snapshot([root], [], {})], [], [root], [], {})
  {
    assert Run(initial, []) == Some(initial);
  }

  /** A popped node, as a frontier node, is a valid configuration. */
  lemma PoppedValid(arena: seq<Node>, frontier: seq<Node>, initial: seq<int>, kind: HeuristicKind, p: nat)
    requires FrontierOk(arena, frontier, initial, kind) && p < |frontier|
    ensures HasBlank(frontier[p].state) && ValidTiles(frontier[p].state)
  {
    assert Pending(arena, frontier[p], initial, kind);
  }

  /** Skipping a popped node whose state was explored is a turn of the run. */
  lemma TraceSkip(kind: HeuristicKind, root: Node, trace: seq<Snapshot>, picks: seq<nat>,
                  frontier: seq<Node>, arena: seq<Node>, explored: set<seq<int>>, p: nat)
    requires RunInv(kind, root, trace, picks, frontier, arena, explored)
    requires Least(frontier, p) && HasBlank(frontier[p].state) && ValidTiles(frontier[p].state)
    requires frontier[p].state in explored
    ensures RunInv(kind, root, trace + [Snapshot(frontier[..p] + frontier[p + 1..], arena, explored)], picks + [p],
                   frontier[..p] + frontier[p + 1..], arena, explored)
  {
    TracedSnoc(kind, root, trace, picks, p);
  }

  /** Expanding a popped non-goal node and pushing its children is a turn of the run. */
  lemma TraceExpand(kind: HeuristicKind, root: Node, trace: seq<Snapshot>, picks: seq<nat>,
                    frontier: seq<Node>, arena: seq<Node>, explored: set<seq<int>>, p: nat, frontier': seq<Node>)
    requires RunInv(kind, root, trace, picks, frontier, arena, explored)
    requires Least(frontier, p) && HasBlank(frontier[p].state) && ValidTiles(frontier[p].state)
    requires frontier[p].state !in explored && frontier[p].state != Goal
    requires frontier' == frontier[..p] + frontier[p + 1..] + Children(kind, frontier[p], |arena|)
    ensures RunInv(kind, root, trace + [Snapshot(frontier', arena + [frontier[p]], explored + {frontier[p].state})],
                   picks + [p], frontier', arena + [frontier[p]], explored + {frontier[p].state})
  {
    TracedSnoc(kind, root, trace, picks, p);
  }

  /** Expanding a popped goal node ends the run: the goal is explored for the first time. */
  lemma TraceGoal(kind: HeuristicKind, root: Node, trace: seq<Snapshot>, picks: seq<nat>,
                  frontier: seq<Node>, arena: seq<Node>, explored: set<seq<int>>, p: nat)
    requires RunInv(kind, root, trace, picks, frontier, arena, explored)
    requires Least(frontier, p) && HasBlank(frontier[p].state) && ValidTiles(frontier[p].state)
    requires frontier[p].state == Goal
    ensures var last := Snapshot(frontier[..p] + frontier[p + 1..], arena + [frontier[p]], explored + {Goal});
      && Traced(kind, root, trace + [last], picks + [p])
      && (trace + [last])[|trace + [last]| - 1] == last
      && forall i :: 0 <= i < |trace + [last]| - 1 ==> Goal !in (trace + [last])[i].explored
  {
    TracedSnoc(kind, root, trace, picks, p);
  }

  /** Popping a node whose state was explored keeps the invariant (lazy deletion). */
  lemma SkipStep(initial: seq<int>, kind: HeuristicKind, root: Node, arena: seq<Node>,
                 frontier: seq<Node>, explored: set<seq<int>>, nodesExpanded: int, p: nat)
    requires SearchInv(initial, kind, root, arena, frontier, explored, nodesExpanded)
    requires p < |frontier| && frontier[p].state in explored
    ensures SearchInv(initial, kind, root, arena, frontier[..p] + frontier[p + 1..], explored, nodesExpanded)
  {
    var rest := frontier[..p] + frontier[p + 1..];
    StatesRemove(frontier, p);
    FrontierRemove(arena, frontier, p, initial, kind);
    ClosedStep(explored, States(frontier), explored, States(rest));
  }

  /** Popping a node with a new state and giving it an arena handle keeps everything linked. */
  lemma ExpandLinks(initial: seq<int>, kind: HeuristicKind, root: Node, arena: seq<Node>,
                    frontier: seq<Node>, explored: set<seq<int>>, nodesExpanded: int, p: nat)
    requires SearchInv(initial, kind, root, arena, frontier, explored, nodesExpanded)
    requires p < |frontier|
    ensures WellLinked(arena + [frontier[p]], initial)
    ensures FrontierOk(arena + [frontier[p]], frontier[..p] + frontier[p + 1..], initial, kind)
    ensures Reachable(initial, frontier[p].state)
    ensures HasBlank(frontier[p].state) && ValidTiles(frontier[p].state)
  {
    FrontierRemove(arena, frontier, p, initial, kind);
    ArenaGrow(arena, frontier[p], frontier[..p] + frontier[p + 1..], initial, kind);
    PoppedValid(arena, frontier, initial, kind, p);
  }

  /** What holds of the counters and the explored set once a node with a new state is expanded. */
  lemma ExpandFacts(initial: seq<int>, kind: HeuristicKind, root: Node, arena: seq<Node>,
                    frontier: seq<Node>, explored: set<seq<int>>, nodesExpanded: int, p: nat)
    requires SearchInv(initial, kind, root, arena, frontier, explored, nodesExpanded)
    requires p < |frontier| && frontier[p].state !in explored
    requires Reachable(initial, frontier[p].state)
    ensures nodesExpanded + 1 == |explored + {frontier[p].state}| == |arena + [frontier[p]]|
    ensures initial in explored + {frontier[p].state}
    ensures forall x :: x in explored + {frontier[p].state} ==> Reachable(initial, x)
    ensures explored == {} ==> frontier[p] == root && arena == []
  {
    assert |explored + {frontier[p].state}| == |explored| + 1;
    if explored == {} {
      assert p == 0 && Pending(arena, frontier[0], initial, kind);
    }
  }

  /** Expanding the state of `frontier[p]` and pushing all its children keeps the explored set closed. */
  lemma ExpandClosed(explored: set<seq<int>>, frontier: seq<Node>, p: nat, frontier': seq<Node>)
    requires Closed(explored, States(frontier)) && p < |frontier| && HasBlank(frontier[p].state)
    requires forall y :: y in States(frontier[..p] + frontier[p + 1..]) ==> y in States(frontier')
    requires forall a :: a in Actions(frontier[p].state) ==> Apply(frontier[p].state, a) in States(frontier')
    ensures Closed(explored + {frontier[p].state}, States(frontier'))
  {
    StatesRemove(frontier, p);
    ClosedStep(explored, States(frontier), explored + {frontier[p].state}, States(frontier'));
  }

  /** Expanding a non-goal node and pushing its children keeps the invariant. */
  lemma ExpandStep(initial: seq<int>, kind: HeuristicKind, root: Node, arena: seq<Node>,
                   frontier: seq<Node>, explored: set<seq<int>>, nodesExpanded: int, p: nat,
                   frontier': seq<Node>)
    requires SearchInv(initial, kind, root, arena, frontier, explored, nodesExpanded)
    requires p < |frontier| && frontier[p].state !in explored && frontier[p].state != Goal
    requires FrontierOk(arena + [frontier[p]], frontier', initial, kind)
    requires forall y :: y in States(frontier[..p] + frontier[p + 1..]) ==> y in States(frontier')
    requires forall a :: a in Actions(frontier[p].state) ==> Apply(frontier[p].state, a) in States(frontier')
    ensures SearchInv(initial, kind, root, arena + [frontier[p]], frontier', explored + {frontier[p].state},
                      nodesExpanded + 1)
  {
    var node := frontier[p];
    ExpandLinks(initial, kind, root, arena, frontier, explored, nodesExpanded, p);
    ExpandFacts(initial, kind, root, arena, frontier, explored, nodesExpanded, p);
    InAllStates(node.state);
    ExpandClosed(explored, frontier, p, frontier');
  }

  /** What `solve` reports when the popped node holds the goal and `path` is traced back from it. */
  lemma FoundFacts(initial: seq<int>, kind: HeuristicKind, root: Node, arena: seq<Node>,
                   frontier: seq<Node>, explored: set<seq<int>>, nodesExpanded: int, p: nat, path: seq<Move>)
    requires SearchInv(initial, kind, root, arena, frontier, explored, nodesExpanded)
    requires p < |frontier| && frontier[p].state == Goal
    requires Run(initial, path) == Some(Goal) && |path| == frontier[p].depth
    ensures nodesExpanded + 1 == |explored + {Goal}| == |arena + [frontier[p]]| && initial in explored + {Goal}
    ensures forall x :: x in explored + {Goal} ==> Reachable(initial, x)
    ensures initial == Goal ==> Outcome(Some(path), |path|, nodesExpanded + 1) == Outcome(Some([]), 0, 1)
  {
    ExpandLinks(initial, kind, root, arena, frontier, explored, nodesExpanded, p);
    ExpandFacts(initial, kind, root, arena, frontier, explored, nodesExpanded, p);
  }

  /** What `solve` reports when the frontier runs empty: the goal cannot be reached. */
  lemma ExhaustedFacts(initial: seq<int>, kind: HeuristicKind, root: Node, arena: seq<Node>,
                       explored: set<seq<int>>, nodesExpanded: int)
    requires SearchInv(initial, kind, root, arena, [], explored, nodesExpanded)
    ensures nodesExpanded == |explored| == |arena| && initial in explored && initial != Goal
    ensures forall x :: x in explored ==> Reachable(initial, x)
    ensures Goal !in explored && Closed(explored, [])
    ensures forall path :: Run(initial, path) != Some(Goal)
  {
    assert States([]) == [];
    forall path ensures Run(initial, path) != Some(Goal) {
      ClosedHoldsReachable(explored, initial, path);
    }
  }

  /** The start node of `solve`: the initial state, no parent and no move, cost 0, and its estimate. */
  function StartNode(kind: HeuristicKind, initial: seq<int>): Node
    requires ValidTiles(initial)
  {
    Node(initial, None, None, 0, Estimate(kind, initial), 0)
  }

  /** The search's state between two pops: the frontier, the expanded nodes in order, and the explored states. */
  datatype Snapshot = Snapshot(frontier: seq<Node>, arena: seq<Node>, explored: set<seq<int>>)

  /** `frontier[p]` is a node `heappop` may return: no frontier node is `__lt__` it. */
  predicate Least(frontier: seq<Node>, p: nat) {
    p < |frontier| && forall q :: 0 <= q < |frontier| ==> !Less(frontier[q], frontier[p])
  }

  /**
   * One turn of the loop of `solve`, popping `frontier[p]`: an explored state is
   * skipped; otherwise the node is expanded, and unless it holds the goal its
   * children are pushed behind the remaining frontier.
   */
  function Pop(kind: HeuristicKind, s: Snapshot, p: nat): Snapshot
    requires p < |s.frontier| && HasBlank(s.frontier[p].state) && ValidTiles(s.frontier[p].state)
  {
    var n := s.frontier[p];
    var rest := s.frontier[..p] + s.frontier[p + 1..];
    if n.state in s.explored then Snapshot(rest, s.arena, s.explored)
    else if n.state == Goal then Snapshot(rest, s.arena + [n], s.explored + {n.state})
    else Snapshot(rest + Children(kind, n, |s.arena|), s.arena + [n], s.explored + {n.state})
  }

  /**
   * `trace` is a run of the loop of `solve` from the start node `root`: it
   * starts with `root` alone on the frontier, and each further snapshot follows
   * from the one before by popping a least node, the one at position `picks[k]`.
   */
  ghost predicate Traced(kind: HeuristicKind, root: Node, trace: seq<Snapshot>, picks: seq<nat>)
    decreases |picks|
  {
    && |trace| == |picks| + 1
    && if picks == [] then trace[0] == Snapshot([root], [], {})
       else
         var k := |picks| - 1;
         && Traced(kind, root, trace[..k + 1], picks[..k])
         && Least(trace[k].frontier, picks[k])
         && HasBlank(trace[k].frontier[picks[k]].state) && ValidTiles(trace[k].frontier[picks[k]].state)
         && trace[k + 1] == Pop(kind, trace[k], picks[k])
  }

  /** A run extended by one more pop of a least node is a run. */
  lemma TracedSnoc(kind: HeuristicKind, root: Node, trace: seq<Snapshot>, picks: seq<nat>, p: nat)
    requires Traced(kind, root, trace, picks)
    requires Least(trace[|trace| - 1].frontier, p)
    requires HasBlank(trace[|trace| - 1].frontier[p].state) && ValidTiles(trace[|trace| - 1].frontier[p].state)
    ensures Traced(kind, root, trace + [Pop(kind, trace[|trace| - 1], p)], picks + [p])
  {
    var trace', picks' := trace + [Pop(kind, trace[|trace| - 1], p)], picks + [p];
    assert trace'[..|picks| + 1] == trace && picks'[..|picks|] == picks;
  }

  /** What `solve` returns: the moves (None when no path was found), their number (-1 then) and the expansion count. */
  datatype Outcome = Outcome(path: Option<seq<Move>>, cost: int, nodesExpanded: nat)

  /**
   * What the search loop of `solve` reports together with its run: the run
   * starts at the start node and stops at the first expansion of the goal or
   * when the frontier is empty; the count is the number of states it explored,
   * each reachable from the start; a returned path runs from the start to the
   * goal with the length (and cost) of the goal node's depth; `None` comes with
   * cost -1 and means that no move sequence reaches the goal.
   */
  ghost predicate Reports(initial: seq<int>, kind: HeuristicKind, out: Outcome, trace: seq<Snapshot>, picks: seq<nat>) {
    && ValidTiles(initial)
    && Traced(kind, StartNode(kind, initial), trace, picks)
    && (forall i :: 0 <= i < |trace| - 1 ==> Goal !in trace[i].explored)
    && var last := trace[|trace| - 1];
    && out.nodesExpanded == |last.explored| == |last.arena|
    && initial in last.explored
    && (forall x :: x in last.explored ==> Reachable(initial, x))
    && (out.path.Some? ==>
          && Goal in last.explored && |last.arena| > 0 && last.arena[|last.arena| - 1].state == Goal
          && out.cost == |out.path.value| == last.arena[|last.arena| - 1].depth
          && Run(initial, out.path.value) == Some(Goal))
    && (out.path.None? ==>
          && out.cost == -1 && last.frontier == []
          && Goal !in last.explored && Closed(last.explored, [])
          && forall path :: Run(initial, path) != Some(Goal))
    && (initial == Goal ==> out == Outcome(Some([]), 0, 1))
  }

  /** A turn of the loop that pops a node whose state was explored. */
  lemma SkipTurn(initial: seq<int>, kind: HeuristicKind, root: Node, arena: seq<Node>,
                 frontier: seq<Node>, explored: set<seq<int>>, nodesExpanded: int,
                 trace: seq<Snapshot>, picks: seq<nat>, p: nat)
    requires SearchInv(initial, kind, root, arena, frontier, explored, nodesExpanded)
    requires RunInv(kind, root, trace, picks, frontier, arena, explored)
    requires Least(frontier, p) && frontier[p].state in explored
    ensures SearchInv(initial, kind, root, arena, frontier[..p] + frontier[p + 1..], explored, nodesExpanded)
    ensures RunInv(kind, root, trace + [Snapshot(frontier[..p] + frontier[p + 1..], arena, explored)], picks + [p],
                   frontier[..p] + frontier[p + 1..], arena, explored)
  {
    SkipStep(initial, kind, root, arena, frontier, explored, nodesExpanded, p);
    PoppedValid(arena, frontier, initial, kind, p);
    TraceSkip(kind, root, trace, picks, frontier, arena, explored, p);
  }

  /** A turn of the loop that expands a non-goal node and pushes its children. */
  lemma ExpandTurn(initial: seq<int>, kind: HeuristicKind, root: Node, arena: seq<Node>,
                   frontier: seq<Node>, explored: set<seq<int>>, nodesExpanded: int,
                   trace: seq<Snapshot>, picks: seq<nat>, p: nat, frontier': seq<Node>)
    requires SearchInv(initial, kind, root, arena, frontier, explored, nodesExpanded)
    requires RunInv(kind, root, trace, picks, frontier, arena, explored)
    requires Least(frontier, p) && frontier[p].state !in explored && frontier[p].state != Goal
    requires HasBlank(frontier[p].state) && ValidTiles(frontier[p].state)
    requires frontier' == frontier[..p] + frontier[p + 1..] + Children(kind, frontier[p], |arena|)
    requires FrontierOk(arena + [frontier[p]], frontier', initial, kind)
    requires forall y :: y in States(frontier[..p] + frontier[p + 1..]) ==> y in States(frontier')
    requires forall a :: a in Actions(frontier[p].state) ==> Apply(frontier[p].state, a) in States(frontier')
    ensures SearchInv(initial, kind, root, arena + [frontier[p]], frontier', explored + {frontier[p].state},
                      nodesExpanded + 1)
    ensures RunInv(kind, root, trace + [Snapshot(frontier', arena + [frontier[p]], explored + {frontier[p].state})],
                   picks + [p], frontier', arena + [frontier[p]], explored + {frontier[p].state})
  {
    ExpandStep(initial, kind, root, arena, frontier, explored, nodesExpanded, p, frontier');
    TraceExpand(kind, root, trace, picks, frontier, arena, explored, p, frontier');
  }

  /** The turn of the loop that pops the goal: what the loop reports then. */
  lemma GoalTurn(initial: seq<int>, kind: HeuristicKind, root: Node, arena: seq<Node>,
                 frontier: seq<Node>, explored: set<seq<int>>, nodesExpanded: int,
                 trace: seq<Snapshot>, picks: seq<nat>, p: nat, path: seq<Move>)
    requires ValidTiles(initial) && root == StartNode(kind, initial)
    requires SearchInv(initial, kind, root, arena, frontier, explored, nodesExpanded)
    requires RunInv(kind, root, trace, picks, frontier, arena, explored)
    requires Least(frontier, p) && frontier[p].state == Goal
    requires Run(initial, path) == Some(Goal) && |path| == frontier[p].depth
    ensures Reports(initial, kind, Outcome(Some(path), |path|, nodesExpanded + 1),
                    trace + [Snapshot(frontier[..p] + frontier[p + 1..], arena + [frontier[p]], explored + {Goal})],
                    picks + [p])
  {
    var last := Snapshot(frontier[..p] + frontier[p + 1..], arena + [frontier[p]], explored + {Goal});
    var trace' := trace + [last];
    FoundFacts(initial, kind, root, arena, frontier, explored, nodesExpanded, p, path);
    PoppedValid(arena, frontier, initial, kind, p);
    TraceGoal(kind, root, trace, picks, frontier, arena, explored, p);
    assert trace'[|trace'| - 1] == last;
    assert last.arena[|last.arena| - 1] == frontier[p];
  }

  /** The loop ends with an empty frontier: what it reports then. */
  lemma ExhaustedTurn(initial: seq<int>, kind: HeuristicKind, root: Node, arena: seq<Node>,
                      explored: set<seq<int>>, nodesExpanded: int, trace: seq<Snapshot>, picks: seq<nat>)
    requires ValidTiles(initial) && root == StartNode(kind, initial)
    requires SearchInv(initial, kind, root, arena, [], explored, nodesExpanded)
    requires RunInv(kind, root, trace, picks, [], arena, explored)
    ensures Reports(initial, kind, Outcome(None, -1, nodesExpanded), trace, picks)
  {
    ExhaustedFacts(initial, kind, root, arena, explored, nodesExpanded);
  }

  /**
   * The search loop of `solve` for a selected heuristic: pop a node of least
   * priority, skip it if its state was explored, else explore it, stop at the
   * goal, or push a child for every offered move. The ghost results record the
   * run: `trace` holds the frontier, the expanded nodes and the explored set
   * before each pop and after the last, and `picks` the position popped at each turn.
   */
  method BestFirst(initial: seq<int>, kind: HeuristicKind)
    returns (out: Outcome, ghost trace: seq<Snapshot>, ghost picks: seq<nat>)
    requires HasBlank(initial) && ValidTiles(initial)
    ensures Reports(initial, kind, out, trace, picks)
  {
    var h0 := Evaluate(kind, initial);
    var root := Node(initial, None, None, 0, h0, 0);
    assert root == StartNode(kind, initial);
    var frontier := [root];
    var arena: seq<Node> := [];
    var explored: set<seq<int>> := {};
    var nodesExpanded := 0;
    StartInv(initial, kind, root);
    trace, picks := [Snapshot(frontier, arena, explored)], [];

    while frontier != []
      invariant SearchInv(initial, kind, root, arena, frontier, explored, nodesExpanded)
      invariant RunInv(kind, root, trace, picks, frontier, arena, explored)
      decreases AllStates(9) - explored, |frontier|
    {
      var p := PopIndex(frontier);
      var node := frontier[p];
      var rest := frontier[..p] + frontier[p + 1..];
      if node.state in explored {
        SkipTurn(initial, kind, root, arena, frontier, explored, nodesExpanded, trace, picks, p);
        trace, picks := trace + [Snapshot(rest, arena, explored)], picks + [p];
        frontier := rest;
        continue;
      }
      ExpandLinks(initial, kind, root, arena, frontier, explored, nodesExpanded, p);
      var current := |arena|;
      assert (arena + [node])[current] == node;
      if node.state == Goal {
        var path := TracePath(arena + [node], current, initial);
        GoalTurn(initial, kind, root, arena, frontier, explored, nodesExpanded, trace, picks, p, path);
        return Outcome(Some(path), |path|, nodesExpanded + 1),
               trace + [Snapshot(rest, arena + [node], explored + {Goal})], picks + [p];
      }
      var pushed := PushChildren(kind, arena + [node], current, rest, initial);
      ExpandTurn(initial, kind, root, arena, frontier, explored, nodesExpanded, trace, picks, p, pushed);
      trace, picks := trace + [Snapshot(pushed, arena + [node], explored + {node.state})], picks + [p];
      frontier, arena := pushed, arena + [node];
      explored := explored + {node.state};
      nodesExpanded := nodesExpanded + 1;
    }
    ExhaustedTurn(initial, kind, root, arena, explored, nodesExpanded, trace, picks);
    return Outcome(None, -1, nodesExpanded), trace, picks;
  }

  /**
   * The source's `solve`: an unknown selector is the `ValueError`; otherwise
   * the search loop runs with the selected heuristic, and its run is returned
   * alongside the result.
   */
  method Solve(initial: seq<int>, selector: Option<string>)
    returns (r: Result<Outcome, Error>, ghost trace: seq<Snapshot>, ghost picks: seq<nat>)
    requires SelectHeuristic(selector).Ok? ==> HasBlank(initial) && ValidTiles(initial)
    ensures r.Err? <==> SelectHeuristic(selector).Err?
    ensures r.Err? ==> r.error == SelectHeuristic(selector).error
    ensures r.Ok? ==>
      && Traced(SelectHeuristic(selector).value, StartNode(SelectHeuristic(selector).value, initial), trace, picks)
      && forall i :: 0 <= i < |trace| - 1 ==> Goal !in trace[i].explored
    ensures r.Ok? ==>
      && r.value.nodesExpanded == |trace[|trace| - 1].explored| == |trace[|trace| - 1].arena|
      && initial in trace[|trace| - 1].explored
      && forall x :: x in trace[|trace| - 1].explored ==> Reachable(initial, x)
    ensures r.Ok? && r.value.path.Some? ==>
      && var last := trace[|trace| - 1];
      && Goal in last.explored && |last.arena| > 0 && last.arena[|last.arena| - 1].state == Goal
      && r.value.cost == |r.value.path.value| == last.arena[|last.arena| - 1].depth
      && Run(initial, r.value.path.value) == Some(Goal)
    ensures r.Ok? && r.value.path.None? ==>
      && var last := trace[|trace| - 1];
      && r.value.cost == -1 && last.frontier == []
      && Goal !in last.explored && Closed(last.explored, [])
      && forall path :: Run(initial, path) != Some(Goal)
    ensures r.Ok? && initial == Goal ==> r.value == Outcome(Some([]), 0, 1)
  {
    var selection := SelectHeuristic(selector);
    if selection.Err? {
      return Err(selection.error), [], [];
    }
    var out;
    out, trace, picks := BestFirst(initial, selection.value);
    return Ok(out), trace, picks;
  }
}
