/** An informed A* tree search over a grid maze (Homework/1/Pathfinder.java).
    The maze itself (MazeProblem, MazeState) is a collaborator whose code is not
    part of this model: it enters as a value of function-typed fields. */
module Pathfinder {

  datatype Option<+T> = None | Some(value: T)

  /** A maze cell. */
  datatype MazeState = MazeState(row: int, col: int)

  /** An action label as the search stores it; None stands for Java's null,
      which only the root node carries. */
  type Label = Option<string>

  /** The capabilities of a maze problem that the search uses.
      goalStates lists GOAL_STATE.values() in iteration order. */
  datatype MazeProblem = MazeProblem(
    initialState: MazeState,
    goalStates: seq<MazeState>,
    keyState: MazeState,
    visitedKey: bool,
    isGoal: MazeState -> bool,
    getTransitions: MazeState -> map<string, MazeState>,
    getCost: MazeState -> int,
    testSolution: seq<Label> -> seq<int>)

  /** What solve returns: a list of actions, null (the frontier emptied), or,
      since a tree search need not stop, the step budget ran out. */
  datatype SolveResult = Solution(steps: seq<Label>) | NoSolution | OutOfFuel

  function Abs(x: int): (r: nat)
    ensures r == x || r == -x
  {
    if x < 0 then -x else x
  }

  /** The grid (Manhattan) distance between two cells. */
  function Distance(a: MazeState, b: MazeState): nat
  {
    Abs(a.row - b.row) + Abs(a.col - b.col)
  }

  /** A node of the search tree. Every field except manhattanScore is set once,
      in the constructor, and never written again, so those are constants. */
  class SearchTreeNode {
    const state: MazeState
    const action: Label
    const parent: SearchTreeNode?
    const historyScore: int
    var manhattanScore: int
    const fScore: int

    /** The labels of the non-root nodes from the root down to this node. */
    ghost const path: seq<Label>

    /** The parent chain ends at a root, and path lists its labels. */
    ghost predicate Valid()
      decreases |path|
    {
      if parent == null then path == []
      else path == parent.path + [action] && parent.Valid()
    }

    constructor (state: MazeState, action: Label, parent: SearchTreeNode?, costOfMove: int)
      requires parent != null ==> parent.Valid()
      ensures Valid()
      ensures this.state == state && this.action == action && this.parent == parent
      ensures parent == null ==> historyScore == 0 && path == []
      ensures parent != null ==> historyScore == parent.historyScore + costOfMove
      ensures parent != null ==> path == parent.path + [action]
      ensures manhattanScore == 0 && fScore == historyScore
    {
      var history := if parent != null then parent.historyScore + costOfMove else 0;
      this.state := state;
      this.action := action;
      this.parent := parent;
      this.historyScore := history;
      this.manhattanScore := 0;
      this.fScore := history + 0;
      this.path := if parent == null then [] else parent.path + [action];
    }

    /** The Comparable ordering: by fScore alone. */
    function CompareTo(a: SearchTreeNode): (r: int)
      ensures r < 0 <==> fScore < a.fScore
      ensures r == 0 <==> fScore == a.fScore
      ensures r > 0 <==> fScore > a.fScore
    {
      fScore - a.fScore
    }
  }

  /** compareTo is antisymmetric, as Comparable asks. */
  lemma CompareToAntisymmetric(a: SearchTreeNode, b: SearchTreeNode)
    ensures a.CompareTo(b) == -b.CompareTo(a)
    ensures a.CompareTo(a) == 0
  {
  }

  /** The nodes of the parent chain, from the root down to n. */
  ghost function Ancestry(n: SearchTreeNode): (chain: seq<SearchTreeNode>)
    requires n.Valid()
    decreases |n.path|
  {
    if n.parent == null then [n] else Ancestry(n.parent) + [n]
  }

  /** path is exactly the action labels of the non-root nodes of the chain, in
      root-to-node order, and has one entry per parent link. */
  lemma {:induction false} AncestryLabels(n: SearchTreeNode)
    requires n.Valid()
    ensures |Ancestry(n)| == |n.path| + 1
    ensures Ancestry(n)[0].parent == null && Ancestry(n)[|n.path|] == n
    ensures forall i :: 0 < i <= |n.path| ==> Ancestry(n)[i].parent == Ancestry(n)[i - 1]
    ensures forall i :: 0 <= i < |n.path| ==> n.path[i] == Ancestry(n)[i + 1].action
    decreases |n.path|
  {
    if n.parent != null {
      AncestryLabels(n.parent);
    }
  }

  /** retrace: walk the parent links from end, prepending each action. */
  method Retrace(end: SearchTreeNode) returns (steps: seq<Label>)
    requires end.Valid()
    ensures steps == end.path
    ensures |steps| + 1 == |Ancestry(end)|
    ensures forall i :: 0 <= i < |steps| ==> steps[i] == Ancestry(end)[i + 1].action
    ensures end.parent == null ==> steps == []
  {
    steps := [];
    var curr: SearchTreeNode := end;
    while curr.parent != null
      invariant curr.Valid()
      invariant curr.path + steps == end.path
      decreases |curr.path|
    {
      steps := [curr.action] + steps;
      curr := curr.parent;
    }
    AncestryLabels(end);
  }

  /** The state reached from the initial state by following steps through
      getTransitions, or None when some step is not a transition. */
  function Walk(problem: MazeProblem, steps: seq<Label>): Option<MazeState>
    decreases |steps|
  {
    if steps == [] then Some(problem.initialState)
    else
      match Walk(problem, steps[..|steps| - 1])
      case None => None
      case Some(s) =>
        var a := steps[|steps| - 1];
        if a.Some? && a.value in problem.getTransitions(s)
        then Some(problem.getTransitions(s)[a.value])
        else None
  }

  /** The sum of getCost over the states entered along steps. */
  function PathCost(problem: MazeProblem, steps: seq<Label>): int
    requires Walk(problem, steps).Some?
    decreases |steps|
  {
    if steps == [] then 0
    else PathCost(problem, steps[..|steps| - 1]) + problem.getCost(Walk(problem, steps).value)
  }

  /** manhattan, as written: the column difference is taken against the goal's row. */
  function Manhattan(curr: SearchTreeNode, currentGoal: MazeState): (r: int)
    ensures r >= 0
  {
    var dx := Abs(curr.state.row - currentGoal.row);
    var dy := Abs(curr.state.col - currentGoal.row);
    dx + dy
  }

  /** manhattan measures the distance to the cell (goal.row, goal.row), which is
      the goal itself only when the goal lies on the diagonal. */
  lemma ManhattanTargetsDiagonalCell(curr: SearchTreeNode, goal: MazeState)
    ensures Manhattan(curr, goal) == Distance(curr.state, MazeState(goal.row, goal.row))
    ensures goal.row == goal.col ==> Manhattan(curr, goal) == Distance(curr.state, goal)
  {
  }

  /** Off the diagonal, manhattan is 0 at a cell that is not the goal. */
  lemma ManhattanZeroAwayFromGoal(curr: SearchTreeNode, goal: MazeState)
    requires curr.state == MazeState(goal.row, goal.row) && goal.row != goal.col
    ensures Manhattan(curr, goal) == 0 && Distance(curr.state, goal) > 0
  {
  }

  /** The heuristic loop of the key-visited branch: the minimum starts at 0 and is
      replaced only by a strictly smaller manhattan value, which never exists. */
  method KeyVisitedScore(temp: SearchTreeNode, goals: seq<MazeState>) returns (minManhattanScore: int)
    ensures minManhattanScore == 0
    ensures forall g :: g in goals ==> minManhattanScore <= Manhattan(temp, g)
  {
    minManhattanScore := 0;
    for i := 0 to |goals|
      invariant minManhattanScore == 0
    {
      var score := Manhattan(temp, goals[i]);
      if score < minManhattanScore {
        minManhattanScore := score;
      }
    }
  }

  /** The manhattanScore an expanded child is given. */
  function Heuristic(problem: MazeProblem, n: SearchTreeNode): int
  {
    if problem.visitedKey then 0 else Manhattan(n, problem.keyState)
  }

  /** frontier.remove(): the position of a node of least fScore under compareTo.
      Which of several minimal nodes is taken is left open by the contract. */
  method MinIndex(frontier: seq<SearchTreeNode>) returns (i: nat)
    requires frontier != []
    ensures i < |frontier|
    ensures forall j :: 0 <= j < |frontier| ==> frontier[i].fScore <= frontier[j].fScore
  {
    i := 0;
    for j := 1 to |frontier|
      invariant i < j
      invariant forall k :: 0 <= k < j ==> frontier[i].fScore <= frontier[k].fScore
    {
      if frontier[j].CompareTo(frontier[i]) < 0 {
        i := j;
      }
    }
  }

  /** c is the child that expansion builds for one transition of curr. */
  ghost predicate IsChild(problem: MazeProblem, curr: SearchTreeNode, c: SearchTreeNode)
    reads c
  {
    var moves := problem.getTransitions(curr.state);
    && c.Valid()
    && c.parent == curr
    && c.action.Some? && c.action.value in moves
    && c.state == moves[c.action.value]
    && c.historyScore == curr.historyScore + problem.getCost(c.state)
    && c.fScore == c.historyScore
    && c.manhattanScore == Heuristic(problem, c)
  }

  /** The body of solve's for loop: one child per entry of getTransitions. */
  method Expand(problem: MazeProblem, curr: SearchTreeNode) returns (children: seq<SearchTreeNode>)
    requires curr.Valid()
    ensures |children| == |problem.getTransitions(curr.state)|
    ensures forall c :: c in children ==> fresh(c) && IsChild(problem, curr, c)
    ensures forall i, j :: 0 <= i < j < |children| ==> children[i].action != children[j].action
    ensures forall k :: k in problem.getTransitions(curr.state) ==>
      exists c :: c in children && c.action == Some(k)
  {
    var moves := problem.getTransitions(curr.state);
    var todo := moves.Keys;
    children := [];
    while todo != {}
      invariant todo <= moves.Keys
      invariant |children| + |todo| == |moves|
      invariant forall c :: c in children ==> fresh(c) && IsChild(problem, curr, c) && c.action.value !in todo
      invariant forall i, j :: 0 <= i < j < |children| ==> children[i].action != children[j].action
      invariant forall k :: k in moves && k !in todo ==> exists c :: c in children && c.action == Some(k)
      decreases |todo|
    {
      var k :| k in todo;
      var costOfMove := problem.getCost(moves[k]);
      var temp := new SearchTreeNode(moves[k], Some(k), curr, costOfMove);
      if problem.visitedKey {
        var minManhattanScore := KeyVisitedScore(temp, problem.goalStates);
        temp.manhattanScore := minManhattanScore;
      } else {
        temp.manhattanScore := Manhattan(temp, problem.keyState);
      }
      children := children + [temp];
      todo := todo - {k};
    }
  }

  /** n's path follows transitions from the initial state to n.state, and its
      scores are the path's cost. */
  ghost predicate Sound(problem: MazeProblem, n: SearchTreeNode)
  {
    && n.Valid()
    && Walk(problem, n.path) == Some(n.state)
    && n.historyScore == PathCost(problem, n.path)
    && n.fScore == n.historyScore
  }

  ghost predicate AllSound(problem: MazeProblem, frontier: seq<SearchTreeNode>)
  {
    forall j :: 0 <= j < |frontier| ==> Sound(problem, frontier[j])
  }

  /** Expansion keeps every node sound: historyScore is the sum of move costs
      along the retraced path. */
  lemma ChildSound(problem: MazeProblem, curr: SearchTreeNode, c: SearchTreeNode)
    requires Sound(problem, curr) && IsChild(problem, curr, c)
    ensures Sound(problem, c)
  {
  }

  /** steps walk from the start to a goal cell and testSolution accepts them:
      the paths that make solve return. */
  ghost predicate Accepted(problem: MazeProblem, steps: seq<Label>)
  {
    && Walk(problem, steps).Some?
    && problem.isGoal(Walk(problem, steps).value)
    && |problem.testSolution(steps)| > 0
    && problem.testSolution(steps)[0] == 1
  }

  /** The start is not accepted and has no transitions. */
  ghost predicate DeadStart(problem: MazeProblem)
  {
    !Accepted(problem, []) && problem.getTransitions(problem.initialState) == map[]
  }

  /** Every prefix of a walk is a walk. */
  lemma {:induction false} WalkPrefix(problem: MazeProblem, steps: seq<Label>, n: nat)
    requires n <= |steps| && Walk(problem, steps).Some?
    ensures Walk(problem, steps[..n]).Some?
    decreases |steps| - n
  {
    if n < |steps| {
      WalkPrefix(problem, steps, n + 1);
      assert steps[..n + 1][..n] == steps[..n];
    } else {
      assert steps[..n] == steps;
    }
  }

  /** Node n lies on steps: its path is a prefix of steps. */
  ghost predicate Covers(n: SearchTreeNode, steps: seq<Label>)
  {
    |n.path| <= |steps| && steps[..|n.path|] == n.path
  }

  /** Some frontier node lies on steps. */
  ghost predicate Covered(frontier: seq<SearchTreeNode>, steps: seq<Label>)
  {
    exists j :: 0 <= j < |frontier| && Covers(frontier[j], steps)
  }

  /** A node that covers steps and is as long as steps reached them. */
  lemma CoverAsLongIsEqual(problem: MazeProblem, curr: SearchTreeNode, steps: seq<Label>)
    requires Covers(curr, steps)
    ensures |curr.path| == |steps| ==> curr.path == steps
  {
    if |curr.path| == |steps| {
      assert steps[..|steps|] == steps;
    }
  }

  /** A covering node that is not an accepted goal has a child that covers. */
  lemma ChildCovers(problem: MazeProblem, curr: SearchTreeNode, children: seq<SearchTreeNode>,
                    steps: seq<Label>)
    requires Sound(problem, curr) && Covers(curr, steps)
    requires Accepted(problem, steps) && !Accepted(problem, curr.path)
    requires forall c :: c in children ==> IsChild(problem, curr, c)
    requires forall k :: k in problem.getTransitions(curr.state) ==>
      exists c :: c in children && c.action == Some(k)
    ensures exists idx :: 0 <= idx < |children| && Covers(children[idx], steps)
  {
    var n := |curr.path|;
    CoverAsLongIsEqual(problem, curr, steps);
    assert n < |steps|;
    WalkPrefix(problem, steps, n + 1);
    assert steps[..n + 1][..n] == curr.path;
    var a := steps[n];
    assert a.Some? && a.value in problem.getTransitions(curr.state);
    var c :| c in children && c.action == Some(a.value);
    assert c.path == steps[..n + 1];
    var idx :| 0 <= idx < |children| && children[idx] == c;
    assert Covers(children[idx], steps);
  }

  /** Removing a node that is not an accepted goal and pushing its children
      keeps every accepted path covered by some frontier node. */
  lemma CoverAfterExpand(problem: MazeProblem, before: seq<SearchTreeNode>, i: nat,
                         children: seq<SearchTreeNode>, steps: seq<Label>)
    requires i < |before| && Sound(problem, before[i])
    requires Accepted(problem, steps) && Covered(before, steps)
    requires !Accepted(problem, before[i].path)
    requires forall c :: c in children ==> IsChild(problem, before[i], c)
    requires forall k :: k in problem.getTransitions(before[i].state) ==>
      exists c :: c in children && c.action == Some(k)
    ensures Covered(before[..i] + before[i + 1..] + children, steps)
  {
    var after := before[..i] + before[i + 1..] + children;
    var j :| 0 <= j < |before| && Covers(before[j], steps);
    if j < i {
      assert after[j] == before[j];
    } else if j > i {
      assert after[j - 1] == before[j];
    } else {
      ChildCovers(problem, before[i], children, steps);
      var idx :| 0 <= idx < |children| && Covers(children[idx], steps);
      assert after[|before| - 1 + idx] == children[idx];
    }
  }

  /** One round of solve keeps the frontier sound and every accepted path
      covered, when the removed node was not an accepted goal. */
  lemma RoundPreserves(problem: MazeProblem, before: seq<SearchTreeNode>, i: nat,
                       children: seq<SearchTreeNode>)
    requires i < |before|
    requires AllSound(problem, before)
    requires forall steps :: Accepted(problem, steps) ==> Covered(before, steps)
    requires !Accepted(problem, before[i].path)
    requires forall c :: c in children ==> IsChild(problem, before[i], c)
    requires forall k :: k in problem.getTransitions(before[i].state) ==>
      exists c :: c in children && c.action == Some(k)
    ensures AllSound(problem, before[..i] + before[i + 1..] + children)
    ensures forall steps :: Accepted(problem, steps) ==>
      Covered(before[..i] + before[i + 1..] + children, steps)
  {
    var after := before[..i] + before[i + 1..] + children;
    forall j | 0 <= j < |after|
      ensures Sound(problem, after[j])
    {
      if j < i {
        assert after[j] == before[j];
      } else if j < |before| - 1 {
        assert after[j] == before[j + 1];
      } else {
        assert after[j] in children;
        ChildSound(problem, before[i], after[j]);
      }
    }
    forall steps | Accepted(problem, steps)
      ensures Covered(after, steps)
    {
      CoverAfterExpand(problem, before, i, children, steps);
    }
  }

  /** solve: A* tree search; at most fuel nodes are taken from the frontier. */
  method Solve(problem: MazeProblem, fuel: nat) returns (result: SolveResult)
    requires forall steps :: |problem.testSolution(steps)| > 0
    ensures result.Solution? ==> Accepted(problem, result.steps)
    ensures result == NoSolution ==> forall steps :: !Accepted(problem, steps)
    ensures fuel == 0 ==> result == OutOfFuel
    ensures fuel > 0 && Accepted(problem, []) ==> result == Solution([])
    ensures fuel > 0 && DeadStart(problem) ==> result == NoSolution
  {
    var root := new SearchTreeNode(problem.initialState, None, null, 0);
    var frontier := [root];
    var budget: nat := fuel;
    forall steps | Accepted(problem, steps)
      ensures Covered(frontier, steps)
    {
      assert Covers(frontier[0], steps);
    }
    while frontier != []
      invariant AllSound(problem, frontier)
      invariant forall steps :: Accepted(problem, steps) ==> Covered(frontier, steps)
      invariant budget <= fuel
      invariant budget == fuel ==> frontier == [root]
      invariant fuel > 0 && Accepted(problem, []) ==> budget == fuel
      invariant DeadStart(problem) && budget < fuel ==> frontier == []
      decreases budget
    {
      if budget == 0 {
        return OutOfFuel;
      }
      budget := budget - 1;
      ghost var before := frontier;
      var i := MinIndex(frontier);
      var curr := frontier[i];
      frontier := frontier[..i] + frontier[i + 1..];

      if problem.isGoal(curr.state) {
        var sol := Retrace(curr);
        var test := problem.testSolution(sol);
        if test[0] == 1 {
          return Solution(sol);
        }
      }
      assert !Accepted(problem, curr.path);

      var children := Expand(problem, curr);
      RoundPreserves(problem, before, i, children);
      frontier := frontier + children;
    }
    return NoSolution;
  }
}
