# Maze A* search and Nim game-tree nodes, modelled in Dafny

This project models two classroom search components as they are written.

**Pathfinder** (`pathfinder.dfy`, module `Pathfinder`) is an informed tree search over a grid maze.
`SearchTreeNode` is a class. It holds a maze cell, the action label that led to it, a link to its parent, the path cost so far (`historyScore`), a heuristic (`manhattanScore`) and a priority (`fScore`).
`Solve` keeps a frontier of nodes. It repeatedly takes a node of least `fScore`. When the node is a goal that `testSolution` accepts, it returns the retraced action list. Otherwise it pushes one child per transition.
`Retrace` walks the parent links and prepends each action.
The maze collaborator is a value of type `MazeProblem`. Its fields are the initial state, the goal and key states, the `visitedKey` flag, and the functions `isGoal`, `getTransitions`, `getCost` and `testSolution`.
Each node carries a ghost `path`: the labels from the root down to it. `Valid()` ties `path` to the parent chain.
`Walk` and `PathCost` give a path its meaning: the cell it reaches through `getTransitions` and the sum of `getCost` along it.
Solve keeps every frontier node `Sound`. Its path walks from the start to its cell, and its `historyScore` and `fScore` are that path's cost.

The model keeps these behaviours of the code:
- `fScore` is fixed in the constructor while `manhattanScore` is still 0. So `fScore == historyScore`, and the later heuristic writes never change the queue order.
- `manhattan` takes the column difference against the goal's row. It is therefore the true distance to the cell `(goal.row, goal.row)`.
- In the key-visited branch the minimum starts at 0 and only a smaller value replaces it. Manhattan values are never negative, so the score is always 0.

**Nim** (`nim.dfy`, module `Nim`) models `GameTreeNode` and the parts of `NimPlayer` that have a definite meaning as written.
`GameTreeNode` is a class. Its constructor, `equals`, `hashCode`, `getActions` and `isGoal` are modelled.
A `HashMap` keyed by nodes finds an entry exactly when it holds an `equals`-equal node. So the memo bank is a `map<NodeKey, int>`, where `NodeKey` is the triple that `equals` compares.
From `alphaBetaMinimax` the model keeps two parts: the goal branch (`ScoreGoal`) and one child-construction step (`ExpandOne`). From `choose` it keeps the root it builds (`ChooseRoot`).
Expansion passes a `getActions` entry's key and value to the constructor in that order. A child's `remaining` is therefore the number of stones removed, and its `action` is the number left.

Where the code's own documentation promises more than the code does, the model follows the code:
- `Pathfinder` calls itself an A* search (Homework/1/Pathfinder.java:6 and :45), but the queue priority ignores the heuristic, so the search is ordered by path cost alone.
- `alphaBetaMinimax` is documented to return a minimax score (Homework/2/NimPlayer.java:51). Only its goal branch and one child-construction step have a definite meaning as written, so only those are modelled.
- `choose` is documented to return an action in `[1, MAX_REMOVAL]` (Homework/2/NimPlayer.java:25-26), but it always throws, so the model keeps only the root it builds.

## Model

| member | source | states |
|---|---|---|
| `Pathfinder.SearchTreeNode.constructor` | Homework/1/Pathfinder.java:164-173 | a root has historyScore 0; a child has the parent's historyScore plus costOfMove; manhattanScore is 0 and fScore equals historyScore; the node is Valid and extends the parent's path by its action |
| `Pathfinder.SearchTreeNode.CompareTo` | Homework/1/Pathfinder.java:175-177 | the sign of compareTo is the order of the two fScores |
| `Pathfinder.CompareToAntisymmetric` | Homework/1/Pathfinder.java:175-177 | a.compareTo(b) is the negation of b.compareTo(a), and a node compares equal to itself |
| `Pathfinder.AncestryLabels` | Homework/1/Pathfinder.java:127-139 | a node's path has one entry per parent link; entry i is the action of the (i+1)-th node of the chain from the root; the chain starts at a node without a parent |
| `Pathfinder.Retrace` | Homework/1/Pathfinder.java:127-139 | returns the action labels of the non-root nodes of the parent chain, in root-to-end order, as many as there are parent links; empty for a root |
| `Pathfinder.Manhattan` | Homework/1/Pathfinder.java:111-117 | the heuristic is never negative |
| `Pathfinder.ManhattanTargetsDiagonalCell` | Homework/1/Pathfinder.java:113-116 | manhattan equals the grid distance to the cell (goal.row, goal.row); it is the distance to the goal only when the goal's row and column agree |
| `Pathfinder.ManhattanZeroAwayFromGoal` | Homework/1/Pathfinder.java:113-116 | for a goal off the diagonal, manhattan is 0 at the cell (goal.row, goal.row), which is a positive distance from the goal |
| `Pathfinder.KeyVisitedScore` | Homework/1/Pathfinder.java:85-92 | the minimum that starts at 0 ends at 0, and it is at most the manhattan value of every goal |
| `Pathfinder.MinIndex` | Homework/1/Pathfinder.java:65-67 | the node taken from a non-empty frontier has the least fScore of all frontier nodes |
| `Pathfinder.Expand` | Homework/1/Pathfinder.java:78-97 | exactly one fresh child per transition entry; each child has curr as parent, the entry's state and label, historyScore = curr.historyScore + getCost(state), fScore = historyScore, and the heuristic of its branch as manhattanScore |
| `Pathfinder.ChildSound` | Homework/1/Pathfinder.java:164-170 | a child of a sound node is sound: its path walks from the start to its cell through getTransitions, and its historyScore is the sum of move costs along that path |
| `Pathfinder.Solve` | Homework/1/Pathfinder.java:58-100 | a returned action list leads from the initial state through getTransitions to a goal cell, and testSolution accepts it; null is returned only when no action list at all is accepted, since every accepted list stays covered by a frontier node until the frontier empties; an accepted start yields the empty list; a start that is not accepted and has no transitions yields null |
| `Nim.GameTreeNode.constructor` | Homework/2/NimPlayer.java:144-150 | a new node has the given remaining, action and isMax, no children and score -1 |
| `Nim.GameTreeNode.GetActions` | Homework/2/NimPlayer.java:166-174 | the keys are exactly 1 .. min(max, remaining) and each key k maps to remaining - k |
| `Nim.MovesKeys` | Homework/2/NimPlayer.java:166-174 | the getActions keys are exactly 1 .. min(max, remaining); the map is empty iff remaining < 1 or max < 1 |
| `Nim.MovesValues` | Homework/2/NimPlayer.java:169-171 | every getActions entry maps k to remaining - k, a value in [0, remaining - 1] |
| `Nim.EqualsIsEquivalence` | Homework/2/NimPlayer.java:152-159 | equals, which compares remaining, isMax and action, is reflexive, symmetric and transitive, and false for null |
| `Nim.HashCodeConsistent` | Homework/2/NimPlayer.java:161-164 | hashCode, remaining plus one for a max node, agrees with equals: equal nodes have equal hash codes |
| `Nim.ActionSplitsIdentity` | Homework/2/NimPlayer.java:152-164 | nodes that differ only in action hash alike but are not equal, so they are separate memo entries |
| `Nim.IsGoalRespectsEquals` | Homework/2/NimPlayer.java:176-178 | isGoal gives the same answer for equal nodes |
| `Nim.ContainsKeyIsEqualsLookup` | Homework/2/NimPlayer.java:176-178 | with the memo bank keyed by the stored nodes' keys, isGoal holds iff no stones remain or some stored node is equal to this one, as containsKey on a HashMap of nodes answers |
| `Nim.NimPlayer.constructor` | Homework/2/NimPlayer.java:17-19 | the player keeps the given maximum removal |
| `Nim.NimPlayer.ChooseRoot` | Homework/2/NimPlayer.java:28-29 | the root that choose builds has the given remaining, action 0, isMax true, no children and score -1 |
| `Nim.NimPlayer.ScoreGoal` | Homework/2/NimPlayer.java:63-74 | on a goal node the result is stored in curr.score; with no stones left it is 1 when the isMax argument is true and 0 otherwise; else it is the memo bank's stored value |
| `Nim.NimPlayer.ExpandOne` | Homework/2/NimPlayer.java:77-82 | the constructor gets the getActions entry's key and value in that order, so the child has remaining = k (the stones removed), action = curr.remaining - k (the stones left) and isMax = !curr.isMax; 1 <= k <= min(maxRemoval, curr.remaining), so no expanded child has an empty pile; it is pushed on the frontier and appended to curr.children exactly when no equal node is in the memo bank |

## Left out

- Solve: does not claim A* optimality or completeness; the code is a tree search without a closed set, and its heuristic does not reach the queue order.
- Solve: takes a `fuel` bound on the number of nodes it removes and returns `OutOfFuel` when the bound is reached, because the Java loop need not terminate.
- Solve: requires `testSolution` to return a non-empty array, because the Java code reads element 0 without a check.
- The `System.out.println` of the path cost (Homework/1/Pathfinder.java:73) is console output and is not modelled.
- MinIndex: picks the first node of least fScore. Its contract allows any such node, as `java.util.PriorityQueue` does not fix the order among ties.
- Integer overflow is not modelled: the subtraction in compareTo, the sum in historyScore, `Math.abs` and the sum in manhattan, the sum in hashCode and the loop counter in getActions all use unbounded integers. In Java, manhattan can wrap to a negative value, so the facts that it is never negative and that the key-visited score is 0 hold only without overflow.
- HashMap iteration order in `getTransitions` and `getActions` is not modelled. The expansion loop picks the remaining keys in an arbitrary order, and `GOAL_STATE.values()` is a sequence in some order.
- `MazeProblem` and `MazeState` are not part of this model: there is no maze loading, no transition or cost table and no `testSolution` body. `visitedKey` is treated as constant during one search.
- SearchTreeNode: only `manhattanScore` is a mutable field. The Java code never reassigns the other fields after construction, so they are constants, and aliasing through writes to them is not modelled.
- `choose` after building its root is not modelled. It calls alphaBetaMinimax and then always throws `UnsupportedOperationException` (Homework/2/NimPlayer.java:33-40), so its documented result range is never produced.
- The rest of `alphaBetaMinimax` is not modelled: the recursive calls, the alpha and beta updates, `Stack.remove(0)` and the returns. Alpha and beta are passed swapped, a return follows each `if … break` unconditionally, and `visited` is never written. So the loop has no minimax meaning to state.
- ExpandOne: models one child-construction step; the Java loop stops after the first admitted child anyway, through its break or its return.
- No claim is made that the search agrees with the `remaining % (max + 1)` rule of Nim.
