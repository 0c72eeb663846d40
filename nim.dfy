/** The Nim game-tree node and the pieces of alpha-beta search that have a
    definite meaning as written (Homework/2/NimPlayer.java). */
module Nim {

  /** The fields GameTreeNode.equals compares. A HashMap keyed by nodes finds an
      entry exactly when a node with the same key is stored, so the memo bank
      is modelled as a map over keys. */
  datatype NodeKey = NodeKey(remaining: int, isMax: bool, action: int)

  /** A node of the Nim game tree. remaining, action and isMax are set once in
      the constructor; score and children are written during search. */
  class GameTreeNode {
    const remaining: int
    const action: int
    const isMax: bool
    var score: int
    var children: seq<GameTreeNode>

    constructor (remaining: int, action: int, isMax: bool)
      ensures this.remaining == remaining && this.action == action && this.isMax == isMax
      ensures children == [] && score == -1
    {
      this.remaining := remaining;
      this.action := action;
      this.isMax := isMax;
      children := [];
      score := -1;
    }

    function Key(): NodeKey
    {
      NodeKey(remaining, isMax, action)
    }

    /** equals: a non-null node with the same remaining, isMax and action. */
    function Equals(other: GameTreeNode?): (r: bool)
    {
      if other != null then
        remaining == other.remaining && isMax == other.isMax && action == other.action
      else
        false
    }

    /** hashCode: remaining plus one for a max node. */
    function HashCode(): (h: int)
    {
      remaining + if isMax then 1 else 0
    }

    /** isGoal: no stones are left, or the memo bank holds an equal node. */
    function IsGoal(visited: map<NodeKey, int>): (r: bool)
    {
      remaining == 0 || Key() in visited
    }

    /** getActions: stones removed mapped to stones left, for 1 up to max and
        not beyond the stones remaining. */
    method GetActions(max: int) returns (possActions: map<int, int>)
      ensures possActions == Moves(remaining, max)
      ensures forall k :: k in possActions <==> 1 <= k <= max && k <= remaining
      ensures forall k :: k in possActions ==> possActions[k] == remaining - k
    {
      var r := remaining;
      possActions := map[];
      var stoneRemoval := 1;
      while stoneRemoval <= max && stoneRemoval <= r
        invariant 1 <= stoneRemoval
        invariant stoneRemoval == 1 || (stoneRemoval - 1 <= max && stoneRemoval - 1 <= r)
        invariant forall k :: k in possActions <==> 1 <= k < stoneRemoval
        invariant forall k :: k in possActions ==> possActions[k] == r - k
        decreases r - stoneRemoval
      {
        possActions := possActions[stoneRemoval := r - stoneRemoval];
        stoneRemoval := stoneRemoval + 1;
      }
      MovesKeys(r, max);
      assert forall k :: k in possActions <==> k in Moves(r, max);
      assert possActions.Keys == Moves(r, max).Keys;
    }
  }

  /** What getActions(max) returns for a node with `remaining` stones. */
  ghost function Moves(remaining: int, max: int): map<int, int>
  {
    map k | k in Removable(remaining, max) :: remaining - k
  }

  /** The numbers of stones a move may take. */
  ghost function Removable(remaining: int, max: int): set<int>
  {
    UpTo(if max < remaining then max else remaining)
  }

  /** The integers 1 .. n. */
  ghost function UpTo(n: int): set<int>
    decreases n
  {
    if n < 1 then {} else UpTo(n - 1) + {n}
  }

  lemma {:induction false} UpToMembers(n: int)
    ensures forall k :: k in UpTo(n) <==> 1 <= k <= n
    decreases n
  {
    if n >= 1 {
      UpToMembers(n - 1);
    }
  }

  /** The keys of getActions are 1 .. min(max, remaining); there are none
      exactly when no stones are left or max is below 1. */
  lemma MovesKeys(remaining: int, max: int)
    ensures forall k :: k in Moves(remaining, max) <==> 1 <= k <= max && k <= remaining
    ensures Moves(remaining, max) == map[] <==> remaining < 1 || max < 1
  {
    UpToMembers(if max < remaining then max else remaining);
    if remaining >= 1 && max >= 1 {
      assert 1 in Moves(remaining, max);
    }
  }

  /** Every entry of getActions leaves between 0 and remaining - 1 stones. */
  lemma MovesValues(remaining: int, max: int)
    ensures forall k :: k in Moves(remaining, max) ==> Moves(remaining, max)[k] == remaining - k
    ensures forall k :: k in Moves(remaining, max) ==> 0 <= Moves(remaining, max)[k] <= remaining - 1
  {
    MovesKeys(remaining, max);
  }

  /** equals is reflexive, symmetric and transitive. */
  lemma EqualsIsEquivalence(a: GameTreeNode, b: GameTreeNode, c: GameTreeNode)
    ensures a.Equals(a)
    ensures a.Equals(b) ==> b.Equals(a)
    ensures a.Equals(b) && b.Equals(c) ==> a.Equals(c)
    ensures !a.Equals(null)
  {
  }

  /** hashCode agrees with equals: equal nodes hash alike. */
  lemma HashCodeConsistent(a: GameTreeNode, b: GameTreeNode)
    requires a.Equals(b)
    ensures a.HashCode() == b.HashCode()
  {
  }

  /** hashCode ignores action, while equals does not: two nodes that differ
      only in action hash alike yet are different memo entries. */
  lemma ActionSplitsIdentity(a: GameTreeNode, b: GameTreeNode)
    requires a.remaining == b.remaining && a.isMax == b.isMax && a.action != b.action
    ensures a.HashCode() == b.HashCode() && !a.Equals(b)
  {
  }

  /** isGoal answers alike for equal nodes. */
  lemma IsGoalRespectsEquals(a: GameTreeNode, b: GameTreeNode, visited: map<NodeKey, int>)
    requires a.Equals(b)
    ensures a.IsGoal(visited) == b.IsGoal(visited)
  {
  }

  /** The memo bank as a map over keys answers containsKey as a HashMap holding
      the stored nodes does: isGoal holds iff no stones remain or some stored
      node equals this one. */
  lemma ContainsKeyIsEqualsLookup(stored: set<GameTreeNode>, bank: map<NodeKey, int>, x: GameTreeNode)
    requires bank.Keys == set n | n in stored :: n.Key()
    ensures x.IsGoal(bank) <==> x.remaining == 0 || exists n :: n in stored && x.Equals(n)
  {
    if x.Key() in bank {
      var n :| n in stored && n.Key() == x.Key();
      assert x.Equals(n);
    }
  }

  class NimPlayer {
    const maxRemoval: int

    constructor (maxRemoval: int)
      ensures this.maxRemoval == maxRemoval
    {
      this.maxRemoval := maxRemoval;
    }

    /** The root that choose builds before searching. */
    method ChooseRoot(remaining: int) returns (root: GameTreeNode)
      ensures fresh(root)
      ensures root.remaining == remaining && root.action == 0 && root.isMax
      ensures root.children == [] && root.score == -1
    {
      root := new GameTreeNode(remaining, 0, true);
    }

    /** The goal branch of alphaBetaMinimax: a memo hit copies the stored score,
        and an empty pile then overrides it with 1 or 0 by the isMax argument. */
    method ScoreGoal(curr: GameTreeNode, isMax: bool, visited: map<NodeKey, int>) returns (s: int)
      requires curr.IsGoal(visited)
      modifies curr
      ensures s == curr.score
      ensures curr.remaining == 0 ==> s == (if isMax then 1 else 0)
      ensures curr.remaining != 0 ==> s == visited[curr.Key()]
      ensures curr.children == old(curr.children)
    {
      if curr.Key() in visited {
        curr.score := visited[curr.Key()];
      }
      if curr.remaining == 0 {
        if isMax {
          curr.score := 1;
        } else {
          curr.score := 0;
        }
      }
      s := curr.score;
    }

    /** One child-construction step of alphaBetaMinimax: build the child for
        the getActions entry k and, unless the memo bank holds an equal node,
        push it on the frontier and add it to curr's children. */
    method ExpandOne(curr: GameTreeNode, moves: map<int, int>, k: int, visited: map<NodeKey, int>,
                     frontier: seq<GameTreeNode>)
      returns (temp: GameTreeNode, admitted: bool, frontier': seq<GameTreeNode>)
      requires moves == Moves(curr.remaining, maxRemoval) && k in moves
      modifies curr
      ensures fresh(temp)
      ensures temp.remaining == k && temp.action == curr.remaining - k && temp.isMax == !curr.isMax
      ensures 1 <= temp.remaining <= maxRemoval && temp.remaining <= curr.remaining
      ensures temp.children == [] && temp.score == -1
      ensures admitted <==> temp.Key() !in visited
      ensures frontier' == if admitted then frontier + [temp] else frontier
      ensures curr.children == if admitted then old(curr.children) + [temp] else old(curr.children)
      ensures curr.score == old(curr.score)
    {
      MovesKeys(curr.remaining, maxRemoval);
      temp := new GameTreeNode(k, moves[k], !curr.isMax);
      admitted := temp.Key() !in visited;
      frontier' := frontier;
      if admitted {
        frontier' := frontier' + [temp];
        curr.children := curr.children + [temp];
      }
    }
  }
}
