// The nodes of the A* search over a grid: opencog/spatial/LSMap2DSearchNode.cc.
module SearchNodes {
  import opened Basics
  import opened GridMaps

  /** Unsigned arithmetic wraps around. */
  function Plus(x: unsigned, d: int): unsigned {
    (x + d) % 0x1_0000_0000
  }

  datatype Heuristic = MANHATTAN | DIAGONAL

  /** The value used for the square root of 2. */
  const SQRT2: real := 1.41421356

  datatype Node = Node(x: unsigned, y: unsigned) {
    predicate IsLegal(m: LocalSpaceMap2D) {
      !m.GridIllegal((x, y))
    }

    function Moved(dx: int, dy: int): Node {
      Node(Plus(x, dx), Plus(y, dy))
    }

    function GoalDistanceEstimate(goal: Node, heuristic: Heuristic): real {
      var xd := Abs(x - goal.x) as real;
      var yd := Abs(y - goal.y) as real;
      match heuristic
      case MANHATTAN => xd + yd
      case DIAGONAL =>
        var h_diagonal := if xd < yd then xd else yd;
        var h_straight := xd + yd;
        SQRT2 * h_diagonal + (h_straight - 2.0 * h_diagonal)
    }

    function GetCost(successor: Node): real {
      if x == successor.x || y == successor.y then 1.0 else SQRT2
    }

    /** The moves of a king, for which no wrap-around is in sight. */
    predicate Neighbours(n: Node) {
      n != this && Abs(x - n.x) <= 1 && Abs(y - n.y) <= 1
    }
  }

  /** The node that stands for no parent is meant to be off the grid. */
  function ParentOf(m: LocalSpaceMap2D, parent: Option<Node>): Node {
    match parent
    case None => Node(Plus(m.xDim, 1), Plus(m.yDim, 1))
    case Some(n) => n
  }

  class AStarSearch {
    var successors: seq<Node>

    constructor ()
      ensures successors == []
    {
      successors := [];
    }

    method AddSuccessor(n: Node)
      modifies this
      ensures successors == old(successors) + [n]
    {
      successors := successors + [n];
    }

    /** Adds a move unless it is illegal or goes back to the parent. */
    method AddMove(m: LocalSpaceMap2D, n: Node, parent: Node)
      modifies this
      ensures successors == old(successors) + Kept(m, n, parent)
    {
      if n.IsLegal(m) && n != parent {
        AddSuccessor(n);
      }
    }

    method GetSuccessors(m: LocalSpaceMap2D, n: Node, parent_node: Option<Node>)
      modifies this
      ensures successors == old(successors) + Successors(m, n, ParentOf(m, parent_node))
    {
      hide Node.Moved;
      hide Kept;
      hide ParentOf;
      var parent := ParentOf(m, parent_node);
      AddMove(m, n.Moved(-1, 0), parent);
      AddMove(m, n.Moved(0, -1), parent);
      AddMove(m, n.Moved(1, 0), parent);
      AddMove(m, n.Moved(0, 1), parent);
      AddMove(m, n.Moved(1, 1), parent);
      AddMove(m, n.Moved(1, -1), parent);
      AddMove(m, n.Moved(-1, 1), parent);
      AddMove(m, n.Moved(-1, -1), parent);
    }
  }

  /** A move as it is kept: not at all when it is illegal or goes back to the parent. */
  function Kept(m: LocalSpaceMap2D, n: Node, parent: Node): seq<Node> {
    if n.IsLegal(m) && n != parent then [n] else []
  }

  function Successors(m: LocalSpaceMap2D, n: Node, parent: Node): seq<Node> {
    Kept(m, n.Moved(-1, 0), parent) + Kept(m, n.Moved(0, -1), parent)
    + Kept(m, n.Moved(1, 0), parent) + Kept(m, n.Moved(0, 1), parent)
    + Kept(m, n.Moved(1, 1), parent) + Kept(m, n.Moved(1, -1), parent)
    + Kept(m, n.Moved(-1, 1), parent) + Kept(m, n.Moved(-1, -1), parent)
  }

  /** One of the eight moves, wrapped around where it leaves the range of the type. */
  predicate IsMove(n: Node, s: Node) {
    || s == n.Moved(-1, 0) || s == n.Moved(0, -1) || s == n.Moved(1, 0) || s == n.Moved(0, 1)
    || s == n.Moved(1, 1) || s == n.Moved(1, -1) || s == n.Moved(-1, 1) || s == n.Moved(-1, -1)
  }

  lemma SuccessorsAreMoves(m: LocalSpaceMap2D, n: Node, parent: Node, s: Node)
    ensures s in Successors(m, n, parent) <==> IsMove(n, s) && s.IsLegal(m) && s != parent
  {
    hide Node.IsLegal;
    hide Node.Moved;
  }

  /**
   * The successors of a node on the grid are its legal neighbours but for the parent; at the border nothing wraps
   * around.
   */
  lemma SuccessorsAreNeighbours(m: LocalSpaceMap2D, n: Node, parent: Node, s: Node)
    requires m.CoordinatesAreOnGrid((n.x, n.y))
    ensures s in Successors(m, n, parent) <==> n.Neighbours(s) && s.IsLegal(m) && s != parent
  {
    hide Successors;
    hide IsMove;
    SuccessorsAreMoves(m, n, parent, s);
    if s.IsLegal(m) {
      MovesAreNeighbours(m, n, s);
    }
  }

  lemma MovesAreNeighbours(m: LocalSpaceMap2D, n: Node, s: Node)
    requires m.CoordinatesAreOnGrid((n.x, n.y)) && m.CoordinatesAreOnGrid((s.x, s.y))
    ensures IsMove(n, s) <==> n.Neighbours(s)
  {
    PlusIsNear(n.x, s.x, m.xDim);
    PlusIsNear(n.y, s.y, m.yDim);
  }

  lemma PlusIsNear(x: unsigned, y: unsigned, dim: unsigned)
    requires x < dim && y < dim
    ensures y == Plus(x, 1) <==> y == x + 1
    ensures y == Plus(x, -1) <==> y == x - 1
    ensures Plus(x, 0) == x
  {
  }

  /** The marker for no parent is off the grid, but on a grid of the largest size in both directions. */
  lemma NoParentIsOffGrid(m: LocalSpaceMap2D)
    ensures (exists s: Node :: s == ParentOf(m, None) && m.CoordinatesAreOnGrid((s.x, s.y)))
       <==> m.xDim == 0xFFFF_FFFF && m.yDim == 0xFFFF_FFFF
  {
    var s := ParentOf(m, None);
    assert m.CoordinatesAreOnGrid((s.x, s.y)) <==> m.xDim == 0xFFFF_FFFF && m.yDim == 0xFFFF_FFFF;
  }

  /**
   * A legal neighbour that is lost without a parent: the cell at the origin, on a grid of the largest size both ways.
   */
  lemma NoParentLosesOrigin(m: LocalSpaceMap2D, n: Node, s: Node)
    requires m.CoordinatesAreOnGrid((n.x, n.y)) && n.Neighbours(s) && s.IsLegal(m)
    ensures s !in Successors(m, n, ParentOf(m, None))
      <==> s == Node(0, 0) && m.xDim == 0xFFFF_FFFF && m.yDim == 0xFFFF_FFFF
  {
    hide Successors;
    hide Node.Neighbours;
    SuccessorsAreNeighbours(m, n, ParentOf(m, None), s);
    NoParentMarker(m, s);
  }

  lemma NoParentMarker(m: LocalSpaceMap2D, s: Node)
    requires m.CoordinatesAreOnGrid((s.x, s.y))
    ensures s == ParentOf(m, None) <==> s == Node(0, 0) && m.xDim == 0xFFFF_FFFF && m.yDim == 0xFFFF_FFFF
  {
  }

  /** No node is listed twice. */
  lemma SuccessorsAreDistinct(m: LocalSpaceMap2D, n: Node, parent: Node, s: Node)
    ensures multiset(Successors(m, n, parent))[s] <= 1
  {
    hide Plus;
    hide Kept;
    MovesDiffer(n.x);
    MovesDiffer(n.y);
    KeptOnce(m, n.Moved(-1, 0), parent, s);
    KeptOnce(m, n.Moved(0, -1), parent, s);
    KeptOnce(m, n.Moved(1, 0), parent, s);
    KeptOnce(m, n.Moved(0, 1), parent, s);
    KeptOnce(m, n.Moved(1, 1), parent, s);
    KeptOnce(m, n.Moved(1, -1), parent, s);
    KeptOnce(m, n.Moved(-1, 1), parent, s);
    KeptOnce(m, n.Moved(-1, -1), parent, s);
  }

  lemma KeptOnce(m: LocalSpaceMap2D, n: Node, parent: Node, s: Node)
    ensures multiset(Kept(m, n, parent))[s] <= if n == s then 1 else 0
  {
  }

  lemma MovesDiffer(x: unsigned)
    ensures Plus(x, -1) != Plus(x, 0) && Plus(x, 0) != Plus(x, 1) && Plus(x, 1) != Plus(x, -1)
  {
  }

  // ---------------------------------------------------------------- the heuristics

  /** A move costs the distance between the two cells, up to the digits of the square root of 2. */
  lemma CostIsDistance(n: Node, s: Node)
    requires n.Neighbours(s)
    ensures var (dx, dy) := ((n.x - s.x) as real, (n.y - s.y) as real);
      dx * dx + dy * dy - 0.0000001 <= n.GetCost(s) * n.GetCost(s) <= dx * dx + dy * dy
    ensures n.GetCost(s) > 0.0
  {
    assert 1.9999999 <= SQRT2 * SQRT2 <= 2.0;
    assert n.x - s.x == 0 || n.x - s.x == 1 || n.x - s.x == -1;
    assert n.y - s.y == 0 || n.y - s.y == 1 || n.y - s.y == -1;
  }

  /** The diagonal heuristic is consistent. */
  lemma DiagonalIsConsistent(n: Node, s: Node, goal: Node)
    requires n.Neighbours(s)
    ensures n.GoalDistanceEstimate(goal, DIAGONAL) <= n.GetCost(s) + s.GoalDistanceEstimate(goal, DIAGONAL)
  {
  }

  /** A path of legal moves. */
  ghost predicate Path(m: LocalSpaceMap2D, path: seq<Node>) {
    path != [] && (|path| > 1 ==> path[0].Neighbours(path[1]) && path[1].IsLegal(m) && Path(m, path[1..]))
  }

  function PathCost(path: seq<Node>): real {
    if |path| < 2 then 0.0 else path[0].GetCost(path[1]) + PathCost(path[1..])
  }

  /** It never exceeds the cost of a path to the goal. */
  lemma {:induction false} DiagonalIsAdmissible(m: LocalSpaceMap2D, path: seq<Node>)
    requires Path(m, path)
    ensures path[0].GoalDistanceEstimate(path[|path| - 1], DIAGONAL) <= PathCost(path)
  {
    if |path| > 1 {
      DiagonalIsAdmissible(m, path[1..]);
      DiagonalIsConsistent(path[0], path[1], path[|path| - 1]);
    }
  }

  /**
   * The Manhattan heuristic, the one used when none is set, is consistent but for diagonal moves nearer to the goal
   * both ways.
   */
  lemma ManhattanIsConsistent(n: Node, s: Node, goal: Node)
    requires n.Neighbours(s)
    ensures n.GoalDistanceEstimate(goal, MANHATTAN) <= n.GetCost(s) + s.GoalDistanceEstimate(goal, MANHATTAN)
       <==> !(Abs(s.x - goal.x) < Abs(n.x - goal.x) && Abs(s.y - goal.y) < Abs(n.y - goal.y))
  {
  }

  /** One step nearer to the goal, both ways where both are left to go. */
  function Nearer(x: unsigned, goal: unsigned): unsigned {
    if x < goal then x + 1 else if x > goal then x - 1 else x
  }

  lemma StepIsExact(n: Node, goal: Node)
    requires n != goal
    ensures var s := Node(Nearer(n.x, goal.x), Nearer(n.y, goal.y));
      n.Neighbours(s) && n.GoalDistanceEstimate(goal, DIAGONAL) == n.GetCost(s) + s.GoalDistanceEstimate(goal, DIAGONAL)
  {
  }

  /** On a grid without obstacles some path costs no more than the diagonal heuristic says. */
  lemma {:induction false} DiagonalIsExact(n: Node, goal: Node, m: LocalSpaceMap2D) returns (path: seq<Node>)
    requires m.CoordinatesAreOnGrid((n.x, n.y)) && m.CoordinatesAreOnGrid((goal.x, goal.y))
    requires forall g: GridPoint :: m.CoordinatesAreOnGrid(g) ==> !m.GridIllegal(g)
    ensures Path(m, path) && path[0] == n && path[|path| - 1] == goal
    ensures PathCost(path) == n.GoalDistanceEstimate(goal, DIAGONAL)
    decreases Abs(n.x - goal.x) + Abs(n.y - goal.y)
  {
    if n == goal {
      path := [n];
    } else {
      hide Node.GoalDistanceEstimate;
      hide Node.GetCost;
      hide Node.Neighbours;
      var s := Node(Nearer(n.x, goal.x), Nearer(n.y, goal.y));
      StepIsExact(n, goal);
      var rest := DiagonalIsExact(s, goal, m);
      path := [n] + rest;
      assert path[1..] == rest;
      assert !m.GridIllegal((s.x, s.y));
    }
  }

  lemma ManhattanAgainstDiagonal(n: Node, goal: Node)
    ensures n.GoalDistanceEstimate(goal, DIAGONAL) <= n.GoalDistanceEstimate(goal, MANHATTAN)
    ensures n.GoalDistanceEstimate(goal, MANHATTAN) <= n.GoalDistanceEstimate(goal, DIAGONAL)
      <==> n.x == goal.x || n.y == goal.y
  {
  }

  /**
   * On a grid without obstacles the Manhattan estimate never exceeds the cost of a path just when node and goal are in
   * line.
   */
  lemma ManhattanIsAdmissible(n: Node, goal: Node, m: LocalSpaceMap2D)
    requires m.CoordinatesAreOnGrid((n.x, n.y)) && m.CoordinatesAreOnGrid((goal.x, goal.y))
    requires forall g: GridPoint :: m.CoordinatesAreOnGrid(g) ==> !m.GridIllegal(g)
    ensures (forall path :: Path(m, path) && path[0] == n && path[|path| - 1] == goal ==>
               n.GoalDistanceEstimate(goal, MANHATTAN) <= PathCost(path))
       <==> n.x == goal.x || n.y == goal.y
  {
    hide Node.GoalDistanceEstimate;
    ManhattanAgainstDiagonal(n, goal);
    if n.x == goal.x || n.y == goal.y {
      forall path | Path(m, path) && path[0] == n && path[|path| - 1] == goal
        ensures n.GoalDistanceEstimate(goal, MANHATTAN) <= PathCost(path)
      {
        DiagonalIsAdmissible(m, path);
      }
    } else {
      var path := DiagonalIsExact(n, goal, m);
    }
  }
}
