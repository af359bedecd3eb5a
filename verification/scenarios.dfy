/** Concrete grids on which the planner's choice can be computed by hand. */
module Scenarios {

  import opened Options
  import opened Positions
  import opened Persons
  import opened Grids
  import opened Planner

  /** A well-formed 3x3 grid whose middle column (x = 1) is a wall of
      obstacles and whose left column is free. */
  ghost predicate IsWall(g: Grid) {
    && Wf(g) && g.width == 3 && g.height == 3
    && forall y :: 0 <= y < 3 ==> g.cells[y][0] == Empty && g.cells[y][1] == Obstacle
  }

  /** The wall grid, built as a scenario file would build it: `grid_init`
      and then one `grid_set` per obstacle cell. */
  function WallGrid(): (g: Grid)
    ensures IsWall(g)
  {
    var g0 := Init(3, 3);
    var g1 := Set(g0, Pos(1, 0), KindObstacle).grid;
    var g2 := Set(g1, Pos(1, 1), KindObstacle).grid;
    Set(g2, Pos(1, 2), KindObstacle).grid
  }

  /** From (0, 1) behind the wall, offset `i` is a candidate only if it is
      offset 1 or 6, which lead to the free cells (0, 0) and (0, 2). */
  lemma WallCandidate(g: Grid, cur: Pos, i: nat)
    requires IsWall(g) && cur == Pos(0, 1)
    ensures i < NeighborCount && Candidate(g, cur, i) ==> i == 1 || i == 6
  {
    if i < NeighborCount && Candidate(g, cur, i) {
      var q := Step(cur, i);
      assert q.x != 1 by {
        assert 0 <= q.y < 3;
      }
    }
  }

  /** The two free neighbours of (0, 1), equally far from the goal (2, 1)
      and both farther from it than (0, 1) itself. */
  lemma WallSteps(cur: Pos, goal: Pos)
    requires cur == Pos(0, 1) && goal == Pos(2, 1)
    ensures Step(cur, 1) == Pos(0, 0) && Step(cur, 6) == Pos(0, 2)
    ensures SqDist(Step(cur, 1), goal) == SqDist(Step(cur, 6), goal) > SqDist(cur, goal)
  {
  }

  /** Both (0, 1) and (2, 1) lie on the 3x3 grid, so the planner does not
      stop early. */
  lemma WallNotAtRest(g: Grid, p: Person)
    requires IsWall(g)
    requires p.currentPos == Pos(0, 1) && p.goalPos == Pos(2, 1)
    ensures !AtRest(g, p)
  {
  }

  /** Offsets 1 and 6 from (0, 1) are candidates. */
  lemma WallFreeNeighbours(g: Grid, cur: Pos)
    requires IsWall(g) && Step(cur, 1) == Pos(0, 0) && Step(cur, 6) == Pos(0, 2)
    ensures Candidate(g, cur, 1) && Candidate(g, cur, 6)
  {
  }

  /** No other offset from (0, 1) is a candidate. */
  lemma WallOnlyCandidates(g: Grid, cur: Pos)
    requires IsWall(g) && cur == Pos(0, 1)
    ensures forall j :: 0 <= j < NeighborCount && Candidate(g, cur, j) ==> j == 1 || j == 6
  {
    forall j | 0 <= j < NeighborCount && Candidate(g, cur, j)
      ensures j == 1 || j == 6
    {
      WallCandidate(g, cur, j);
    }
  }

  /** On any such wall grid the planner sends a person at (0, 1) with goal
      (2, 1) through offset 1, to (0, 0): the first of two equally distant
      candidates, although it is farther from the goal. */
  lemma WallStep(g: Grid, p: Person)
    requires IsWall(g)
    requires p.currentPos == Pos(0, 1) && p.goalPos == Pos(2, 1)
    ensures NextPos(p, g) == Step(p.currentPos, 1)
    ensures SqDist(NextPos(p, g), p.goalPos) > SqDist(p.currentPos, p.goalPos)
  {
    WallSteps(p.currentPos, p.goalPos);
    WallNotAtRest(g, p);
    WallFreeNeighbours(g, p.currentPos);
    WallOnlyCandidates(g, p.currentPos);
    TieGoesToFirst(p, g, 1, 6);
  }

  /** Behind the wall, at (0, 1) with goal (2, 1), both free neighbours are
      farther from the goal than the current cell. The planner still moves,
      to (0, 0), because that offset comes first in the table. */
  lemma WallMovesAway()
    ensures var p := Person(1, Pos(0, 1), Pos(2, 1), 0, 0);
      && NextPos(p, WallGrid()) == Pos(0, 0)
      && SqDist(Pos(0, 0), p.goalPos) > SqDist(p.currentPos, p.goalPos)
  {
    WallStep(WallGrid(), Person(1, Pos(0, 1), Pos(2, 1), 0, 0));
  }

  /** From (0, 0) towards (4, 4), every neighbour in the positive quadrant
      other than the diagonal one is farther from the goal than the diagonal. */
  lemma DiagonalSteps(cur: Pos, goal: Pos)
    requires cur == Pos(0, 0) && goal == Pos(4, 4)
    ensures Step(cur, 7) == Pos(1, 1)
    ensures forall j :: 0 <= j < NeighborCount && j != 7 && Step(cur, j).x >= 0 && Step(cur, j).y >= 0 ==>
      SqDist(Step(cur, j), goal) > SqDist(Step(cur, 7), goal)
  {
  }

  /** On any well-formed empty 5x5 grid, a person at (0, 0) heading for (4, 4)
      takes the diagonal step to (1, 1). */
  lemma DiagonalOnEmpty(g: Grid, p: Person)
    requires Wf(g) && g.width == 5 && g.height == 5
    requires forall q :: IsValid(Some(g), q) ==> At(g, q) == Empty
    requires p.currentPos == Pos(0, 0) && p.goalPos == Pos(4, 4)
    ensures NextPos(p, g) == Pos(1, 1)
  {
    var cur := p.currentPos;
    DiagonalSteps(cur, p.goalPos);
    assert IsValid(Some(g), Step(cur, 7));
    StrictlyClosestWins(p, g, 7);
  }

  /** On the freshly initialised 5x5 grid, the first step from (0, 0) towards
      (4, 4) is the diagonal one. */
  lemma OpenGridDiagonal()
    ensures NextPos(Person(1, Pos(0, 0), Pos(4, 4), 0, 0), Init(5, 5)) == Pos(1, 1)
  {
    DiagonalOnEmpty(Init(5, 5), Person(1, Pos(0, 0), Pos(4, 4), 0, 0));
  }
}
