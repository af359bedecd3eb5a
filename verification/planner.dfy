/** `person_next_pos`: the greedy one-step planner of grid.c. It scans the
    eight neighbour offsets in table order, keeps the in-bounds EMPTY cells,
    and takes the first one whose distance to the goal is strictly smaller
    than every candidate seen before it. The running minimum starts at
    infinity, so a candidate is taken even when it is no closer to the goal
    than the current cell. Distances are compared as integer squares. */
module Planner {

  import opened Options
  import opened Positions
  import opened Persons
  import opened Grids

  /** The neighbour reached through offset `i`. */
  function Step(cur: Pos, i: nat): Pos
    requires i < NeighborCount
  {
    PosAdd(cur, NeighborOffset(i))
  }

  /** Offset `i` leads to an in-bounds EMPTY cell. */
  predicate Candidate(g: Grid, cur: Pos, i: nat)
    requires Wf(g)
  {
    && i < NeighborCount
    && IsValid(Some(g), Step(cur, i))
    && Get(g, Step(cur, i), None).kind == KindEmpty
  }

  /** The planner's choice stated without the scan: `i` is a candidate, no
      candidate is closer to the goal, and every candidate listed before `i`
      is strictly farther (ties go to the earliest offset). */
  predicate IsBestStep(g: Grid, cur: Pos, goal: Pos, i: nat)
    requires Wf(g)
  {
    && Candidate(g, cur, i)
    && (forall j :: 0 <= j < NeighborCount && Candidate(g, cur, j) ==>
          SqDist(Step(cur, i), goal) <= SqDist(Step(cur, j), goal))
    && (forall j :: 0 <= j < i && Candidate(g, cur, j) ==>
          SqDist(Step(cur, j), goal) > SqDist(Step(cur, i), goal))
  }

  /** The index the scan holds after looking at the first `n` offsets
      (`None` while `best_dist` is still infinite). */
  function BestIndex(g: Grid, cur: Pos, goal: Pos, n: nat): (r: Option<nat>)
    requires Wf(g) && n <= NeighborCount
    ensures r.None? <==> forall j :: 0 <= j < n ==> !Candidate(g, cur, j)
    ensures r.Some? ==>
      && r.value < n
      && Candidate(g, cur, r.value)
      && (forall j :: 0 <= j < n && Candidate(g, cur, j) ==>
            SqDist(Step(cur, r.value), goal) <= SqDist(Step(cur, j), goal))
      && (forall j :: 0 <= j < r.value && Candidate(g, cur, j) ==>
            SqDist(Step(cur, j), goal) > SqDist(Step(cur, r.value), goal))
  {
    if n == 0 then None
    else
      var b := BestIndex(g, cur, goal, n - 1);
      if Candidate(g, cur, n - 1)
         && (b.None? || SqDist(Step(cur, n - 1), goal) < SqDist(Step(cur, b.value), goal))
      then Some(n - 1)
      else b
  }

  /** The early exit of `person_next_pos`: an invalid current or goal
      position, or a person already at the goal, does not move. */
  predicate AtRest(g: Grid, p: Person) {
    !IsValid(Some(g), p.currentPos) || !IsValid(Some(g), p.goalPos) || PosEquals(p.goalPos, p.currentPos) == 1
  }

  /** `person_next_pos` as a function of the person and the grid. It reads
      the grid and returns a position; nothing is written. */
  function NextPos(p: Person, g: Grid): (next: Pos)
    requires Wf(g)
    ensures AtRest(g, p) ==> next == p.currentPos
    ensures !AtRest(g, p) ==>
      && (next == p.currentPos <==> forall j :: 0 <= j < NeighborCount ==> !Candidate(g, p.currentPos, j))
      && (next != p.currentPos ==>
            exists i :: 0 <= i < NeighborCount && IsBestStep(g, p.currentPos, p.goalPos, i) && next == Step(p.currentPos, i))
  {
    if AtRest(g, p) then p.currentPos
    else
      match BestIndex(g, p.currentPos, p.goalPos, NeighborCount)
      case None => p.currentPos
      case Some(i) =>
        NeighborOffsetsShape();
        PosAddCancel(p.currentPos, NeighborOffset(i), Pos(0, 0));
        Step(p.currentPos, i)
  }

  /** The best step is unique, so the tie-break makes the choice deterministic. */
  lemma BestStepUnique(g: Grid, cur: Pos, goal: Pos, i: nat, k: nat)
    requires Wf(g)
    requires IsBestStep(g, cur, goal, i) && IsBestStep(g, cur, goal, k)
    ensures i == k
  {
  }

  /** The tie-break: when the only candidates are two offsets at the same
      distance from the goal, the planner takes the one listed first. */
  lemma TieGoesToFirst(p: Person, g: Grid, a: nat, b: nat)
    requires Wf(g) && !AtRest(g, p)
    requires a < b < NeighborCount
    requires Candidate(g, p.currentPos, a) && Candidate(g, p.currentPos, b)
    requires forall j :: 0 <= j < NeighborCount && Candidate(g, p.currentPos, j) ==> j == a || j == b
    requires SqDist(Step(p.currentPos, a), p.goalPos) == SqDist(Step(p.currentPos, b), p.goalPos)
    ensures NextPos(p, g) == Step(p.currentPos, a)
  {
    var next := NextPos(p, g);
    var i :| 0 <= i < NeighborCount && IsBestStep(g, p.currentPos, p.goalPos, i) && next == Step(p.currentPos, i);
  }

  /** A candidate strictly closer to the goal than every other candidate is
      the planner's choice, wherever it sits in the table. */
  lemma StrictlyClosestWins(p: Person, g: Grid, a: nat)
    requires Wf(g) && !AtRest(g, p)
    requires a < NeighborCount && Candidate(g, p.currentPos, a)
    requires forall j :: 0 <= j < NeighborCount && j != a && Candidate(g, p.currentPos, j) ==>
      SqDist(Step(p.currentPos, j), p.goalPos) > SqDist(Step(p.currentPos, a), p.goalPos)
    ensures NextPos(p, g) == Step(p.currentPos, a)
  {
    var next := NextPos(p, g);
    var i :| 0 <= i < NeighborCount && IsBestStep(g, p.currentPos, p.goalPos, i) && next == Step(p.currentPos, i);
  }

  /** The scan of `person_next_pos` as grid.c writes it: a loop over the
      offsets with `best_dist` starting at infinity and a strict `<`. */
  method PersonNextPos(p: Person, g: Grid) returns (next: Pos)
    requires Wf(g)
    ensures next == NextPos(p, g)
  {
    if !IsValid(Some(g), p.currentPos) || !IsValid(Some(g), p.goalPos)
       || PosEquals(p.goalPos, p.currentPos) == 1 {
      return p.currentPos;
    }
    var bestDist: Option<nat> := None;
    var bestCand := p.currentPos;
    for i := 0 to NeighborCount
      invariant match BestIndex(g, p.currentPos, p.goalPos, i)
        case None => bestDist.None? && bestCand == p.currentPos
        case Some(b) => bestDist == Some(SqDist(Step(p.currentPos, b), p.goalPos))
                        && bestCand == Step(p.currentPos, b)
    {
      var cand := PosAdd(p.currentPos, NeighborOffset(i));
      assert cand == Step(p.currentPos, i);
      if !IsValid(Some(g), cand) {
        continue;
      }
      if Get(g, cand, None).kind != KindEmpty {
        assert !Candidate(g, p.currentPos, i);
        continue;
      }
      assert Candidate(g, p.currentPos, i);
      var dist := SqDist(cand, p.goalPos);
      if bestDist.None? || dist < bestDist.value {
        bestDist := Some(dist);
        bestCand := cand;
      }
    }
    next := bestCand;
  }

  /** The step the planner takes is always to an in-bounds EMPTY cell
      adjacent to the current one; it never proposes an obstacle, an
      occupied cell or a position off the grid. */
  lemma NextPosIsSafe(p: Person, g: Grid)
    requires Wf(g)
    ensures var next := NextPos(p, g);
      next == p.currentPos ||
      (&& IsValid(Some(g), next)
       && At(g, next) == Empty
       && -1 <= next.x - p.currentPos.x <= 1 && -1 <= next.y - p.currentPos.y <= 1)
  {
    var next := NextPos(p, g);
    if next != p.currentPos {
      var i :| 0 <= i < NeighborCount && IsBestStep(g, p.currentPos, p.goalPos, i) && next == Step(p.currentPos, i);
      NeighborOffsetsShape();
    }
  }

  /** A fresh person (both positions at the sentinel) never moves, whatever
      the grid holds: the sentinel is invalid even for the unbounded grid. */
  lemma FreshPersonStays(id: int, g: Grid)
    requires Wf(g)
    ensures !IsValid(None, PersonInit(id).currentPos) && !IsValid(Some(g), PersonInit(id).goalPos)
    ensures NextPos(PersonInit(id), g) == Unset
  {
  }

  /** The direct step towards the goal: the sign of each coordinate difference. */
  function Towards(cur: Pos, goal: Pos): (d: Pos)
    requires cur != goal
    ensures -1 <= d.x <= 1 && -1 <= d.y <= 1 && d != Pos(0, 0)
    ensures SqDist(PosAdd(cur, d), goal) < SqDist(cur, goal)
  {
    var dx := if goal.x > cur.x then 1 else if goal.x < cur.x then -1 else 0;
    var dy := if goal.y > cur.y then 1 else if goal.y < cur.y then -1 else 0;
    Pos(dx, dy)
  }

  /** When the cell one diagonal/straight step towards the goal is EMPTY, the
      planner moves strictly closer to the goal. */
  lemma {:induction false} DirectStepImproves(p: Person, g: Grid)
    requires Wf(g) && !AtRest(g, p)
    requires At(g, PosAdd(p.currentPos, Towards(p.currentPos, p.goalPos))) == Empty
    ensures SqDist(NextPos(p, g), p.goalPos) < SqDist(p.currentPos, p.goalPos)
  {
    var cur, goal := p.currentPos, p.goalPos;
    var d := Towards(cur, goal);
    var k := OffsetIndex(d);
    assert Step(cur, k) == PosAdd(cur, d);
    assert Candidate(g, cur, k);
    var next := NextPos(p, g);
    assert next != cur;
    var i :| 0 <= i < NeighborCount && IsBestStep(g, cur, goal, i) && next == Step(cur, i);
    assert SqDist(next, goal) <= SqDist(Step(cur, k), goal);
  }

  /** On a freshly initialised grid, a person with a valid goal elsewhere
      gets strictly closer with every planned step. */
  lemma OpenGridApproaches(p: Person, width: int, height: int)
    requires 0 <= width && 0 <= height
    requires !AtRest(Init(width, height), p)
    ensures SqDist(NextPos(p, Init(width, height)), p.goalPos) < SqDist(p.currentPos, p.goalPos)
  {
    var g := Init(width, height);
    var q := PosAdd(p.currentPos, Towards(p.currentPos, p.goalPos));
    assert IsValid(Some(g), q);
    DirectStepImproves(p, g);
  }
}
