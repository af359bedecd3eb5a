/** The grid of grid.c: a width-by-height store of cells, each EMPTY, an
    OBSTACLE, or a reference to a person, with the validity test, the cell
    accessors and the fixed table of the eight neighbour offsets. */
module Grids {

  import opened Options
  import opened Positions
  import opened Persons

  /** The `GRID_OBJ_*` kinds of grid.h. */
  const KindEmpty: int := 0
  const KindPerson: int := 1
  const KindObstacle: int := 2
  const KindInvalid: int := -1

  /** What a cell stores. grid.c packs this into one `ptrdiff_t`: a small
      tag, or else a `person_t*`. */
  datatype Cell = Empty | Obstacle | Occupant(who: PersonRef)

  /** Row-major storage: `cells[y][x]` is the cell at `Pos(x, y)`. */
  datatype Grid = Grid(width: int, height: int, cells: seq<seq<Cell>>)

  /** Storage matches the dimensions. */
  ghost predicate Wf(g: Grid) {
    && 0 <= g.width && 0 <= g.height
    && |g.cells| == g.height
    && forall y :: 0 <= y < |g.cells| ==> |g.cells[y]| == g.width
  }

  /** `grid_isvalid`; `None` stands for the NULL grid, which is unbounded. */
  function IsValid(g: Option<Grid>, p: Pos): (ok: bool)
    ensures !ok <==> (p.x < 0 || p.y < 0 || (g.Some? && (p.x >= g.value.width || p.y >= g.value.height)))
  {
    p.x >= 0 && p.y >= 0 && (g.None? || (p.x < g.value.width && p.y < g.value.height))
  }

  /** The cell at a valid position. */
  function At(g: Grid, p: Pos): Cell
    requires Wf(g) && IsValid(Some(g), p)
  {
    g.cells[p.y][p.x]
  }

  /** The `GRID_OBJ_*` kind of a stored cell. */
  function KindOf(c: Cell): (k: int)
    ensures k != KindInvalid
    ensures k == KindEmpty <==> c.Empty?
    ensures k == KindObstacle <==> c.Obstacle?
    ensures k == KindPerson <==> c.Occupant?
  {
    match c
    case Empty => KindEmpty
    case Obstacle => KindObstacle
    case Occupant(_) => KindPerson
  }

  /** `grid_init`: every cell starts out EMPTY (the storage is zero-filled and
      `GRID_OBJ_EMPTY` is 0). */
  function Init(width: int, height: int): (g: Grid)
    requires 0 <= width && 0 <= height
    ensures Wf(g) && g.width == width && g.height == height
    ensures forall p :: IsValid(Some(g), p) ==> At(g, p) == Empty
  {
    Grid(width, height, seq(height, _ => seq(width, _ => Empty)))
  }

  /** What `grid_get` returns (`kind`) and what `*out_person` holds afterwards (`out`). */
  datatype Lookup = Lookup(kind: int, out: Option<PersonRef>)

  /** `grid_get`: the kind in the cell; `*out_person` is overwritten with the
      occupant when there is one and is left as it was (`prior`) otherwise. */
  function Get(g: Grid, p: Pos, prior: Option<PersonRef>): (r: Lookup)
    requires Wf(g) && IsValid(Some(g), p)
    ensures r.kind in {KindEmpty, KindPerson, KindObstacle}
    ensures r.kind == KindOf(At(g, p))
    ensures r.kind == KindPerson <==> At(g, p).Occupant?
    ensures r.kind == KindPerson ==> r.out == Some(At(g, p).who)
    ensures r.kind != KindPerson ==> r.out == prior
  {
    var c := At(g, p);
    Lookup(KindOf(c), if c.Occupant? then Some(c.who) else prior)
  }

  /** The grid with the cell at `p` replaced by `c`. */
  function Store(g: Grid, p: Pos, c: Cell): (g': Grid)
    requires Wf(g) && IsValid(Some(g), p)
    ensures Wf(g') && g'.width == g.width && g'.height == g.height
    ensures At(g', p) == c
    ensures forall q :: IsValid(Some(g), q) && q != p ==> At(g', q) == At(g, q)
  {
    Grid(g.width, g.height, g.cells[p.y := g.cells[p.y][p.x := c]])
  }

  /** What `grid_set` returns and the grid it leaves behind. */
  datatype Update = Update(grid: Grid, previous: int)

  /** `grid_set` with `type` EMPTY or OBSTACLE: the cell reads back as `kind`,
      the previous kind is returned, and every other cell keeps its content. */
  function Set(g: Grid, p: Pos, kind: int): (r: Update)
    requires Wf(g) && IsValid(Some(g), p)
    requires kind == KindEmpty || kind == KindObstacle
    ensures Wf(r.grid) && r.grid.width == g.width && r.grid.height == g.height
    ensures r.previous == Get(g, p, None).kind
    ensures forall prior :: Get(r.grid, p, prior) == Lookup(kind, prior)
    ensures forall q :: IsValid(Some(g), q) && q != p ==> At(r.grid, q) == At(g, q)
  {
    var before := At(g, p);
    Update(Store(g, p, if kind == KindEmpty then Empty else Obstacle), KindOf(before))
  }

  /** What `grid_set_person` returns, the grid, and the persons it refers to
      with the placed person's record updated. */
  datatype Placement = Placement(grid: Grid, persons: map<PersonRef, Person>, previous: int)

  /** `grid_set_person`: the cell now refers to `h`, and the record `h` refers
      to gets `current_pos` = `p`; grid.c writes the same `person_t*` into the
      cell and through it. The previous kind is returned, no other cell and no
      other person changes, and the cell at the person's former position is
      not vacated. */
  function SetPerson(g: Grid, p: Pos, h: PersonRef, persons: map<PersonRef, Person>): (r: Placement)
    requires Wf(g) && IsValid(Some(g), p)
    requires h in persons
    ensures Wf(r.grid) && r.grid.width == g.width && r.grid.height == g.height
    ensures r.previous == Get(g, p, None).kind
    ensures forall prior :: Get(r.grid, p, prior) == Lookup(KindPerson, Some(h))
    ensures r.persons.Keys == persons.Keys
    ensures r.persons[h] == persons[h].(currentPos := p)
    ensures forall k :: k in persons && k != h ==> r.persons[k] == persons[k]
    ensures forall q :: IsValid(Some(g), q) && q != p ==> At(r.grid, q) == At(g, q)
    ensures var out := Get(r.grid, p, None).out;
      out.Some? && out.value in r.persons && r.persons[out.value].currentPos == p
  {
    var previous := Get(g, p, None).kind;
    Placement(Store(g, p, Occupant(h)), persons[h := persons[h].(currentPos := p)], previous)
  }

  /** `GRID_NEIGHBOR_COUNT`. */
  const NeighborCount: nat := 8

  /** `grid_neighbor_offsets[i]`: the 3x3 block around a cell without its
      centre, row by row from y = -1, each row from x = -1. */
  function NeighborOffset(i: nat): (d: Pos)
    requires i < NeighborCount
    ensures -1 <= d.x <= 1 && -1 <= d.y <= 1 && d != Pos(0, 0)
  {
    match i
    case 0 => Pos(-1, -1)
    case 1 => Pos(0, -1)
    case 2 => Pos(1, -1)
    case 3 => Pos(-1, 0)
    case 4 => Pos(1, 0)
    case 5 => Pos(-1, 1)
    case 6 => Pos(0, 1)
    case _ => Pos(1, 1)
  }

  /** The `GRID_NEIGHBOR_COUNT` offsets are pairwise distinct, none of them
      zero, each coordinate in {-1, 0, 1}, and listed in row-major order. */
  lemma NeighborOffsetsShape()
    ensures forall i, j :: 0 <= i < j < NeighborCount ==> NeighborOffset(i) != NeighborOffset(j)
    ensures forall i :: 0 <= i < NeighborCount ==>
      && NeighborOffset(i) != Pos(0, 0)
      && -1 <= NeighborOffset(i).x <= 1 && -1 <= NeighborOffset(i).y <= 1
    ensures forall i :: 0 <= i < NeighborCount - 1 ==>
      var a, b := NeighborOffset(i), NeighborOffset(i + 1);
      a.y < b.y || (a.y == b.y && a.x < b.x)
  {
  }

  /** Where an offset sits in the table: its index in row-major order with
      the centre skipped. */
  function OffsetIndex(d: Pos): (i: nat)
    requires -1 <= d.x <= 1 && -1 <= d.y <= 1 && d != Pos(0, 0)
    ensures i < NeighborCount && NeighborOffset(i) == d
  {
    var k := (d.y + 1) * 3 + (d.x + 1);
    if k < 4 then k else k - 1
  }

  /** The table covers the whole neighbourhood: an offset is listed exactly
      when both of its coordinates lie in {-1, 0, 1} and it is not (0, 0). */
  lemma NeighborOffsetsComplete(d: Pos)
    ensures (exists i :: 0 <= i < NeighborCount && NeighborOffset(i) == d)
        <==> (-1 <= d.x <= 1 && -1 <= d.y <= 1 && d != Pos(0, 0))
  {
    if -1 <= d.x <= 1 && -1 <= d.y <= 1 && d != Pos(0, 0) {
      var i := OffsetIndex(d);
      assert NeighborOffset(i) == d;
    } else {
      NeighborOffsetsShape();
    }
  }
}
