/** The agent record (`person_t` in grid.h) and its initialisation. */
module Persons {

  import opened Positions

  /** Stands for the identity of a `person_t*`: what a grid cell refers to. */
  type PersonRef = nat

  /** `time` and `last_move` are `size_t` counters in grid.h. */
  datatype Person = Person(id: int, currentPos: Pos, goalPos: Pos, time: nat, lastMove: nat)

  /** The sentinel both positions of a fresh person hold. */
  const Unset: Pos := Pos(-1, -1)

  /** `person_init`: a detached person with the given id, both positions at
      the (-1, -1) sentinel and both counters at zero. */
  function PersonInit(id: int): (p: Person)
    ensures p.id == id
    ensures p.currentPos == MkPos(-1, -1) && p.goalPos == MkPos(-1, -1)
    ensures p.time == 0 && p.lastMove == 0
  {
    Person(id, Unset, Unset, 0, 0)
  }
}
