/** The simulation state: the ordered snake (index 0 is the head) and the food
    on the board, with the invariants every reachable state keeps. */
module GameState {
  import opened Geometry

  /** One snake element: its committed direction, the direction it will take
      on the next move, and the cell it occupies. */
  datatype Segment = Segment(curr: Direction, next: Direction, cell: Cell)

  /** Food is a sequence: the spawner never looks for existing food, so several
      pieces may be on the board at once. */
  datatype State = State(snake: seq<Segment>, food: seq<Cell>)

  /** The cells of a run of segments, in order. */
  function Cells(segs: seq<Segment>): (r: seq<Cell>)
    ensures |r| == |segs|
    ensures forall i :: 0 <= i < |segs| ==> r[i] == segs[i].cell
  {
    if segs == [] then [] else [segs[0].cell] + Cells(segs[1..])
  }

  /** A segment never holds a pending 180-degree turn. */
  predicate NoReverse(seg: Segment) {
    seg.next != Opposite(seg.curr)
  }

  /** Each segment sits one box ahead of its successor along its own direction. */
  predicate Connected(snake: seq<Segment>) {
    forall i, j :: 0 <= i < |snake| && j == i + 1 && j < |snake| ==> snake[i].cell == Advance(snake[j].cell, snake[i].curr)
  }

  /** No two pieces of food share a cell. */
  predicate FoodDistinct(food: seq<Cell>) {
    forall c :: c in food ==> multiset(food)[c] <= 1
  }

  predicate FoodInField(food: seq<Cell>) {
    forall i :: 0 <= i < |food| ==> InField(food[i])
  }

  /** No food lies under any segment. */
  predicate FoodClear(s: State) {
    forall i :: 0 <= i < |s.food| ==> s.food[i] !in Cells(s.snake)
  }

  predicate WellFormed(s: State) {
    && |s.snake| >= 1
    && (forall i :: 0 <= i < |s.snake| ==> NoReverse(s.snake[i]))
    && Connected(s.snake)
    && FoodDistinct(s.food)
    && FoodInField(s.food)
    && FoodClear(s)
  }

  /** The start of a match: a lone head at the box just up and right of the
      origin, facing and heading up, and no food. */
  function Setup(): (s: State)
    ensures WellFormed(s)
    ensures |s.snake| == 1 && s.food == []
    ensures Pixel(s.snake[0].cell.x) == BoxSize / 2 && Pixel(s.snake[0].cell.y) == BoxSize / 2
    ensures s.snake[0].curr == Up && s.snake[0].next == Up
  {
    State([Segment(Up, Up, Cell(0, 0))], [])
  }
}
