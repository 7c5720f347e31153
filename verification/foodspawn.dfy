/** The food spawner, run on its own slower schedule. The random draws become a
    parameter: each attempt is given the candidate cell the generator produced. */
module FoodSpawn {
  import opened Geometry
  import opened GameState

  /** What one draw of the spawner's loop does. */
  datatype Attempt = Full | Occupied | Placed(cell: Cell)

  /** How many of `cells` sit at exactly the pixel position of `c`. */
  function CountAt(c: Cell, cells: seq<Cell>): (n: nat)
    ensures n == multiset(cells)[c]
    decreases |cells|
  {
    if cells == [] then 0
    else
      assert cells == [cells[0]] + cells[1..];
      (if SamePixel(cells[0], c) then 1 else 0) + CountAt(c, cells[1..])
  }

  /** Every transform in the world: the segments, the food, and `others` more
      (the camera). */
  function TransformCount(s: State, others: nat): nat {
    |s.snake| + |s.food| + others
  }

  /** A cell no segment and no food occupies. The camera sits at pixel (0, 0),
      which is never the centre of a cell, so it never occupies one. */
  predicate Free(s: State, c: Cell) {
    c !in Cells(s.snake) && c !in s.food
  }

  /** One pass of the spawner's loop for an in-field draw: stop when the
      transform count has reached the number of cells, place the food when
      nothing is at the drawn position, otherwise draw again. */
  function SpawnAttempt(s: State, others: nat, candidate: Cell): (r: Attempt)
    requires InField(candidate)
    ensures r.Full? <==> TransformCount(s, others) >= WidthBoxes * HeightBoxes
    ensures r.Placed? <==> TransformCount(s, others) < WidthBoxes * HeightBoxes && Free(s, candidate)
    ensures r.Placed? ==> r.cell == candidate
  {
    if TransformCount(s, others) >= WidthBoxes * HeightBoxes then Full
    else if CountAt(candidate, Cells(s.snake) + s.food) == 0 then Placed(candidate)
    else Occupied
  }

  /** Draw `k` is the first one the spawner finds free. */
  predicate FirstFree(s: State, draws: seq<Cell>, k: int) {
    && 0 <= k < |draws|
    && Free(s, draws[k])
    && forall j :: 0 <= j < k ==> !Free(s, draws[j])
  }

  /** The spawner's retry loop over a finite run of in-field draws. It only
      ever adds one piece of food, at the first free draw, and adds nothing once
      the transform count reaches the number of cells. Running out of draws
      stands for a loop that has not yet found a free cell. */
  method SpawnFood(s: State, others: nat, draws: seq<Cell>) returns (r: State)
    requires forall i :: 0 <= i < |draws| ==> InField(draws[i])
    ensures r.snake == s.snake
    ensures r.food == s.food || exists k :: FirstFree(s, draws, k) && r.food == s.food + [draws[k]]
    ensures TransformCount(s, others) >= WidthBoxes * HeightBoxes ==> r == s
    ensures TransformCount(s, others) < WidthBoxes * HeightBoxes && (exists k :: 0 <= k < |draws| && Free(s, draws[k]))
            ==> |r.food| == |s.food| + 1
    ensures WellFormed(s) ==> WellFormed(r)
  {
    r := s;
    var i := 0;
    var stop := false;
    while i < |draws| && !stop
      invariant 0 <= i <= |draws|
      invariant !stop ==> r == s
      invariant !stop ==> TransformCount(s, others) >= WidthBoxes * HeightBoxes ==> i == 0
      invariant !stop ==> forall j :: 0 <= j < i ==> !Free(s, draws[j])
      invariant stop ==> i < |draws|
      invariant stop ==> (
        || (r == s && TransformCount(s, others) >= WidthBoxes * HeightBoxes)
        || (&& TransformCount(s, others) < WidthBoxes * HeightBoxes
            && FirstFree(s, draws, i)
            && r == State(s.snake, s.food + [draws[i]])))
      decreases |draws| - i, !stop
    {
      var attempt := SpawnAttempt(s, others, draws[i]);
      match attempt
      case Full =>
        stop := true;
      case Placed(c) =>
        r := State(s.snake, s.food + [c]);
        stop := true;
      case Occupied =>
        i := i + 1;
    }
    if stop && r != s {
      PlacingKeepsWellFormed(s, draws[i]);
    }
  }

  /** Food put on a free in-field cell keeps every state invariant. */
  lemma PlacingKeepsWellFormed(s: State, c: Cell)
    requires InField(c) && Free(s, c)
    ensures WellFormed(s) ==> WellFormed(State(s.snake, s.food + [c]))
  {
  }
}
