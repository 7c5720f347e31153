/** One deterministic tick, in the order direction update, move, collision,
    growth, terminal check, and the invariants it keeps. */
module Simulation {
  import opened Geometry
  import opened GameState
  import opened Steering
  import opened Movement
  import opened Collision
  import opened Growth
  import opened Terminal

  /** The state after a tick, and whether the game asked to exit. */
  datatype Outcome = Outcome(state: State, exit: bool)

  /** The head after this tick's keys: the input hook and the direction-update
      system both run the key match over the same events. */
  function SteeredHead(head: Segment, events: seq<KeyboardInput>): Segment {
    UpdateDir(Input(head, events).0, events)
  }

  /** The cell the head moves into this tick. */
  function NextHeadCell(s: State, events: seq<KeyboardInput>): Cell
    requires |s.snake| >= 1
  {
    Advance(s.snake[0].cell, SteeredHead(s.snake[0], events).next)
  }

  function Steered(s: State, events: seq<KeyboardInput>): seq<Segment>
    requires |s.snake| >= 1
  {
    [SteeredHead(s.snake[0], events)] + s.snake[1..]
  }

  /** One tick. The head lands on NextHeadCell; the snake grows by the number
      of food pieces found there, exactly those pieces disappear, and the game
      exits exactly when the head leaves the field or lands on a cell of the
      body other than the tail's old cell, which the move has just vacated. */
  function Tick(s: State, events: seq<KeyboardInput>): (r: Outcome)
    requires |s.snake| >= 1
    ensures |r.state.snake| == |s.snake| + multiset(s.food)[NextHeadCell(s, events)]
    ensures r.state.snake[0].cell == NextHeadCell(s, events)
    ensures r.state.snake[0].curr == r.state.snake[0].next == SteeredHead(s.snake[0], events).next
    ensures r.state.snake[1..|s.snake|] == Steered(s, events)[..|s.snake| - 1]
    ensures forall i, j :: |s.snake| <= j < |r.state.snake| && i == j - 1 ==> r.state.snake[j] == NewTail(r.state.snake[i])
    ensures multiset(r.state.food) == multiset(s.food)[NextHeadCell(s, events) := 0]
    ensures r.exit <==> !InField(NextHeadCell(s, events)) || NextHeadCell(s, events) in Cells(s.snake[..|s.snake| - 1])
  {
    var n := |s.snake|;
    var steered := Steered(s, events);
    var moved := Moved(steered);
    assert moved[1..] == steered[..n - 1];
    SteeredBodyCells(s, events);
    var collisions := CheckCollisions(moved, s.food);
    var grown := AddSegment(moved, collisions.0);
    assert grown[1..n] == moved[1..] by {
      assert grown[..n] == moved;
    }
    Outcome(State(grown, collisions.1), GameOver(collisions.0))
  }

  /** Steering leaves the cells of every segment but the tail's untouched. */
  lemma SteeredBodyCells(s: State, events: seq<KeyboardInput>)
    requires |s.snake| >= 1
    ensures Cells(Steered(s, events)[..|s.snake| - 1]) == Cells(s.snake[..|s.snake| - 1])
  {
    var n := |s.snake|;
    var st := Steered(s, events);
    var body, oldBody := st[..n - 1], s.snake[..n - 1];
    forall i | 0 <= i < |body| ensures Cells(body)[i] == Cells(oldBody)[i] {
      assert body[i] == st[i];
    }
  }

  /** Steering changes only the head's next direction, and never to a reversal. */
  lemma SteeredShape(s: State, events: seq<KeyboardInput>)
    requires WellFormed(s)
    ensures |Steered(s, events)| == |s.snake|
    ensures Cells(Steered(s, events)) == Cells(s.snake)
    ensures forall f :: f in s.food ==> f !in Cells(Steered(s, events))
    ensures Connected(Steered(s, events))
    ensures forall i :: 0 <= i < |s.snake| ==> NoReverse(Steered(s, events)[i])
  {
    var st := Steered(s, events);
    assert forall i :: 1 <= i < |st| ==> st[i] == s.snake[i];
    assert Cells(st) == Cells(s.snake);
  }

  /** The segment a Safe event appends right after a move lands on the cell
      the tail held before the move. */
  lemma GrowthRefillsOldTail(st: seq<Segment>, events: seq<CollisionEvent>)
    requires |st| >= 1 && Connected(st)
    requires |AddSegment(Moved(st), events)| > |st|
    ensures AddSegment(Moved(st), events)[|st|].cell == st[|st| - 1].cell
  {
    var n := |st|;
    var m := Moved(st);
    var g := AddSegment(m, events);
    assert g[n] == NewTail(g[n - 1]);
    assert g[n - 1] == m[n - 1];
    if n >= 2 {
      assert m[n - 1] == st[n - 2];
      assert st[n - 2].cell == Advance(st[n - 1].cell, st[n - 2].curr);
    }
  }

  /** With at most one Safe event, every segment after move and growth sits on
      the head's new cell or on a cell the snake covered before the move. */
  lemma GrownCell(st: seq<Segment>, events: seq<CollisionEvent>, i: nat)
    requires |st| >= 1 && Connected(st)
    requires multiset(events)[Safe] <= 1
    requires i < |AddSegment(Moved(st), events)|
    ensures AddSegment(Moved(st), events)[i].cell == Moved(st)[0].cell
         || AddSegment(Moved(st), events)[i].cell in Cells(st)
  {
    var n := |st|;
    var m := Moved(st);
    var g := AddSegment(m, events);
    if 1 <= i < n {
      assert g[i] == g[..n][i] == m[i] == st[i - 1];
      assert Cells(st)[i - 1] == g[i].cell;
    } else if i >= n {
      GrowthRefillsOldTail(st, events);
      assert Cells(st)[n - 1] == g[i].cell;
    }
  }

  /** A cell holds at most one piece of distinct food. */
  lemma DistinctAtMostOnce(food: seq<Cell>, c: Cell)
    requires FoodDistinct(food)
    ensures multiset(food)[c] <= 1
  {
  }

  /** Food kept after removing every piece at `h` was there before and is not at `h`. */
  lemma KeptFoodMember(food: seq<Cell>, kept: seq<Cell>, h: Cell, f: Cell)
    requires multiset(kept) == multiset(food)[h := 0]
    requires f in kept
    ensures f in food && f != h
  {
    assert multiset(kept)[f] > 0;
  }

  lemma KeptFoodDistinct(food: seq<Cell>, kept: seq<Cell>, h: Cell)
    requires multiset(kept) == multiset(food)[h := 0]
    requires FoodDistinct(food)
    ensures FoodDistinct(kept)
  {
    forall c | c in kept ensures multiset(kept)[c] <= 1 {
      KeptFoodMember(food, kept, h, c);
    }
  }

  /** Food that was off the snake and is not under the new head stays off the
      snake after move and growth. */
  lemma KeptFoodOffSnake(st: seq<Segment>, events: seq<CollisionEvent>, f: Cell)
    requires |st| >= 1 && Connected(st)
    requires multiset(events)[Safe] <= 1
    requires f !in Cells(st) && f != Moved(st)[0].cell
    ensures f !in Cells(AddSegment(Moved(st), events))
  {
    var g := AddSegment(Moved(st), events);
    forall j | 0 <= j < |g| ensures Cells(g)[j] != f {
      GrownCell(st, events, j);
    }
  }

  /** A tick keeps every state invariant: the snake stays non-empty and
      connected, no segment holds a pending reversal, and the food stays
      distinct, in the field and off the snake. */
  lemma TickPreservesWellFormed(s: State, events: seq<KeyboardInput>)
    requires WellFormed(s)
    ensures WellFormed(Tick(s, events).state)
  {
    var st := Steered(s, events);
    SteeredShape(s, events);
    MovePreservesShape(st);
    var m := Moved(st);
    var c := CheckCollisions(m, s.food);
    var g := AddSegment(m, c.0);
    AddSegmentPreservesShape(m, c.0);
    assert Tick(s, events).state == State(g, c.1);
    var h := m[0].cell;
    DistinctAtMostOnce(s.food, h);
    KeptFoodDistinct(s.food, c.1, h);
    forall i | 0 <= i < |c.1| ensures InField(c.1[i]) && c.1[i] !in Cells(g) {
      KeptFoodMember(s.food, c.1, h, c.1[i]);
      KeptFoodOffSnake(st, c.0, c.1[i]);
    }
  }

  /** Ticks run one after another until the game asks to exit. */
  function Run(s: State, inputs: seq<seq<KeyboardInput>>): (r: Outcome)
    requires |s.snake| >= 1
    ensures |r.state.snake| >= |s.snake|
    ensures inputs == [] ==> r == Outcome(s, false)
    ensures inputs != [] && Tick(s, inputs[0]).exit ==> r == Tick(s, inputs[0])
    ensures r.exit ==> inputs != []
    decreases |inputs|
  {
    if inputs == [] then Outcome(s, false)
    else
      var o := Tick(s, inputs[0]);
      if o.exit then o else Run(o.state, inputs[1..])
  }

  /** Every state reached from a well-formed one is well-formed. */
  lemma {:induction false} RunPreservesWellFormed(s: State, inputs: seq<seq<KeyboardInput>>)
    requires WellFormed(s)
    ensures WellFormed(Run(s, inputs).state)
    decreases |inputs|
  {
    if inputs != [] {
      TickPreservesWellFormed(s, inputs[0]);
      var o := Tick(s, inputs[0]);
      if !o.exit {
        RunPreservesWellFormed(o.state, inputs[1..]);
      }
    }
  }

  /** Each tick of a well-formed game appends at most one segment: distinct
      food gives at most one Safe event. */
  lemma TickGrowsAtMostOne(s: State, events: seq<KeyboardInput>)
    requires WellFormed(s)
    ensures |Tick(s, events).state.snake| == |s.snake| + (if NextHeadCell(s, events) in s.food then 1 else 0)
  {
    DistinctAtMostOnce(s.food, NextHeadCell(s, events));
  }

  /** A lone head facing and heading up at column 0, row `k`, with no food. */
  function Straight(k: int): State {
    State([Segment(Up, Up, Cell(0, k))], [])
  }

  /** Without keys the head keeps its segment state. */
  lemma NoKeysNoSteering(head: Segment)
    ensures SteeredHead(head, []) == head
  {
    assert PressedKeys([]) == [];
  }

  /** One tick without keys moves a lone head one row up, and ends the game
      exactly when that row is outside the field. */
  lemma StraightTick(k: int)
    ensures Tick(Straight(k), []) == Outcome(Straight(k + 1), k + 1 >= HeightBoxes / 2 || k + 1 < -HeightBoxes / 2)
  {
    var s := Straight(k);
    NoKeysNoSteering(s.snake[0]);
    assert NextHeadCell(s, []) == Cell(0, k + 1);
    var r := Tick(s, []);
    assert |r.state.snake| == 1;
    assert r.state.snake == [Segment(Up, Up, Cell(0, k + 1))];
    assert multiset(r.state.food) == multiset{};
    assert Cells(s.snake[..0]) == [];
  }
}
