/** The move system: a shift register along the snake, then one box for the head. */
module Movement {
  import opened Geometry
  import opened GameState

  /** The snake after one move: every body segment takes its predecessor's
      pre-move segment and cell, the old tail's state is dropped, and the head
      steps one box in its next direction and commits that direction. */
  function Moved(snake: seq<Segment>): (r: seq<Segment>)
    requires |snake| >= 1
    ensures |r| == |snake|
    ensures forall i :: 1 <= i < |r| ==> r[i] == snake[i - 1]
    ensures r[0].cell == Advance(snake[0].cell, snake[0].next)
    ensures r[0].curr == snake[0].next && r[0].next == snake[0].next
  {
    var head := snake[0];
    [head.(curr := head.next, cell := Advance(head.cell, head.next))] + snake[..|snake| - 1]
  }

  /** The move as the game performs it: snapshot every segment, copy each
      snapshot into the following segment, then advance the head. */
  method MoveSnake(snake: seq<Segment>) returns (r: seq<Segment>)
    requires |snake| >= 1
    ensures r == Moved(snake)
  {
    r := snake;
    if |snake| > 1 {
      var snapshot := snake;
      var i := 1;
      while i < |snake|
        invariant 1 <= i <= |snake|
        invariant |r| == |snake|
        invariant r[0] == snake[0]
        invariant forall j :: 1 <= j < i ==> r[j] == snapshot[j - 1]
      {
        r := r[i := snapshot[i - 1]];
        i := i + 1;
      }
    }
    var head := r[0];
    match head.next {
      case Up => r := r[0 := head.(cell := Cell(head.cell.x, head.cell.y + 1))];
      case Down => r := r[0 := head.(cell := Cell(head.cell.x, head.cell.y - 1))];
      case Right => r := r[0 := head.(cell := Cell(head.cell.x + 1, head.cell.y))];
      case Left => r := r[0 := head.(cell := Cell(head.cell.x - 1, head.cell.y))];
    }
    r := r[0 := r[0].(curr := r[0].next)];
  }

  /** A move keeps the snake connected and free of pending reversals. */
  lemma MovePreservesShape(snake: seq<Segment>)
    requires |snake| >= 1
    requires Connected(snake)
    requires forall i :: 0 <= i < |snake| ==> NoReverse(snake[i])
    ensures Connected(Moved(snake))
    ensures forall i :: 0 <= i < |snake| ==> NoReverse(Moved(snake)[i])
  {
    var r := Moved(snake);
    forall i | 0 <= i < |r| - 1
      ensures r[i].cell == Advance(r[i + 1].cell, r[i].curr)
    {
      if i > 0 {
        assert r[i] == snake[i - 1] && r[i + 1] == snake[i];
      }
    }
  }

  /** The cells after a move are the head's new cell followed by every old cell
      but the tail's. */
  lemma MovedCells(snake: seq<Segment>)
    requires |snake| >= 1
    ensures Cells(Moved(snake)) == [Advance(snake[0].cell, snake[0].next)] + Cells(snake)[..|snake| - 1]
  {
    var r := Moved(snake);
    var expected := [Advance(snake[0].cell, snake[0].next)] + Cells(snake)[..|snake| - 1];
    assert |Cells(r)| == |expected|;
    forall i | 0 <= i < |r| ensures Cells(r)[i] == expected[i] {
      if i > 0 {
        assert r[i] == snake[i - 1];
      }
    }
  }
}
