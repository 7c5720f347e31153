/** The collision system: the head against the walls, against every non-head
    segment, and against every piece of food. */
module Collision {
  import opened Geometry
  import opened GameState

  datatype CollisionEvent = Safe | Deadly

  /** One Deadly event per body segment that overlaps the head; the order
      of the events does not matter, only their number. */
  function SelfHits(head: Cell, body: seq<Segment>): (events: seq<CollisionEvent>)
    ensures forall i :: 0 <= i < |events| ==> events[i] == Deadly
    ensures |events| == multiset(Cells(body))[head]
    decreases |body|
  {
    if body == [] then []
    else
      assert Cells(body) == [body[0].cell] + Cells(body[1..]);
      (if Collide(head, body[0].cell) then [Deadly] else []) + SelfHits(head, body[1..])
  }

  /** One Safe event per piece of food under the head; those pieces are
      despawned and every other piece is kept. The engine visits food in no
      fixed order, so only the counts are stated. */
  function EatFood(head: Cell, food: seq<Cell>): (r: (seq<CollisionEvent>, seq<Cell>))
    ensures forall i :: 0 <= i < |r.0| ==> r.0[i] == Safe
    ensures |r.0| == multiset(food)[head]
    ensures multiset(r.1) == multiset(food)[head := 0]
    decreases |food|
  {
    if food == [] then ([], [])
    else
      assert food == [food[0]] + food[1..];
      var rest := EatFood(head, food[1..]);
      if Collide(head, food[0]) then ([Safe] + rest.0, rest.1)
      else (rest.0, [food[0]] + rest.1)
  }

  /** All collision events of one tick and the food left on the board: wall
      first, then the body, then the food. Deadly is raised exactly when the
      head left the field or shares a cell with a non-head segment (the head is
      never compared with itself); there is one Safe per piece of food under
      the head, and exactly those pieces are removed. */
  function CheckCollisions(snake: seq<Segment>, food: seq<Cell>): (r: (seq<CollisionEvent>, seq<Cell>))
    requires |snake| >= 1
    ensures Deadly in r.0 <==> !InField(snake[0].cell) || snake[0].cell in Cells(snake[1..])
    ensures multiset(r.0)[Deadly] >= (if InField(snake[0].cell) then 0 else 1)
    ensures multiset(r.0)[Safe] == multiset(food)[snake[0].cell]
    ensures multiset(r.1) == multiset(food)[snake[0].cell := 0]
  {
    var head := snake[0].cell;
    var wall := if WallHit(head) then [Deadly] else [];
    var body := SelfHits(head, snake[1..]);
    var eaten := EatFood(head, food);
    assert Safe !in wall + body;
    assert Deadly !in eaten.0;
    assert multiset(wall + body + eaten.0)[Safe] == multiset(eaten.0)[Safe] == |eaten.0| by {
      assert multiset(wall + body + eaten.0) == multiset(wall + body) + multiset(eaten.0);
      assert multiset(eaten.0) == multiset{}[Safe := |eaten.0|] by {
        AllSame(eaten.0, Safe);
      }
    }
    (wall + body + eaten.0, eaten.1)
  }

  /** A sequence made of one value only is that value repeated. */
  lemma {:induction false} AllSame(events: seq<CollisionEvent>, e: CollisionEvent)
    requires forall i :: 0 <= i < |events| ==> events[i] == e
    ensures multiset(events) == multiset{}[e := |events|]
    decreases |events|
  {
    if events != [] {
      assert events == [e] + events[1..];
      AllSame(events[1..], e);
    }
  }
}
