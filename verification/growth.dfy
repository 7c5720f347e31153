/** The growth system, driven by the tick's Safe collision events. */
module Growth {
  import opened Geometry
  import opened GameState
  import opened Collision

  /** The segment appended behind `tail`: the tail's own segment state, one box
      opposite its committed direction. */
  function NewTail(tail: Segment): (r: Segment)
    ensures r.curr == tail.curr && r.next == tail.next
    ensures Advance(r.cell, tail.curr) == tail.cell
  {
    Segment(tail.curr, tail.next, Behind(tail.cell, tail.curr))
  }

  /** One new tail per Safe event, each behind the tail of the moment; the
      existing segments are left as they are. */
  function AddSegment(snake: seq<Segment>, events: seq<CollisionEvent>): (r: seq<Segment>)
    requires |snake| >= 1
    ensures |r| == |snake| + multiset(events)[Safe]
    ensures r[..|snake|] == snake
    ensures forall i, j :: |snake| <= j < |r| && i == j - 1 ==> r[j] == NewTail(r[i])
    decreases |events|
  {
    if events == [] then snake
    else
      assert events == [events[0]] + events[1..];
      var grown := if events[0] == Safe then snake + [NewTail(snake[|snake| - 1])] else snake;
      AddSegment(grown, events[1..])
  }

  /** Growth keeps the snake connected and free of pending reversals. */
  lemma AddSegmentPreservesShape(snake: seq<Segment>, events: seq<CollisionEvent>)
    requires |snake| >= 1
    requires Connected(snake)
    requires forall i :: 0 <= i < |snake| ==> NoReverse(snake[i])
    ensures Connected(AddSegment(snake, events))
    ensures forall i :: 0 <= i < |AddSegment(snake, events)| ==> NoReverse(AddSegment(snake, events)[i])
  {
    var r := AddSegment(snake, events);
    forall i | 0 <= i < |r|
      ensures NoReverse(r[i])
    {
      NoReverseAlongGrowth(snake, r, i);
    }
    forall i | 0 <= i < |r| - 1
      ensures r[i].cell == Advance(r[i + 1].cell, r[i].curr)
    {
      if i + 1 >= |snake| {
        assert r[i + 1] == NewTail(r[i]);
      } else {
        assert r[i] == snake[i] && r[i + 1] == snake[i + 1];
      }
    }
  }

  lemma {:induction false} NoReverseAlongGrowth(snake: seq<Segment>, r: seq<Segment>, i: nat)
    requires |snake| >= 1 && |snake| <= |r| && r[..|snake|] == snake
    requires forall i, j :: |snake| <= j < |r| && i == j - 1 ==> r[j] == NewTail(r[i])
    requires forall j :: 0 <= j < |snake| ==> NoReverse(snake[j])
    requires i < |r|
    ensures NoReverse(r[i])
    decreases i
  {
    if i >= |snake| {
      NoReverseAlongGrowth(snake, r, i - 1);
    } else {
      assert r[i] == snake[i];
    }
  }
}
