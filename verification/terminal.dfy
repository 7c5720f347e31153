/** The game-over system, driven by the tick's Deadly collision events. */
module Terminal {
  import opened Collision

  /** One exit request per Deadly event. */
  function ExitRequests(events: seq<CollisionEvent>): (n: nat)
    ensures n == multiset(events)[Deadly]
    decreases |events|
  {
    if events == [] then 0
    else
      assert events == [events[0]] + events[1..];
      (if events[0] == Deadly then 1 else 0) + ExitRequests(events[1..])
  }

  /** The game ends exactly when the tick produced a Deadly event. */
  function GameOver(events: seq<CollisionEvent>): (exit: bool)
    ensures exit <==> Deadly in events
  {
    ExitRequests(events) > 0
  }
}
