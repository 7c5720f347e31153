/** Keyboard handling: the arrow keys steer the head, a request for the exact
    reverse of the committed direction is dropped, and the input hook handed to
    the rollback layer produces its wire byte. */
module Steering {
  import opened Wrappers
  import opened Geometry
  import opened GameState

  datatype KeyCode = KeyUp | KeyDown | KeyLeft | KeyRight | KeyOther
  datatype ElementState = Pressed | Released
  /** One keyboard event; a key code may be missing. */
  datatype KeyboardInput = KeyboardInput(state: ElementState, keyCode: Option<KeyCode>)

  newtype u8 = n: int | 0 <= n < 256
  /** The one-byte payload exchanged with the peer every frame. */
  datatype BoxInput = BoxInput(inp: u8)

  /** The direction an arrow key asks for; no direction for other keys. */
  function ArrowDirection(key: KeyCode): Option<Direction> {
    match key
    case KeyUp => Some(Up)
    case KeyDown => Some(Down)
    case KeyLeft => Some(Left)
    case KeyRight => Some(Right)
    case KeyOther => None
  }

  /** An arrow that does not ask for the reverse of `curr`. */
  predicate Accepted(curr: Direction, key: KeyCode) {
    ArrowDirection(key).Some? && ArrowDirection(key).value != Opposite(curr)
  }

  /** The key code an event passes on: only a pressed event that carries one. */
  predicate PassesKey(e: KeyboardInput) {
    e.state == Pressed && e.keyCode.Some?
  }

  /** The key codes of the pressed events that carry one, in order. */
  function PressedKeys(events: seq<KeyboardInput>): (keys: seq<KeyCode>)
    ensures |keys| <= |events|
    ensures forall k :: k in keys ==> KeyboardInput(Pressed, Some(k)) in events
    ensures forall e :: e in events && PassesKey(e) ==> e.keyCode.value in keys
    ensures |events| == 1 ==> keys == (if PassesKey(events[0]) then [events[0].keyCode.value] else [])
  {
    if events == [] then []
    else
      var rest := PressedKeys(events[1..]);
      match events[0]
      case KeyboardInput(Pressed, Some(k)) => [k] + rest
      case _ => rest
  }

  /** Filtering distributes over concatenation: with the one-event case above,
      this fixes the result as every passed key, in event order. */
  lemma {:induction false} PressedKeysAppend(a: seq<KeyboardInput>, b: seq<KeyboardInput>)
    ensures PressedKeys(a + b) == PressedKeys(a) + PressedKeys(b)
    decreases |a|
  {
    if a == [] {
      assert a + b == b;
    } else {
      assert (a + b)[0] == a[0] && (a + b)[1..] == a[1..] + b;
      PressedKeysAppend(a[1..], b);
    }
  }

  /** One pass of the key match: the four reversals do nothing, any other arrow
      becomes the head's next direction, any other key does nothing. */
  function ApplyKey(seg: Segment, key: KeyCode): (r: Segment)
    ensures r.curr == seg.curr && r.cell == seg.cell
    ensures Accepted(seg.curr, key) ==> r.next == ArrowDirection(key).value
    ensures !Accepted(seg.curr, key) ==> r == seg
  {
    match (key, seg.curr)
    case (KeyUp, Down) => seg
    case (KeyLeft, Right) => seg
    case (KeyDown, Up) => seg
    case (KeyRight, Left) => seg
    case (KeyUp, _) => seg.(next := Up)
    case (KeyLeft, _) => seg.(next := Left)
    case (KeyDown, _) => seg.(next := Down)
    case (KeyRight, _) => seg.(next := Right)
    case _ => seg
  }

  /** The key loop: every key is matched against the same committed direction,
      so only `next` can change. */
  function ApplyKeys(seg: Segment, keys: seq<KeyCode>): (r: Segment)
    ensures r.curr == seg.curr && r.cell == seg.cell
    ensures NoReverse(seg) ==> NoReverse(r)
    decreases |keys|
  {
    if keys == [] then seg else ApplyKeys(ApplyKey(seg, keys[0]), keys[1..])
  }

  /** The last key of `keys` that `curr` accepts, if any: an independent,
      back-to-front description of what the key loop leaves behind. */
  function LastAccepted(curr: Direction, keys: seq<KeyCode>): Option<Direction>
    decreases |keys|
  {
    if keys == [] then None
    else if Accepted(curr, keys[|keys| - 1]) then ArrowDirection(keys[|keys| - 1])
    else LastAccepted(curr, keys[..|keys| - 1])
  }

  /** The direction-update system applied to the head segment. */
  function UpdateDir(head: Segment, events: seq<KeyboardInput>): (r: Segment)
    ensures r.curr == head.curr && r.cell == head.cell
    ensures NoReverse(head) ==> NoReverse(r)
  {
    ApplyKeys(head, PressedKeys(events))
  }

  /** The input hook: it steers the head with the same match as UpdateDir and
      returns the payload for this frame, which never depends on the keys. */
  function Input(head: Segment, events: seq<KeyboardInput>): (r: (Segment, BoxInput))
    ensures r.0 == UpdateDir(head, events)
    ensures r.1.inp == 0
  {
    var input: u8 := 0;
    (ApplyKeys(head, PressedKeys(events)), BoxInput(input))
  }

  lemma {:induction false} ApplyKeysSnoc(seg: Segment, keys: seq<KeyCode>, k: KeyCode)
    ensures ApplyKeys(seg, keys + [k]) == ApplyKey(ApplyKeys(seg, keys), k)
    decreases |keys|
  {
    if keys == [] {
      assert [] + [k] == [k];
    } else {
      assert (keys + [k])[1..] == keys[1..] + [k];
      ApplyKeysSnoc(ApplyKey(seg, keys[0]), keys[1..], k);
    }
  }

  /** After the key loop the next direction is the last accepted arrow, or the
      old next direction when no arrow was accepted. */
  lemma {:induction false} ApplyKeysTakesLastAccepted(seg: Segment, keys: seq<KeyCode>)
    ensures ApplyKeys(seg, keys).next
         == (match LastAccepted(seg.curr, keys) case Some(d) => d case None => seg.next)
    decreases |keys|
  {
    if keys != [] {
      var init, last := keys[..|keys| - 1], keys[|keys| - 1];
      assert keys == init + [last];
      ApplyKeysSnoc(seg, init, last);
      ApplyKeysTakesLastAccepted(seg, init);
    }
  }

  /** Running the key match twice over the same events (the input hook and the
      direction-update system both read them) gives the same head as once. */
  lemma UpdateDirIdempotent(head: Segment, events: seq<KeyboardInput>)
    ensures UpdateDir(UpdateDir(head, events), events) == UpdateDir(head, events)
  {
    var keys := PressedKeys(events);
    var once := ApplyKeys(head, keys);
    ApplyKeysTakesLastAccepted(head, keys);
    ApplyKeysTakesLastAccepted(once, keys);
  }
}
