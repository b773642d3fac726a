/// Playback control state (pause / running / speed multiplier) and the
/// keyboard handler's key-to-action dispatch.
///
/// The source guards every mutator with a lock so that the listener thread
/// and the playback loop never interleave inside one; here the transitions
/// are simply sequential.
module PlayerControl {

  /** Bounds enforced by set_speed. */
  const MinSpeed: real := 0.1
  const MaxSpeed: real := 5.0
  /** The 'f' key never speeds playback up past this. */
  const SpeedUpCap: real := 3.0
  /** The 's' key never slows playback down below this. */
  const SlowDownFloor: real := 0.3
  /** Factor applied by one 'f' press (multiplied) or one 's' press (divided). */
  const SpeedStep: real := 1.2

  function Min(a: real, b: real): real { if a <= b then a else b }
  function Max(a: real, b: real): real { if a >= b then a else b }

  /** The clamp of set_speed: max(0.1, min(5.0, s)). */
  function ClampSpeed(s: real): (r: real)
    ensures MinSpeed <= r <= MaxSpeed
    ensures MinSpeed <= s <= MaxSpeed ==> r == s
    ensures s < MinSpeed ==> r == MinSpeed
    ensures s > MaxSpeed ==> r == MaxSpeed
  {
    Max(MinSpeed, Min(MaxSpeed, s))
  }

  /** A value snapshot of the three control fields. */
  datatype Controls = Controls(paused: bool, running: bool, speed: real)

  /** The state a fresh player starts in. */
  const Initial: Controls := Controls(false, true, 1.0)

  predicate SpeedInRange(c: Controls) { MinSpeed <= c.speed <= MaxSpeed }

  /** A key event as the listener delivers it: a key with a character, or one of the special keys. */
  datatype Key = Char(c: char) | Space | Esc | OtherSpecial

  function TogglePaused(c: Controls): Controls { c.(paused := !c.paused) }
  function Stopped(c: Controls): Controls { c.(running := false) }
  function WithSpeed(c: Controls, s: real): Controls { c.(speed := ClampSpeed(s)) }

  /**
   * The effect of one key press: the new controls, and whether the listener
   * keeps running (on_press returns False after a quit key, which ends the
   * listener).
   */
  function Press(key: Key, c: Controls): (r: (Controls, bool))
    ensures !r.1 <==> key == Char('q') || key == Esc
    ensures !r.1 ==> !r.0.running
    ensures r.0.paused != c.paused <==> key == Char('p') || key == Char(' ') || key == Space
    ensures r.0.speed != c.speed ==> key == Char('f') || key == Char('s')
  {
    match key
    case Char(ch) =>
      if ch == 'p' || ch == ' ' then (TogglePaused(c), true)
      else if ch == 'q' then (Stopped(c), false)
      else if ch == 'f' then (WithSpeed(c, Min(SpeedUpCap, c.speed * SpeedStep)), true)
      else if ch == 's' then (WithSpeed(c, Max(SlowDownFloor, c.speed / SpeedStep)), true)
      else (c, true)
    case Space => (TogglePaused(c), true)
    case Esc => (Stopped(c), false)
    case OtherSpecial => (c, true)
  }

  /**
   * The dispatch exactly as on_press is written: the special-key branch sits
   * under `except AttributeError`, but `hasattr(key, 'char')` never raises, and
   * it is false for the listener's special keys, so those keys fall through
   * with no effect.
   */
  function PressAsWritten(key: Key, c: Controls): (r: (Controls, bool))
    ensures !r.1 <==> key == Char('q')
    ensures r.0.paused != c.paused <==> key == Char('p') || key == Char(' ')
    ensures r.0.running != c.running ==> key == Char('q')
  {
    match key
    case Char(_) => Press(key, c)
    case _ => (c, true)
  }

  /** Feeds a sequence of key presses to the listener; keys after a quit key are never delivered. */
  function Deliver(keys: seq<Key>, c: Controls): Controls
  {
    if keys == [] then c
    else
      var (d, keepListening) := Press(keys[0], c);
      if keepListening then Deliver(keys[1..], d) else d
  }

  lemma SetSpeedClamps(c: Controls, s: real)
    ensures SpeedInRange(WithSpeed(c, s))
    ensures WithSpeed(c, s).speed == Max(MinSpeed, Min(MaxSpeed, s))
    ensures WithSpeed(c, s).paused == c.paused && WithSpeed(c, s).running == c.running
  {
  }

  lemma TogglePauseTwice(c: Controls)
    ensures TogglePaused(TogglePaused(c)) == c
  {
  }

  /** 'p', ' ' and Space toggle pause and change nothing else. */
  lemma PauseKeys(key: Key, c: Controls)
    requires key == Char('p') || key == Char(' ') || key == Space
    ensures Press(key, c) == (c.(paused := !c.paused), true)
  {
  }

  /** 'q' and Esc stop playback, change nothing else, and end the listener. */
  lemma QuitKeys(key: Key, c: Controls)
    requires key == Char('q') || key == Esc
    ensures Press(key, c) == (c.(running := false), false)
  {
  }

  /** 'f' multiplies the speed by 1.2 but never past 3.0. */
  lemma SpeedUpKey(c: Controls)
    requires SpeedInRange(c)
    ensures Press(Char('f'), c).0 == c.(speed := Min(SpeedUpCap, c.speed * SpeedStep))
    ensures Press(Char('f'), c).0.speed <= SpeedUpCap
    ensures c.speed <= SpeedUpCap ==> Press(Char('f'), c).0.speed >= c.speed
  {
  }

  /** 's' divides the speed by 1.2 but never below 0.3. */
  lemma SlowDownKey(c: Controls)
    requires SpeedInRange(c)
    ensures Press(Char('s'), c).0 == c.(speed := Max(SlowDownFloor, c.speed / SpeedStep))
    ensures Press(Char('s'), c).0.speed >= SlowDownFloor
    ensures c.speed >= SlowDownFloor ==> Press(Char('s'), c).0.speed <= c.speed
  {
  }

  /** Any key outside the dispatch table leaves the state unchanged. */
  lemma OtherKeysIgnored(key: Key, c: Controls)
    requires key != Space && key != Esc
    requires key.Char? ==> key.c !in {'p', ' ', 'q', 'f', 's'}
    ensures Press(key, c) == (c, true)
  {
  }

  /** No key press takes the speed out of [0.1, 5.0] or restarts a stopped player. */
  lemma PressInvariant(key: Key, c: Controls)
    requires SpeedInRange(c)
    ensures SpeedInRange(Press(key, c).0)
    ensures !c.running ==> !Press(key, c).0.running
  {
  }

  /** Over any key sequence the speed stays in range and a stop is never undone. */
  lemma {:induction false} DeliverInvariant(keys: seq<Key>, c: Controls)
    requires SpeedInRange(c)
    ensures SpeedInRange(Deliver(keys, c))
    ensures !c.running ==> !Deliver(keys, c).running
  {
    if keys != [] {
      PressInvariant(keys[0], c);
      var (d, keepListening) := Press(keys[0], c);
      if keepListening {
        DeliverInvariant(keys[1..], d);
      }
    }
  }

  /** Once a quit key is delivered, nothing typed afterwards has any effect. */
  lemma {:induction false} QuitEndsDelivery(keys: seq<Key>, rest: seq<Key>, c: Controls)
    requires |keys| > 0 && (keys[|keys| - 1] == Char('q') || keys[|keys| - 1] == Esc)
    ensures Deliver(keys + rest, c) == Deliver(keys, c)
    ensures !Deliver(keys, c).running
  {
    assert (keys + rest)[0] == keys[0];
    var (d, keepListening) := Press(keys[0], c);
    if |keys| == 1 {
      QuitKeys(keys[0], c);
    } else if keepListening {
      assert (keys + rest)[1..] == keys[1..] + rest;
      QuitEndsDelivery(keys[1..], rest, d);
    }
  }

  function Repeat(key: Key, n: nat): (keys: seq<Key>)
    ensures |keys| == n && forall i :: 0 <= i < n ==> keys[i] == key
  {
    if n == 0 then [] else [key] + Repeat(key, n - 1)
  }

  /**
   * Holding 'f': n >= 1 presses leave the speed at most 3.0 and, from a speed
   * not above 3.0, never lower it; pause and running are untouched.
   */
  lemma {:induction false} RepeatedSpeedUp(n: nat, c: Controls)
    requires SpeedInRange(c)
    ensures var d := Deliver(Repeat(Char('f'), n), c);
      SpeedInRange(d) && d.paused == c.paused && d.running == c.running &&
      (n > 0 ==> d.speed <= SpeedUpCap) &&
      (c.speed <= SpeedUpCap ==> c.speed <= d.speed)
  {
    if n > 0 {
      var keys := Repeat(Char('f'), n);
      var d := Press(Char('f'), c).0;
      SpeedUpKey(c);
      assert keys[0] == Char('f') && keys[1..] == Repeat(Char('f'), n - 1);
      assert Deliver(keys, c) == Deliver(keys[1..], d);
      RepeatedSpeedUp(n - 1, d);
    }
  }

  /**
   * Holding 's': n >= 1 presses leave the speed at least 0.3 and, from a speed
   * not below 0.3, never raise it; pause and running are untouched.
   */
  lemma {:induction false} RepeatedSlowDown(n: nat, c: Controls)
    requires SpeedInRange(c)
    ensures var d := Deliver(Repeat(Char('s'), n), c);
      SpeedInRange(d) && d.paused == c.paused && d.running == c.running &&
      (n > 0 ==> d.speed >= SlowDownFloor) &&
      (c.speed >= SlowDownFloor ==> d.speed <= c.speed)
  {
    if n > 0 {
      var keys := Repeat(Char('s'), n);
      var d := Press(Char('s'), c).0;
      SlowDownKey(c);
      assert keys[0] == Char('s') && keys[1..] == Repeat(Char('s'), n - 1);
      assert Deliver(keys, c) == Deliver(keys[1..], d);
      RepeatedSlowDown(n - 1, d);
    }
  }

  /**
   * The player's shared control state. Every mutator keeps the speed in
   * [0.1, 5.0].
   */
  class PlayerState {
    var isPaused: bool
    var isRunning: bool
    var speed: real

    function Snapshot(): Controls
      reads this
    {
      Controls(isPaused, isRunning, speed)
    }

    ghost predicate Valid()
      reads this
    {
      SpeedInRange(Snapshot())
    }

    constructor ()
      ensures Snapshot() == Initial && Valid()
    {
      isPaused := false;
      isRunning := true;
      speed := 1.0;
    }

    method TogglePause()
      requires Valid()
      modifies this
      ensures Valid() && Snapshot() == TogglePaused(old(Snapshot()))
    {
      isPaused := !isPaused;
    }

    method Stop()
      requires Valid()
      modifies this
      ensures Valid() && Snapshot() == Stopped(old(Snapshot()))
    {
      isRunning := false;
    }

    method SetSpeed(s: real)
      requires Valid()
      modifies this
      ensures Valid() && Snapshot() == WithSpeed(old(Snapshot()), s)
    {
      speed := ClampSpeed(s);
    }
  }

  /** The keyboard listener's callback, bound to one player state. */
  class KeyboardHandler {
    const state: PlayerState

    constructor (state: PlayerState)
      ensures this.state == state
    {
      this.state := state;
    }

    /** Handles one key press; returns false when the listener should stop. */
    method OnPress(key: Key) returns (keepListening: bool)
      requires state.Valid()
      modifies state
      ensures state.Valid()
      ensures (state.Snapshot(), keepListening) == Press(key, old(state.Snapshot()))
    {
      keepListening := true;
      match key
      case Char(ch) =>
        if ch == 'p' || ch == ' ' {
          state.TogglePause();
        } else if ch == 'q' {
          state.Stop();
          keepListening := false;
        } else if ch == 'f' {
          state.SetSpeed(Min(SpeedUpCap, state.speed * SpeedStep));
        } else if ch == 's' {
          state.SetSpeed(Max(SlowDownFloor, state.speed / SpeedStep));
        }
      case Space =>
        state.TogglePause();
      case Esc =>
        state.Stop();
        keepListening := false;
      case OtherSpecial =>
    }
  }

  /** As written, Esc neither stops playback nor ends the listener, and Space does not pause. */
  lemma SpecialKeysIgnoredAsWritten(c: Controls)
    requires c.running
    ensures PressAsWritten(Esc, c) == (c, true) && Press(Esc, c) == (c.(running := false), false)
    ensures PressAsWritten(Space, c) == (c, true) && Press(Space, c).0.paused == !c.paused
  {
  }

  /** The two dispatches agree on every key that carries a character. */
  lemma AsWrittenAgreesOnCharKeys(ch: char, c: Controls)
    ensures PressAsWritten(Char(ch), c) == Press(Char(ch), c)
  {
  }
}
