/** The IR LED switch of `camera.py`. The GPIO writes are hardware side
    effects and are not modelled; what remains is the LED flag and the
    motion block the module shares with `ignore_motion.py`. */
module Camera {
  import MotionBlock

  /** Seconds of motion blocking after the LED is switched off. */
  const SettleSeconds: real := 10.0

  datatype Camera = Camera(ledOn: bool, block: MotionBlock.Block)

  /** Import of the module at time `now`: motion is blocked for ten seconds
      and the LED is off. */
  function Init(now: real): (c: Camera)
    ensures !c.ledOn
    ensures forall t: real :: now <= t ==> (MotionBlock.Blocked(c.block, t) <==> t < now + SettleSeconds)
  {
    Camera(false, MotionBlock.IgnoreFor(MotionBlock.Initial, now, SettleSeconds))
  }

  /** `turn_ir_on`: the flag is set and the motion block is untouched. */
  function TurnOn(c: Camera): (r: Camera)
    ensures LedState(r) && r.block == c.block
  {
    c.(ledOn := true)
  }

  /** `turn_ir_off` at time `now`: the flag is cleared and motion is blocked
      for the next ten seconds. */
  function TurnOff(c: Camera, now: real): (r: Camera)
    ensures !LedState(r)
    ensures forall t: real :: now <= t ==> (MotionBlock.Blocked(r.block, t) <==> t < now + SettleSeconds)
  {
    Camera(false, MotionBlock.IgnoreFor(c.block, now, SettleSeconds))
  }

  /** `get_ir_led_state`: reads the flag. */
  function LedState(c: Camera): bool
  {
    c.ledOn
  }

  /** Switching on twice is switching on once, and switching on an LED that
      is already on changes nothing. */
  lemma TurnOnIdempotent(c: Camera)
    ensures TurnOn(TurnOn(c)) == TurnOn(c)
    ensures LedState(c) ==> TurnOn(c) == c
  {
  }
}
