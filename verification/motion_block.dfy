/** The motion-block timer of `ignore_motion.py`: one module-level instant
    until which motion events are ignored. */
module MotionBlock {

  /** `ignore_motion_until`. */
  datatype Block = Block(until: real)

  /** The value at import time. */
  const Initial: Block := Block(0.0)

  /** `are_we_still_blocked()` at time `now`; the comparison is strict. */
  predicate Blocked(b: Block, now: real)
  {
    now < b.until
  }

  /** `ignore_motion_for(seconds)` at time `now`: the block covers exactly the
      instants from `now` up to, but not including, `now + seconds`, whatever
      the previous block was. */
  function IgnoreFor(b: Block, now: real, seconds: real): (r: Block)
    ensures forall t: real :: now <= t ==> (Blocked(r, t) <==> t < now + seconds)
    ensures !Blocked(r, now + seconds)
    ensures Blocked(r, now) <==> seconds > 0.0
  {
    Block(now + seconds)
  }

  /** Before any call, no non-negative instant is blocked. */
  lemma InitialBlocksNothing(t: real)
    requires t >= 0.0
    ensures !Blocked(Initial, t)
  {
  }

  /** A later call replaces the block instead of extending it, so a shorter
      duration can end an existing block early. */
  lemma LaterCallOverwrites(b: Block, t1: real, s1: real, t2: real, s2: real, t: real)
    ensures IgnoreFor(IgnoreFor(b, t1, s1), t2, s2) == IgnoreFor(b, t2, s2)
    ensures t1 <= t2 && t2 + s2 <= t < t1 + s1 ==> Blocked(IgnoreFor(b, t1, s1), t) && !Blocked(IgnoreFor(IgnoreFor(b, t1, s1), t2, s2), t)
  {
  }
}
