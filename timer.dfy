/** The three SMP timers (snes_spc/SNES_SPC.cpp:40-76): a prescaler feeding an
    8-bit divider that is compared with an 8-bit target, feeding a 4-bit counter. */
module Timers {
  import opened Bits

  /** One entry of `m.timers`. `period` holds 1..256 (a written 0 means 256),
      `divider` is the 8-bit stage, `counter` the 4-bit output. `nextTime` is the
      time of the next prescaler tick, relative like every other clock here. */
  datatype Timer = Timer(nextTime: int, prescaler: int, period: int, divider: int,
                         enabled: bool, counter: int)

  ghost predicate Valid(t: Timer)
  {
    t.prescaler > 0 && 1 <= t.period <= 256 && 0 <= t.divider < 256 && 0 <= t.counter < 16
  }

  /** `IF_0_THEN_256(n)`, that is `(uint8_t) (n - 1) + 1`. */
  function IfZeroThen256(n: int): (r: int)
    ensures 1 <= r <= 256
    ensures r % 256 == n % 256
    ensures 1 <= n <= 256 ==> r == n
  {
    (n - 1) % 256 + 1
  }

  /** The divider and counter of a timer; the part that ticking changes. */
  datatype Stage = Stage(divider: int, counter: int)

  /** One prescaler tick of an enabled timer, as the hardware does it: the 8-bit
      divider counts up, and when it reaches the target (256 reads as 0) it
      restarts at 0 and the 4-bit counter counts up. */
  function Tick(period: int, s: Stage): Stage
  {
    var d := (s.divider + 1) % 256;
    if d == period % 256 then Stage(0, (s.counter + 1) % 16) else Stage(d, s.counter)
  }

  /** `k` single ticks: the reference the batched update is checked against. */
  function Ticks(period: int, s: Stage, k: nat): (r: Stage)
    requires 0 <= s.divider < 256 && 0 <= s.counter < 16
    ensures 0 <= r.divider < 256 && 0 <= r.counter < 16
    decreases k
  {
    if k == 0 then s else Tick(period, Ticks(period, s, k - 1))
  }

  /** After `j` more ticks an 8-bit divider at `divider` would equal the target. */
  predicate HitsTarget(period: int, divider: int, j: int)
  {
    (divider + j) % 256 == period % 256
  }

  /** Ticks until the divider next matches the target: `IF_0_THEN_256(period - divider)`.
      It is the first count of ticks at which the 8-bit divider equals the target. */
  function Remain(period: int, divider: int): (r: int)
    ensures 1 <= r <= 256
    ensures (divider + r) % 256 == period % 256
  {
    IfZeroThen256(period - divider)
  }

  /** No count of ticks below `Remain` makes the divider match the target. */
  lemma RemainIsFirst(period: int, divider: int, j: int)
    requires 1 <= j < Remain(period, divider)
    ensures !HitsTarget(period, divider, j)
  {
  }

  /** The step from `n` to `n + 1` in quotient and remainder. */
  lemma DivModNext(n: nat, p: int)
    requires p >= 1
    ensures n % p + 1 == p ==> (n + 1) % p == 0 && (n + 1) / p == n / p + 1
    ensures n % p + 1 < p ==> (n + 1) % p == n % p + 1 && (n + 1) / p == n / p
  {
    var q, r := n / p, n % p;
    if r + 1 == p {
      DivUnique(n + 1, p, q + 1, 0);
    } else {
      DivUnique(n + 1, p, q, r + 1);
    }
  }

  /** What is left after taking off whole multiples of `p`. */
  lemma DivRemainder(x: int, p: int, n: int, d: int)
    requires p > 0 && n == x / p && d == x - n * p
    ensures d == x % p
  {
  }

  lemma Mod16Succ(x: int)
    ensures (x % 16 + 1) % 16 == (x + 1) % 16
  {
  }

  /** One tick from a divider below the target: it counts up, or wraps on reaching it. */
  lemma TickBelowTarget(period: int, r: int, c: int)
    requires 1 <= period <= 256 && 0 <= r < period
    ensures Tick(period, Stage(r, c)) ==
              if r + 1 == period then Stage(0, (c + 1) % 16) else Stage(r + 1, c)
  {
  }

  /** One tick before the first match: the divider counts up modulo 256. */
  lemma TickBeforeMatch(period: int, d: int, c: int, k: nat)
    requires 1 <= period <= 256 && 0 <= d < 256 && 1 <= k <= Remain(period, d)
    ensures Tick(period, Stage((d + k - 1) % 256, c)) ==
              if k == Remain(period, d) then Stage(0, (c + 1) % 16) else Stage((d + k) % 256, c)
  {
    assert ((d + k - 1) % 256 + 1) % 256 == (d + k) % 256;
    if k < Remain(period, d) {
      RemainIsFirst(period, d, k);
    }
  }

  /** The batched catch-up of `run_timer_` (wrap with one division instead of a
      per-tick loop) equals ticking one at a time. */
  /** One tick after the first match: the divider wraps around the period and
      each wrap counts the 4-bit counter up. */
  lemma TickAfterMatch(period: int, c: int, over: nat)
    requires 1 <= period <= 256 && 0 <= c < 16
    ensures Tick(period, Stage(over % period, (c + 1 + over / period) % 16)) ==
              Stage((over + 1) % period, (c + 1 + (over + 1) / period) % 16)
  {
    var q, r := over / period, over % period;
    TickBelowTarget(period, r, (c + 1 + q) % 16);
    DivModNext(over, period);
    if r + 1 == period {
      Mod16Succ(c + 1 + q);
    }
  }

  /** The batched catch-up of `run_timer_` (wrap with one division instead of a
      per-tick loop) equals ticking one at a time. */
  lemma {:induction false} BatchedMatchesTicks(period: int, d: int, c: int, k: nat)
    requires 1 <= period <= 256 && 0 <= d < 256 && 0 <= c < 16
    ensures var over := k - Remain(period, d);
            Ticks(period, Stage(d, c), k) ==
              if over >= 0 then Stage(over % period, (c + 1 + over / period) % 16)
              else Stage((d + k) % 256, c)
  {
    var remain := Remain(period, d);
    if k > 0 {
      BatchedMatchesTicks(period, d, c, k - 1);
      var over' := k - 1 - remain;
      if over' < 0 {
        TickBeforeMatch(period, d, c, k);
        if k == remain {
          DivUnique(0, period, 0, 0);
        }
      } else {
        TickAfterMatch(period, c, over');
      }
    }
  }

  /** The branch of `Batched` past the first match, with its intermediate values. */
  lemma WrapMatchesTicks(period: int, divider: int, counter: int, elapsed: nat,
                         over: int, n: int, d: int)
    requires 1 <= period <= 256 && 0 <= divider < 256 && 0 <= counter < 16
    requires over == elapsed - Remain(period, divider) && over >= 0
    requires n == over / period && d == over % period
    ensures Stage(d % 256, (counter + 1 + n) % 16) == Ticks(period, Stage(divider, counter), elapsed)
  {
    assert d % 256 == d;
    BatchedMatchesTicks(period, divider, counter, elapsed);
    assert Ticks(period, Stage(divider, counter), elapsed) == Stage(over % period, (counter + 1 + n) % 16);
  }

  /** The stage update of `run_timer_` for `elapsed` ticks of an enabled timer:
      up to the first match with the target the divider just counts (cast to 8
      bits); the ticks beyond the match wrap around the period with one division,
      each wrap counting the 4-bit counter up (`& 0x0F`). It is the same as ticking
      one at a time. */
  function Batched(period: int, divider: int, counter: int, elapsed: nat): (r: Stage)
    requires 1 <= period <= 256 && 0 <= divider < 256 && 0 <= counter < 16
    ensures r == Ticks(period, Stage(divider, counter), elapsed)
  {
    var over := elapsed - Remain(period, divider);
    if over >= 0 then
      var n := over / period;
      var d := over - n * period;
      DivRemainder(over, period, n, d);
      WrapMatchesTicks(period, divider, counter, elapsed, over, n, d);
      Stage(d % 256, (counter + 1 + n) % 16)
    else
      BatchedMatchesTicks(period, divider, counter, elapsed);
      Stage((divider + elapsed) % 256, counter)
  }

  /** Number of prescaler ticks `run_timer_` counts when catching up to `time`:
      the least `k` that puts the next tick after `time`. */
  function Elapsed(t: Timer, time: int): (k: int)
    requires Valid(t) && time >= t.nextTime
    ensures k >= 1 && t.nextTime + t.prescaler * k > time
    ensures t.nextTime + t.prescaler * (k - 1) <= time
  {
    var q := (time - t.nextTime) / t.prescaler;
    DivRemainder(time - t.nextTime, t.prescaler, q, (time - t.nextTime) - q * t.prescaler);
    q + 1
  }

  /** `run_timer_` on a timer that is due (`time >= nextTime`): it counts the
      prescaler ticks up to `time`, moves `nextTime` to the first tick after
      `time`, and advances an enabled timer's stage by exactly those ticks. */
  function CatchUp(t: Timer, time: int): (r: Timer)
    requires Valid(t) && time >= t.nextTime
    ensures Valid(r)
    ensures r.nextTime == t.nextTime + t.prescaler * Elapsed(t, time)
    ensures r.prescaler == t.prescaler && r.period == t.period && r.enabled == t.enabled
    ensures t.enabled ==>
              Stage(r.divider, r.counter) ==
                Ticks(t.period, Stage(t.divider, t.counter), Elapsed(t, time))
    ensures !t.enabled ==> r.divider == t.divider && r.counter == t.counter
  {
    var elapsed := Elapsed(t, time);
    var next := t.nextTime + t.prescaler * elapsed;
    if t.enabled then
      var s := Batched(t.period, t.divider, t.counter, elapsed);
      t.(nextTime := next, divider := s.divider, counter := s.counter)
    else
      t.(nextTime := next)
  }

  /** `run_timer`: catch up only when a tick is due. Afterwards the next tick
      always lies after `time`. */
  function RunTimer(t: Timer, time: int): (r: Timer)
    requires Valid(t)
    ensures Valid(r) && r.nextTime > time
    ensures r.prescaler == t.prescaler && r.period == t.period && r.enabled == t.enabled
    ensures time < t.nextTime ==> r == t
  {
    if time >= t.nextTime then CatchUp(t, time) else t
  }

  /** Reading a timer's output clears it; a second read at the same time finds no
      tick due and returns 0. */
  lemma SecondReadIsZero(t: Timer, time: int)
    requires Valid(t)
    ensures var first := RunTimer(t, time).(counter := 0);
            RunTimer(first, time).counter == 0
  {
  }
}
