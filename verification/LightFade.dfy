/** The fade of one PWM channel: the exponential filter on uint32, its snap, the cached
    duty that decides whether the PWM is written, and when the fade comes to an end. */
module LightFade {
  import opened Arithmetic

  /** (duty_now*15 + current_duty) >> 4 on uint32. */
  function Blend(now: int, target: int): (r: int) {
    ToUint32(now * 15 + target) / 16
  }

  /** ABS_MINUS. */
  function Gap(x: int, y: int): (r: int) {
    if x < y then y - x else x - y
  }

  /** The new duty_now of one tick. */
  function TickDuty(now: int, target: int): (r: int) {
    var d := Blend(now, target);
    if Gap(d, target) < 20 then target else d
  }

  /** The filter is the weighted mean exactly when the sum fits a uint32; duties of
      2^28 are already too large. */
  lemma BlendExact(now: int, target: int)
    requires 0 <= now < 0x1_0000_0000 && 0 <= target < 0x1_0000_0000
    ensures Blend(now, target) == (now * 15 + target) / 16 <==> now * 15 + target < 0x1_0000_0000
  {
  }

  lemma BlendWrapsAt2To28()
    ensures TickDuty(0x1000_0000, 0x1000_0000) == 0
  {
  }

  /** Some duty is one tick away from a target exactly up to 18 beyond 2^28. */
  lemma OneTickAwayExactly(target: int)
    requires 0 <= target < 0x1_0000_0000
    ensures (exists now | 0 <= now < 0x1_0000_0000 :: TickDuty(now, target) == target) <==> target <= 0x1000_0012
  {
    if target < 0x1000_0000 {
      assert TickDuty(target, target) == target;
    } else if target <= 0x1000_0012 {
      var now := (0xFFFF_FFFF - target) / 15;
      BlendAtTop(now, target);
      assert TickDuty(now, target) == target;
    } else {
      forall now | 0 <= now < 0x1_0000_0000 ensures TickDuty(now, target) != target {
        OutOfReach(now, target);
      }
    }
  }

  lemma BlendAtTop(now: int, target: int)
    requires 0x1000_0000 <= target <= 0x1000_0012 && now == (0xFFFF_FFFF - target) / 15
    ensures 0 <= now < 0x1_0000_0000 && Blend(now, target) == 0x0FFF_FFFF
  {
    var x := now * 15 + target;
    assert 0xFFFF_FFF1 <= x <= 0xFFFF_FFFF;
    assert ToUint32(x) == x;
  }

  lemma OutOfReach(now: int, target: int)
    requires 0 <= now < 0x1_0000_0000 && 0x1000_0013 <= target < 0x1_0000_0000
    ensures TickDuty(now, target) != target && 0 <= TickDuty(now, target) < 0x1000_0000
  {
  }

  predicate InRange(d: int) {
    0 <= d < 0x1000_0000
  }

  /** One tick keeps the duty between its old value and the target; a gap that does not
      close shrinks, and its excess over 15 shrinks by a sixteenth. */
  lemma TickShrinks(now: int, target: int)
    requires InRange(now) && InRange(target)
    ensures var d := TickDuty(now, target);
      && (now <= d <= target || target <= d <= now)
      && (d != target ==> Gap(d, target) < Gap(now, target) && 16 * (Gap(d, target) - 15) <= 15 * (Gap(now, target) - 15))
      && (d == target <==> Gap(now, target) <= (if now < target then 20 else 21))
  {
    BlendExact(now, target);
  }

  // ----- a channel -----

  /** duty_now, current_duty, light_param.pwm_duty and the PWM's own duty. */
  datatype Chan = Chan(now: int, target: int, cache: int, pwm: int)

  predicate ChanInRange(c: Chan) {
    InRange(c.now) && InRange(c.target)
  }

  /** user_light_set_duty: the PWM is written only when the cache disagrees. */
  function SetDuty(c: Chan, duty: int): (r: Chan) {
    if duty != c.cache then c.(pwm := duty, cache := duty) else c
  }

  function Tick(c: Chan): (r: Chan) {
    var d := TickDuty(c.now, c.target);
    SetDuty(c.(now := d), d)
  }

  function Ticks(c: Chan, k: nat): (r: Chan)
    decreases k
  {
    if k == 0 then c else Ticks(Tick(c), k - 1)
  }

  /** The channel at rest at its target. */
  predicate Settled(c: Chan) {
    c.now == c.target == c.cache == c.pwm
  }

  /** The one way a channel misses its target: the cache already claims it, the PWM
      does not have it, and the very first tick lands on it. */
  predicate Stuck(c: Chan) {
    c.cache == c.target && c.pwm != c.target && TickDuty(c.now, c.target) == c.target
  }

  lemma {:induction false} SettledStays(c: Chan, k: nat)
    requires ChanInRange(c) && Settled(c)
    ensures Ticks(c, k) == c
  {
    TickShrinks(c.now, c.target);
    if k > 0 { SettledStays(c, k - 1); }
  }

  lemma {:induction false} StuckStays(c: Chan, k: nat)
    requires ChanInRange(c) && Stuck(c)
    ensures Ticks(c, k).pwm == c.pwm && Ticks(c, k).target == c.target
    ensures k > 0 ==> Stuck(Ticks(c, k))
    decreases k
  {
    TickShrinks(c.now, c.target);
    TickShrinks(c.target, c.target);
    if k > 0 { StuckStays(Tick(c), k - 1); }
  }

  /** With cache and PWM in agreement the channel settles within its gap in ticks. */
  lemma {:induction false} SyncedSettles(c: Chan, k: nat)
    requires ChanInRange(c) && c.cache == c.pwm && k >= 1 && k >= Gap(c.now, c.target)
    ensures Settled(Ticks(c, k)) && Ticks(c, k).target == c.target
    decreases k
  {
    TickShrinks(c.now, c.target);
    var c1 := Tick(c);
    if c1.now == c.target {
      SettledStays(c1, k - 1);
    } else {
      SyncedSettles(c1, k - 1);
    }
  }

  /** From any cache and PWM the channel settles, unless it is stuck. */
  lemma SettlesUnlessStuck(c: Chan, k: nat)
    requires ChanInRange(c) && !Stuck(c) && k >= Gap(c.now, c.target) + 2
    ensures Settled(Ticks(c, k)) && Ticks(c, k).target == c.target
  {
    TickShrinks(c.now, c.target);
    var c1 := Tick(c);
    if c1.cache == c1.pwm {
      if c1.now == c1.target { SettledStays(c1, k - 1); } else { SyncedSettles(c1, k - 1); }
    } else {
      TickShrinks(c1.now, c1.target);
      var c2 := Tick(c1);
      if c2.now == c2.target { SettledStays(c2, k - 2); } else { SyncedSettles(c2, k - 2); }
    }
  }

  /** A PWM that is not at such a target never gets there. */
  lemma {:induction false} NeverAtUnreachable(c: Chan, k: nat)
    requires 0 <= c.now < 0x1_0000_0000 && 0x1000_0013 <= c.target < 0x1_0000_0000 && c.pwm != c.target
    ensures Ticks(c, k).pwm != c.target && Ticks(c, k).target == c.target
    decreases k
  {
    if k > 0 {
      OutOfReach(c.now, c.target);
      NeverAtUnreachable(Tick(c), k - 1);
    }
  }

  // ----- all channels -----

  /** light_dh_pwm_adj_proc's loop. */
  function TickAll(cs: seq<Chan>): (r: seq<Chan>)
    ensures |r| == |cs| && forall i | 0 <= i < |cs| :: r[i] == Tick(cs[i])
  {
    seq(|cs|, i requires 0 <= i < |cs| => Tick(cs[i]))
  }

  /** check_pwm_current_duty_diff finds no difference. */
  predicate Reached(cs: seq<Chan>) {
    forall i | 0 <= i < |cs| :: cs[i].pwm == cs[i].target
  }

  function TickAlls(cs: seq<Chan>, k: nat): (r: seq<Chan>)
    ensures |r| == |cs| && forall i | 0 <= i < |cs| :: r[i] == Ticks(cs[i], k)
    decreases k
  {
    if k == 0 then cs else TickAlls(TickAll(cs), k - 1)
  }

  predicate AllInRange(cs: seq<Chan>) {
    forall i | 0 <= i < |cs| :: ChanInRange(cs[i])
  }

  function MaxGap(cs: seq<Chan>): (g: nat)
    ensures forall i | 0 <= i < |cs| :: Gap(cs[i].now, cs[i].target) <= g
    decreases |cs|
  {
    if cs == [] then 0
    else
      var g, last := MaxGap(cs[..|cs| - 1]), Gap(cs[|cs| - 1].now, cs[|cs| - 1].target);
      assert forall i | 0 <= i < |cs| - 1 :: cs[i] == cs[..|cs| - 1][i];
      if last > g then last else g
  }

  predicate NoneStuck(cs: seq<Chan>) {
    forall i | 0 <= i < |cs| :: !Stuck(cs[i])
  }

  lemma NoneStuckSettles(cs: seq<Chan>, k: nat)
    requires AllInRange(cs) && NoneStuck(cs) && k >= MaxGap(cs) + 2
    ensures forall i | 0 <= i < |cs| :: Settled(TickAlls(cs, k)[i]) && TickAlls(cs, k)[i].target == cs[i].target
  {
    forall i | 0 <= i < |cs| ensures Settled(TickAlls(cs, k)[i]) && TickAlls(cs, k)[i].target == cs[i].target {
      SettlesUnlessStuck(cs[i], k);
    }
  }

  lemma StuckNeverReaches(cs: seq<Chan>, k: nat)
    requires AllInRange(cs) && !NoneStuck(cs)
    ensures !Reached(TickAlls(cs, k)) || k == 0
  {
    var i :| 0 <= i < |cs| && Stuck(cs[i]);
    StuckStays(cs[i], k);
    assert TickAlls(cs, k)[i].pwm != TickAlls(cs, k)[i].target;
  }

  /** After `k` ticks, `k` not zero, every PWM is at its target. */
  predicate ReachedAfter(cs: seq<Chan>, k: nat) {
    k >= 1 && Reached(TickAlls(cs, k))
  }

  /** A fade towards fixed targets ends, some tick after its first finding every PWM at
      its target, exactly when no channel is stuck at its start. */
  lemma FadeEndsExactly(cs: seq<Chan>)
    requires AllInRange(cs)
    ensures (exists k: nat :: ReachedAfter(cs, k)) <==> NoneStuck(cs)
  {
    if NoneStuck(cs) {
      NoneStuckSettles(cs, MaxGap(cs) + 2);
      assert ReachedAfter(cs, MaxGap(cs) + 2);
    } else {
      forall k: nat ensures !ReachedAfter(cs, k) {
        StuckNeverReaches(cs, k);
      }
    }
  }

  /** Restoring a saved duty at boot, with the cache loaded from flash and the PWM at
      zero, gets stuck exactly for saved duties from 1 to 20. */
  lemma BootRestoreStuckExactly(saved: int)
    requires InRange(saved)
    ensures Stuck(Chan(0, saved, saved, 0)) <==> 1 <= saved <= 20
  {
    TickShrinks(0, saved);
  }
}
