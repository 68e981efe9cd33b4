/** The light engine: a ring of 40 requests, two procedures that call each other, and a
    one-shot fade timer, as a state machine over requests and timer expiries. */
module LightEngine {
  import opened Arithmetic
  import opened LightFade

  /** struct pwm_param, of which five duties are used. */
  datatype Param = Param(period: int, duty: seq<int>)

  datatype Engine = Engine(
    chans: seq<Chan>,    // duty_now, current_duty, the cached and the PWM's duties
    finish: bool,        // change_finish
    armed: bool,         // timer_pwm_adj
    ring: seq<Param>,    // LightEvtArr
    free: int,           // CurFreeLightEvtIdx
    used: int,           // TotalUsedLightEvtNum
    use: int,            // CurEvtIdxToBeUse
    pwmPeriod: int, savedPeriod: int,
    sleeping: bool)      // light_sleep_flg

  predicate Shaped(e: Engine) {
    |e.chans| == 5 && |e.ring| == 40 && (forall i | 0 <= i < 40 :: |e.ring[i].duty| == 5)
    && 0 <= e.free < 40 && 0 <= e.use < 40 && 0 <= e.used <= 40
  }

  /** CurFree follows CurUse by the number of requests in between, modulo 40. */
  predicate RingInv(e: Engine) {
    Shaped(e) && e.free == if e.use + e.used < 40 then e.use + e.used else e.use + e.used - 40
  }

  lemma RingInvIsModular(e: Engine)
    requires Shaped(e)
    ensures RingInv(e) <==> e.free == (e.use + e.used) % 40
  {
  }

  function Aim(cs: seq<Chan>, duty: seq<int>): (r: seq<Chan>)
    requires |duty| == |cs|
    ensures |r| == |cs| && forall i | 0 <= i < |cs| :: r[i] == cs[i].(target := duty[i])
  {
    seq(|cs|, i requires 0 <= i < |cs| => cs[i].(target := duty[i]))
  }

  /** light_save_target_duty: the cache takes the targets. */
  function SaveCache(cs: seq<Chan>): (r: seq<Chan>)
    ensures |r| == |cs| && forall i | 0 <= i < |cs| :: r[i] == cs[i].(cache := cs[i].target)
  {
    seq(|cs|, i requires 0 <= i < |cs| => cs[i].(cache := cs[i].target))
  }

  predicate AllDark(cs: seq<Chan>) {
    forall i | 0 <= i < |cs| :: cs[i].pwm == 0
  }

  /** user_light_set_period. */
  function SetPeriod(e: Engine, period: int): (r: Engine) {
    if period != e.savedPeriod then e.(pwmPeriod := period, savedPeriod := period) else e
  }

  /** The oldest request becomes the target. */
  function Pop(e: Engine): (r: Engine)
    requires Shaped(e) && e.used > 0
    ensures Shaped(r) && r.used == e.used - 1
  {
    SetPeriod(e, e.ring[e.use].period).(
      chans := Aim(e.chans, e.ring[e.use].duty),
      use := if e.use + 1 > 39 then 0 else e.use + 1,
      used := e.used - 1)
  }

  function Save(e: Engine): (r: Engine) {
    e.(chans := SaveCache(e.chans), savedPeriod := e.pwmPeriod,
       sleeping := e.sleeping || AllDark(e.chans))
  }

  /** light_dh_pwm_adj_proc: one tick, then the timer again or the end of the fade. */
  function Adj(e: Engine): (r: Engine)
    requires Shaped(e)
    ensures Shaped(r)
    decreases e.used, 1
  {
    var cs := TickAll(e.chans);
    if !Reached(cs) then e.(chans := cs, finish := false, armed := true)
    else Smooth(e.(chans := cs, finish := true, armed := false))
  }

  /** light_pwm_smooth_adj_proc: take a request, if there is one; when no fade is going
      on, start one for it and save. */
  function Smooth(e: Engine): (r: Engine)
    requires Shaped(e)
    ensures Shaped(r)
    decreases e.used, 0
  {
    var e1 := if e.used > 0 then (var p := Pop(e); if p.finish then Adj(p) else p) else e;
    if e1.finish then Save(e1) else e1
  }

  // ----- requests -----

  function DutyLimit(period: int): (r: int) {
    ToUint32(period * 1000) / 45
  }

  /** The request light_set_aim stores, without the optional current limiter. */
  function Request(aim: seq<int>, period: int): (p: Param)
    requires |aim| == 5
    ensures |p.duty| == 5 && forall i | 0 <= i < 5 :: p.duty[i] == Min(aim[i], DutyLimit(period))
  {
    Param(Min(period, 10000), seq(5, i requires 0 <= i < 5 => Min(aim[i], DutyLimit(period))))
  }

  /** light_set_aim: a full ring drops the request. */
  function SetAim(e: Engine, aim: seq<int>, period: int): (r: Engine)
    requires Shaped(e) && |aim| == 5
    ensures Shaped(r)
  {
    if e.used + 1 > 40 then e
    else Smooth(e.(ring := e.ring[e.free := Request(aim, period)],
                   free := if e.free + 1 > 39 then 0 else e.free + 1,
                   used := e.used + 1))
  }

  /** light_set_aim_r and its four sisters. */
  function SetAimOf(e: Engine, ch: nat, duty: int): (r: Engine)
    requires Shaped(e) && ch < 5
    ensures Shaped(r)
  {
    Smooth(e.(chans := e.chans[ch := e.chans[ch].(target := duty)]))
  }

  /** Every duty light_set_aim can store is in the filter's range. */
  lemma RequestInRange(aim: seq<int>, period: int)
    requires |aim| == 5 && forall i | 0 <= i < 5 :: aim[i] >= 0
    ensures forall i | 0 <= i < 5 :: InRange(Request(aim, period).duty[i])
  {
    assert DutyLimit(period) <= 0xFFFF_FFFF / 45 < 0x1000_0000;
  }

  // ----- what every step keeps -----

  /** Between two steps no request waits, and the timer runs exactly while a fade does. */
  predicate AtRest(e: Engine) {
    RingInv(e) && e.used == 0 && (e.armed <==> !e.finish)
  }

  /** The channels one tick later, with the cache saved if that ended the fade. */
  function Ticked(cs: seq<Chan>): (r: seq<Chan>)
    ensures |r| == |cs|
  {
    if Reached(TickAll(cs)) then SaveCache(TickAll(cs)) else TickAll(cs)
  }

  /** With no request waiting, a tick ends the fade or re-arms the timer. */
  lemma AdjOfNone(e: Engine)
    requires RingInv(e) && e.used == 0
    ensures AtRest(Adj(e)) && Adj(e).use == e.use
    ensures Adj(e).finish <==> Reached(TickAll(e.chans))
    ensures Adj(e).chans == Ticked(e.chans)
  {
  }

  /** A request is never refused; it is the newest and is taken at once. The target is
      the request's, a fade in progress goes on towards it, and otherwise one starts. */
  lemma SetAimTakesLatest(e: Engine, aim: seq<int>, period: int)
    requires AtRest(e) && |aim| == 5
    ensures var r := SetAim(e, aim, period);
      && AtRest(r)
      && (forall i | 0 <= i < 5 :: r.chans[i].target == Min(aim[i], DutyLimit(period)))
      && (!e.finish ==> !r.finish && r.chans == Aim(e.chans, Request(aim, period).duty))
      && (e.finish ==> r.finish == Reached(TickAll(Aim(e.chans, Request(aim, period).duty)))
                       && r.chans == Ticked(Aim(e.chans, Request(aim, period).duty)))
  {
    var pushed := e.(ring := e.ring[e.free := Request(aim, period)],
                     free := if e.free + 1 > 39 then 0 else e.free + 1,
                     used := e.used + 1);
    var p := Pop(pushed);
    assert p.chans == Aim(e.chans, Request(aim, period).duty);
    assert RingInv(p);
    if p.finish {
      AdjOfNone(p);
      assert SaveCache(SaveCache(TickAll(p.chans))) == SaveCache(TickAll(p.chans));
    }
  }

  /** The target for a duty asked for with some period, where `p` is what a uint32 keeps of
      the period times 1000: the duty itself up to p/45, and p/45, rounded down, beyond. */
  predicate ClippedTo(d: int, asked: int, p: int) {
    if 45 * asked <= p then d == asked else 45 * d <= p < 45 * (d + 1)
  }

  lemma DutyLimitIs(period: int)
    ensures 45 * DutyLimit(period) <= period * 1000 % 0x1_0000_0000 < 45 * (DutyLimit(period) + 1)
  {
  }

  /** What a request makes the channels aim at. */
  lemma SetAimClips(e: Engine, aim: seq<int>, period: int)
    requires AtRest(e) && |aim| == 5 && period >= 0
    ensures forall i | 0 <= i < 5 ::
      ClippedTo(SetAim(e, aim, period).chans[i].target, aim[i], period * 1000 % 0x1_0000_0000)
    ensures period * 1000 < 0x1_0000_0000 ==> forall i | 0 <= i < 5 ::
      ClippedTo(SetAim(e, aim, period).chans[i].target, aim[i], 1000 * period)
  {
    SetAimTakesLatest(e, aim, period);
    DutyLimitIs(period);
    forall i | 0 <= i < 5
      ensures ClippedTo(Min(aim[i], DutyLimit(period)), aim[i], period * 1000 % 0x1_0000_0000)
    {
    }
  }

  lemma ExpireKeepsRest(e: Engine)
    requires AtRest(e)
    ensures AtRest(Adj(e))
    ensures forall i | 0 <= i < 5 :: Adj(e).chans[i].target == e.chans[i].target
  {
    AdjOfNone(e);
  }

  /** Aiming one channel starts no fade: between fades it changes the target and the
      cache, and leaves the PWM and the timer as they are. */
  lemma SetAimOfStartsNoFade(e: Engine, ch: nat, duty: int)
    requires AtRest(e) && ch < 5
    ensures var r := SetAimOf(e, ch, duty);
      && AtRest(r) && r.finish == e.finish && r.chans[ch].target == duty
      && (forall i | 0 <= i < 5 :: r.chans[i].pwm == e.chans[i].pwm && r.chans[i].now == e.chans[i].now)
      && (e.finish ==> r.chans[ch].cache == duty)
  {
  }

  // ----- whole runs of requests and expiries -----

  datatype Event = Aimed(aim: seq<int>, period: int) | AimedOne(ch: nat, duty: int) | Expired

  predicate GoodEvent(ev: Event) {
    && (ev.Aimed? ==> |ev.aim| == 5 && forall i | 0 <= i < 5 :: ev.aim[i] >= 0)
    && (ev.AimedOne? ==> ev.ch < 5 && ev.duty >= 0)
  }

  /** An expiry only comes from an armed timer. */
  function Step(e: Engine, ev: Event): (r: Engine)
    requires Shaped(e) && GoodEvent(ev)
    ensures Shaped(r)
  {
    match ev
    case Aimed(aim, period) => SetAim(e, aim, period)
    case AimedOne(ch, duty) => SetAimOf(e, ch, duty)
    case Expired => if e.armed then Adj(e.(armed := false)) else e
  }

  function RunAll(e: Engine, evs: seq<Event>): (r: Engine)
    requires Shaped(e) && forall i | 0 <= i < |evs| :: GoodEvent(evs[i])
    ensures Shaped(r)
    decreases |evs|
  {
    if evs == [] then e else Step(RunAll(e, evs[..|evs| - 1]), evs[|evs| - 1])
  }

  /** The duty the last event that aims a channel wants for it, clipped if it was a
      request for all channels. */
  function Latest(evs: seq<Event>, i: nat, start: int): (d: int)
    requires i < 5 && forall j | 0 <= j < |evs| :: GoodEvent(evs[j])
    decreases |evs|
  {
    if evs == [] then start
    else
      assert GoodEvent(evs[|evs| - 1]);
      match evs[|evs| - 1]
      case Aimed(aim, period) => Min(aim[i], DutyLimit(period))
      case AimedOne(ch, duty) => if ch == i then duty else Latest(evs[..|evs| - 1], i, start)
      case Expired => Latest(evs[..|evs| - 1], i, start)
  }

  lemma StepRests(e: Engine, ev: Event)
    requires AtRest(e) && GoodEvent(ev)
    ensures AtRest(Step(e, ev))
    ensures forall i: nat | i < 5 :: Step(e, ev).chans[i].target == Latest([ev], i, e.chans[i].target)
  {
    match ev
    case Aimed(aim, period) => SetAimTakesLatest(e, aim, period);
    case AimedOne(ch, duty) => SetAimOfStartsNoFade(e, ch, duty);
    case Expired => if e.armed { ExpiryRests(e); }
  }

  lemma ExpiryRests(e: Engine)
    requires AtRest(e) && e.armed
    ensures AtRest(Step(e, Expired))
    ensures forall i | 0 <= i < 5 :: Step(e, Expired).chans[i].target == e.chans[i].target
  {
    AdjOfNone(e.(armed := false));
  }

  lemma LatestSnoc(evs: seq<Event>, i: nat, start: int)
    requires evs != [] && i < 5 && forall j | 0 <= j < |evs| :: GoodEvent(evs[j])
    ensures Latest(evs, i, start) == Latest([evs[|evs| - 1]], i, Latest(evs[..|evs| - 1], i, start))
  {
  }

  /** Over every run of all the public entries and expiries, the ring is empty between
      steps, the timer runs exactly while a fade does, and every channel aims at the
      latest duty it was given. */
  lemma {:induction false} EveryRunRests(e: Engine, evs: seq<Event>)
    requires AtRest(e) && forall i | 0 <= i < |evs| :: GoodEvent(evs[i])
    ensures AtRest(RunAll(e, evs))
    ensures forall i: nat | i < 5 :: RunAll(e, evs).chans[i].target == Latest(evs, i, e.chans[i].target)
    decreases |evs|
  {
    if evs != [] {
      var m := |evs| - 1;
      EveryRunRests(e, evs[..m]);
      StepRests(RunAll(e, evs[..m]), evs[m]);
      forall i: nat | i < 5 ensures RunAll(e, evs).chans[i].target == Latest(evs, i, e.chans[i].target) {
        LatestSnoc(evs, i, e.chans[i].target);
      }
    }
  }

  // ----- the period, and going to sleep -----

  /** The period the last request for all channels asks for, at most 10000. */
  function LatestPeriod(evs: seq<Event>, start: int): (p: int)
    decreases |evs|
  {
    if evs == [] then start
    else
      match evs[|evs| - 1]
      case Aimed(_, period) => if period <= 10000 then period else 10000
      case _ => LatestPeriod(evs[..|evs| - 1], start)
  }

  lemma AdjOfNoneRest(e: Engine)
    requires RingInv(e) && e.used == 0
    ensures var r := Adj(e);
      && r.pwmPeriod == e.pwmPeriod && (r.finish ==> r.savedPeriod == e.pwmPeriod)
      && (!r.finish ==> r.savedPeriod == e.savedPeriod)
      && (r.sleeping <==> e.sleeping || (r.finish && AllDark(TickAll(e.chans))))
  {
  }

  /** The engine with a request taken off the ring, before anything moves. */
  lemma SetAimIs(e: Engine, aim: seq<int>, period: int) returns (p: Engine)
    requires AtRest(e) && |aim| == 5
    ensures RingInv(p) && p.used == 0 && p.finish == e.finish && p.sleeping == e.sleeping
    ensures p.chans == Aim(e.chans, Request(aim, period).duty)
    ensures e.pwmPeriod == e.savedPeriod ==> p.pwmPeriod == p.savedPeriod == Min(period, 10000)
    ensures SetAim(e, aim, period) == if p.finish then (var q := Adj(p); if q.finish then Save(q) else q) else p
  {
    p := Pop(e.(ring := e.ring[e.free := Request(aim, period)],
                free := if e.free + 1 > 39 then 0 else e.free + 1,
                used := e.used + 1));
  }

  /** Did an event end in a saved state: the fade is over, and it was not an expiry that
      found no timer? */
  predicate Saves(e: Engine, ev: Event)
    requires Shaped(e) && GoodEvent(ev)
  {
    Step(e, ev).finish && !(ev.Expired? && !e.armed)
  }

  /** Every step keeps the saved period and the PWM's equal, at what was last asked for;
      and it lets the radio sleep exactly when it ends with the fade over and every PWM
      dark. */
  lemma StepPeriodAndSleep(e: Engine, ev: Event)
    requires AtRest(e) && e.pwmPeriod == e.savedPeriod && GoodEvent(ev)
    ensures var r := Step(e, ev);
      && r.pwmPeriod == r.savedPeriod == LatestPeriod([ev], e.pwmPeriod)
      && (r.sleeping <==> e.sleeping || (Saves(e, ev) && forall i | 0 <= i < 5 :: r.chans[i].pwm == 0))
  {
    match ev
    case Aimed(aim, period) =>
      var p := SetAimIs(e, aim, period);
      if p.finish { AdjOfNone(p); AdjOfNoneRest(p); }
    case AimedOne(ch, duty) => SetAimOfStartsNoFade(e, ch, duty);
    case Expired =>
      if e.armed {
        AdjOfNone(e.(armed := false));
        AdjOfNoneRest(e.(armed := false));
      }
  }

  /** Over every run the PWM's period is the one last asked for, at most 10000, and the one
      that is saved. */
  lemma {:induction false} EveryRunPeriod(e: Engine, evs: seq<Event>)
    requires AtRest(e) && e.pwmPeriod == e.savedPeriod && forall i | 0 <= i < |evs| :: GoodEvent(evs[i])
    ensures RunAll(e, evs).pwmPeriod == RunAll(e, evs).savedPeriod == LatestPeriod(evs, e.pwmPeriod)
    decreases |evs|
  {
    if evs != [] {
      var m := |evs| - 1;
      EveryRunPeriod(e, evs[..m]);
      EveryRunRests(e, evs[..m]);
      StepPeriodAndSleep(RunAll(e, evs[..m]), evs[m]);
      LatestPeriodSnoc(evs, e.pwmPeriod);
    }
  }

  lemma LatestPeriodSnoc(evs: seq<Event>, start: int)
    requires evs != []
    ensures LatestPeriod(evs, start) == LatestPeriod([evs[|evs| - 1]], LatestPeriod(evs[..|evs| - 1], start))
  {
  }

  /** The events that leave the cache true: all but the single-channel setters. */
  predicate KeepsCache(ev: Event) {
    GoodEvent(ev) && !ev.AimedOne?
  }

  /** Cache and PWM agree everywhere, duties are in range, and a finished fade has
      every channel at its target. */
  predicate Synced(e: Engine) {
    && AtRest(e)
    && (forall i | 0 <= i < 5 :: ChanInRange(e.chans[i]) && e.chans[i].cache == e.chans[i].pwm)
    && (e.finish ==> forall i | 0 <= i < 5 :: Settled(e.chans[i]))
  }

  lemma TickAllSynced(cs: seq<Chan>)
    requires forall i | 0 <= i < |cs| :: ChanInRange(cs[i]) && cs[i].cache == cs[i].pwm
    ensures forall i | 0 <= i < |cs| :: ChanInRange(TickAll(cs)[i])
    ensures forall i | 0 <= i < |cs| :: TickAll(cs)[i].cache == TickAll(cs)[i].pwm == TickAll(cs)[i].now
    ensures forall i | 0 <= i < |cs| :: TickAll(cs)[i].target == cs[i].target
  {
    forall i | 0 <= i < |cs| ensures ChanInRange(Tick(cs[i])) {
      TickShrinks(cs[i].now, cs[i].target);
    }
  }

  lemma StepKeepsSynced(e: Engine, ev: Event)
    requires Synced(e) && KeepsCache(ev)
    ensures Synced(Step(e, ev))
  {
    match ev
    case Aimed(aim, period) =>
      RequestInRange(aim, period);
      SetAimTakesLatest(e, aim, period);
      AimKeepsSynced(e, aim, period);
    case Expired =>
      if e.armed {
        AdjOfNone(e.(armed := false));
        TickedSynced(e.chans);
      }
  }

  lemma AimKeepsSynced(e: Engine, aim: seq<int>, period: int)
    requires Synced(e) && |aim| == 5 && (forall i | 0 <= i < 5 :: InRange(Request(aim, period).duty[i]))
    ensures Synced(SetAim(e, aim, period))
  {
    SetAimTakesLatest(e, aim, period);
    var cs := Aim(e.chans, Request(aim, period).duty);
    if e.finish { TickedSynced(cs); }
  }

  lemma TickedSynced(cs: seq<Chan>)
    requires forall i | 0 <= i < |cs| :: ChanInRange(cs[i]) && cs[i].cache == cs[i].pwm
    ensures forall i | 0 <= i < |cs| :: ChanInRange(Ticked(cs)[i]) && Ticked(cs)[i].cache == Ticked(cs)[i].pwm
    ensures forall i | 0 <= i < |cs| :: Ticked(cs)[i].target == cs[i].target
    ensures Reached(TickAll(cs)) ==> forall i | 0 <= i < |cs| :: Settled(Ticked(cs)[i])
  {
    TickAllSynced(cs);
  }

  /** The state at power-up with nothing saved: dark, settled, no timer. */
  function Dark(ring: seq<Param>, period: int): (e: Engine)
    requires |ring| == 40 && forall i | 0 <= i < 40 :: |ring[i].duty| == 5
    ensures Synced(e)
  {
    Engine(seq(5, i => Chan(0, 0, 0, 0)), true, false, ring, 0, 0, 0, period, period, false)
  }

  function Run(e: Engine, evs: seq<Event>): (r: Engine)
    requires Synced(e) && forall i | 0 <= i < |evs| :: KeepsCache(evs[i])
    ensures Synced(r)
    decreases |evs|
  {
    if evs == [] then e
    else
      var m := |evs| - 1;
      var p := Run(e, evs[..m]);
      StepKeepsSynced(p, evs[m]);
      Step(p, evs[m])
  }

  /** After any run of requests and expiries, no matter how they interleave, expiries
      alone bring every PWM to the latest target and then stop the timer. */
  lemma FadeConverges(e: Engine, evs: seq<Event>, k: nat)
    requires Synced(e) && forall i | 0 <= i < |evs| :: KeepsCache(evs[i])
    requires k >= MaxGap(Run(e, evs).chans) + 1
    ensures var s := Run(e, evs);
      var r := Expiries(s, k);
      r.finish && !r.armed
      && forall i | 0 <= i < 5 :: Settled(r.chans[i]) && r.chans[i].target == s.chans[i].target
  {
    ExpiriesConverge(Run(e, evs), k);
  }

  function Expiries(e: Engine, k: nat): (r: Engine)
    requires Shaped(e)
    ensures Shaped(r)
    decreases k
  {
    if k == 0 then e else Expiries(Step(e, Expired), k - 1)
  }

  /** Both aim at the same duties. */
  predicate SameTargets(a: Engine, b: Engine) {
    |a.chans| == |b.chans| == 5 && forall i | 0 <= i < 5 :: a.chans[i].target == b.chans[i].target
  }

  lemma {:induction false} ExpiriesConverge(e: Engine, k: nat)
    requires Synced(e) && k >= MaxGap(e.chans) + 1
    ensures var r := Expiries(e, k);
      Synced(r) && r.finish && SameTargets(r, e)
    decreases k, 1
  {
    if e.finish {
      FinishedStays(e, k);
    } else {
      StepKeepsSynced(e, Expired);
      ExpiryShrinks(e);
      AfterExpiry(e, Step(e, Expired), k);
    }
  }

  lemma {:induction false} AfterExpiry(e: Engine, e1: Engine, k: nat)
    requires Synced(e) && Synced(e1) && SameTargets(e1, e) && e1 == Step(e, Expired)
    requires k >= MaxGap(e.chans) + 1 && (e1.finish || MaxGap(e1.chans) < MaxGap(e.chans))
    ensures var r := Expiries(e, k);
      Synced(r) && r.finish && SameTargets(r, e)
    decreases k, 0
  {
    if e1.finish { FinishedStays(e1, k - 1); } else { ExpiriesConverge(e1, k - 1); }
  }

  lemma {:induction false} FinishedStays(e: Engine, k: nat)
    requires Synced(e) && e.finish
    ensures Expiries(e, k) == e
  {
    if k > 0 { FinishedStays(e, k - 1); }
  }

  /** An expiry during a fade ends it or strictly shrinks the largest gap. */
  lemma ExpiryShrinks(e: Engine)
    requires Synced(e) && !e.finish
    ensures var r := Step(e, Expired);
      && SameTargets(r, e)
      && (r.finish || MaxGap(r.chans) < MaxGap(e.chans))
  {
    AdjOfNone(e.(armed := false));
    TickAllSynced(e.chans);
    var cs := TickAll(e.chans);
    if !Reached(cs) {
      var j := WidestGap(cs);
      forall i | 0 <= i < 5 ensures Gap(cs[i].now, cs[i].target) == 0 || Gap(cs[i].now, cs[i].target) < MaxGap(e.chans) {
        TickShrinks(e.chans[i].now, e.chans[i].target);
      }
      var i :| 0 <= i < |cs| && cs[i].pwm != cs[i].target;
      assert Gap(cs[i].now, cs[i].target) > 0;
    }
  }

  lemma {:induction false} WidestGap(cs: seq<Chan>) returns (j: nat)
    requires cs != []
    ensures j < |cs| && MaxGap(cs) == Gap(cs[j].now, cs[j].target)
    decreases |cs|
  {
    var m := |cs| - 1;
    assert m == 0 ==> MaxGap(cs[..m]) == 0;
    if MaxGap(cs) == Gap(cs[m].now, cs[m].target) { j := m; }
    else { j := WidestGap(cs[..m]); }
  }

  // ----- any cache: exactly when a fade ends -----

  /** From any state at rest, whatever cache and PWM hold, a fade in progress towards a
      fixed target ends exactly when none of its channels is stuck. */
  lemma FadeFinishesExactly(e: Engine)
    requires AtRest(e) && !e.finish && AllInRange(e.chans)
    ensures (exists k: nat :: Expiries(e, k).finish) <==> NoneStuck(e.chans)
  {
    if NoneStuck(e.chans) {
      FadeEndsExactly(e.chans);
      var k: nat :| ReachedAfter(e.chans, k);
      var j := FinishesBy(e, k);
      assert Expiries(e, j).finish;
    } else {
      forall k: nat ensures !Expiries(e, k).finish {
        NeverFinishes(e, k);
      }
    }
  }

  lemma {:induction false} FinishesBy(e: Engine, k: nat) returns (j: nat)
    requires AtRest(e) && !e.finish && ReachedAfter(e.chans, k)
    ensures Expiries(e, j).finish
    decreases k
  {
    AdjOfNone(e.(armed := false));
    var e1 := Step(e, Expired);
    assert Expiries(e1, 0) == e1;
    if e1.finish {
      j := 1;
    } else {
      assert TickAlls(e.chans, k) == TickAlls(e1.chans, k - 1);
      assert k == 1 ==> TickAlls(e1.chans, 0) == e1.chans;
      var i := FinishesBy(e1, k - 1);
      j := i + 1;
    }
  }

  lemma {:induction false} NeverFinishes(e: Engine, k: nat)
    requires AtRest(e) && !e.finish && AllInRange(e.chans) && !NoneStuck(e.chans)
    ensures !Expiries(e, k).finish
    decreases k
  {
    if k > 0 {
      AdjOfNone(e.(armed := false));
      var e1 := Step(e, Expired);
      StuckNeverReaches(e.chans, 1);
      assert TickAlls(TickAll(e.chans), 0) == TickAll(e.chans);
      var i :| 0 <= i < |e.chans| && Stuck(e.chans[i]);
      StuckStays(e.chans[i], 1);
      assert Ticks(Tick(e.chans[i]), 0) == Tick(e.chans[i]) == e1.chans[i];
      forall c | 0 <= c < 5 ensures ChanInRange(e1.chans[c]) {
        TickShrinks(e.chans[c].now, e.chans[c].target);
      }
      NeverFinishes(e1, k - 1);
    }
  }

  // ----- a new request: exactly when its fade ends -----

  lemma FinishedAtOnce(e: Engine)
    requires Shaped(e) && e.finish
    ensures exists k: nat :: Expiries(e, k).finish
  {
    assert Expiries(e, 0) == e;
    assert Expiries(e, 0).finish;
  }

  /** A request, made at rest or during a fade, is faded to the end exactly when none of
      its channels is stuck. */
  lemma RequestFinishesExactly(e: Engine, aim: seq<int>, period: int)
    requires AtRest(e) && |aim| == 5
    requires forall i | 0 <= i < 5 :: aim[i] >= 0 && InRange(e.chans[i].now)
    ensures (exists k: nat :: Expiries(SetAim(e, aim, period), k).finish)
       <==> NoneStuck(Aim(e.chans, Request(aim, period).duty))
  {
    var cs, r := Aim(e.chans, Request(aim, period).duty), SetAim(e, aim, period);
    RequestInRange(aim, period);
    SetAimTakesLatest(e, aim, period);
    if !e.finish {
      FadeFinishesExactly(r);
    } else if r.finish {
      FinishedAtOnce(r);
      TickReveals(cs);
    } else {
      TickReveals(cs);
      FadeFinishesExactly(r);
    }
  }

  /** A tick neither makes a channel stuck nor frees it, and with a stuck channel it does
      not reach every target. */
  lemma TickReveals(cs: seq<Chan>)
    requires AllInRange(cs)
    ensures AllInRange(TickAll(cs)) && (NoneStuck(TickAll(cs)) <==> NoneStuck(cs))
    ensures Reached(TickAll(cs)) ==> NoneStuck(cs)
  {
    forall i | 0 <= i < |cs|
      ensures ChanInRange(TickAll(cs)[i]) && (Stuck(TickAll(cs)[i]) <==> Stuck(cs[i]))
      ensures Stuck(cs[i]) ==> TickAll(cs)[i].pwm != TickAll(cs)[i].target
    {
      StuckThroughTick(cs[i]);
    }
    if !NoneStuck(cs) {
      var i :| 0 <= i < |cs| && Stuck(cs[i]);
      assert Stuck(TickAll(cs)[i]);
    }
  }

  lemma StuckThroughTick(c: Chan)
    requires ChanInRange(c)
    ensures ChanInRange(Tick(c)) && (Stuck(Tick(c)) <==> Stuck(c))
    ensures Stuck(c) ==> Tick(c).pwm != Tick(c).target
  {
    TickShrinks(c.now, c.target);
    TickShrinks(c.target, c.target);
  }

  /** The engine when user_light_init has loaded the saved duties into the cache: the PWM
      and the filter are at zero, and no fade is going on. */
  function Booted(saved: seq<int>, ring: seq<Param>, period: int): (e: Engine)
    requires |saved| == 5 && |ring| == 40 && forall i | 0 <= i < 40 :: |ring[i].duty| == 5
    ensures AtRest(e)
  {
    Engine(seq(5, i requires 0 <= i < 5 => Chan(0, 0, saved[i], 0)), true, false, ring, 0, 0, 0,
           period, period, false)
  }

  /** After boot the fade to the saved duties ends exactly when none of them is 1 to 20. */
  lemma BootFadeFinishesExactly(saved: seq<int>, ring: seq<Param>, period: int)
    requires |saved| == 5 && |ring| == 40 && forall i | 0 <= i < 40 :: |ring[i].duty| == 5
    requires 1000 <= period <= 10000 && forall i | 0 <= i < 5 :: 0 <= saved[i] < 0x1_0000_0000
    ensures (exists k: nat :: Expiries(SetAim(Booted(saved, ring, period), saved, period), k).finish)
       <==> forall i | 0 <= i < 5 :: !(1 <= saved[i] <= 20)
  {
    var e := Booted(saved, ring, period);
    RequestFinishesExactly(e, saved, period);
    var cs := Aim(e.chans, Request(saved, period).duty);
    assert DutyLimit(period) >= 22222;
    forall i | 0 <= i < 5 ensures Stuck(cs[i]) <==> 1 <= saved[i] <= 20 {
      assert cs[i] == Chan(0, Min(saved[i], DutyLimit(period)), saved[i], 0);
      RequestInRange(saved, period);
      TickShrinks(0, cs[i].target);
    }
  }

  /** How aiming one channel breaks a later fade: from rest at `old`, light_set_aim_r and
      then a fade to the same duty leave the channel stuck exactly when one tick gets there. */
  lemma SetAimOfStuckExactly(e: Engine, ch: nat, duty: int)
    requires Synced(e) && e.finish && ch < 5 && InRange(duty)
    ensures var c := SetAimOf(e, ch, duty).chans[ch];
      Stuck(c) <==> duty != e.chans[ch].now
                    && Gap(e.chans[ch].now, duty) <= (if e.chans[ch].now < duty then 20 else 21)
  {
    SetAimOfStartsNoFade(e, ch, duty);
    TickShrinks(e.chans[ch].now, duty);
  }

  /** A request that repeats the duty of a single-channel setter is faded to the end
      exactly when that duty was clipped, or was there already, or is more than one tick
      away. */
  lemma FadeAfterSetterExactly(e: Engine, ch: nat, duty: int, aim: seq<int>, period: int)
    requires Synced(e) && e.finish && ch < 5 && InRange(duty)
    requires |aim| == 5 && aim[ch] == duty && forall i | 0 <= i < 5 :: aim[i] >= 0
    ensures (exists k: nat :: Expiries(SetAim(SetAimOf(e, ch, duty), aim, period), k).finish)
       <==> !(duty <= DutyLimit(period) && duty != e.chans[ch].now
              && Gap(e.chans[ch].now, duty) <= (if e.chans[ch].now < duty then 20 else 21))
  {
    var f := SetAimOf(e, ch, duty);
    SetAimOfStartsNoFade(e, ch, duty);
    SetterLeavesOthers(e, ch, duty);
    RequestFinishesExactly(f, aim, period);
    RequestInRange(aim, period);
    var cs := Aim(f.chans, Request(aim, period).duty);
    assert forall i | 0 <= i < 5 && i != ch :: !Stuck(cs[i]);
    assert cs[ch] == Chan(e.chans[ch].now, Min(duty, DutyLimit(period)), duty, e.chans[ch].now);
    TickShrinks(e.chans[ch].now, cs[ch].target);
    assert NoneStuck(cs) <==> !Stuck(cs[ch]);
  }

  lemma SetterLeavesOthers(e: Engine, ch: nat, duty: int)
    requires Synced(e) && e.finish && ch < 5
    ensures forall i | 0 <= i < 5 && i != ch :: SetAimOf(e, ch, duty).chans[i] == e.chans[i]
    ensures SetAimOf(e, ch, duty).chans[ch] == e.chans[ch].(target := duty, cache := duty)
  {
  }

  /** A fade towards a target more than 18 beyond 2^28, which only a single-channel setter
      during a fade can give it, never ends. */
  lemma {:induction false} FadeToUnreachable(e: Engine, ch: nat, k: nat)
    requires AtRest(e) && !e.finish && ch < 5
    requires forall i | 0 <= i < 5 :: 0 <= e.chans[i].now < 0x1_0000_0000 && 0 <= e.chans[i].target < 0x1_0000_0000
    requires e.chans[ch].target >= 0x1000_0013 && e.chans[ch].pwm != e.chans[ch].target
    ensures !Expiries(e, k).finish
    decreases k
  {
    if k > 0 {
      AdjOfNone(e.(armed := false));
      var cs := TickAll(e.chans);
      OutOfReach(e.chans[ch].now, e.chans[ch].target);
      assert cs[ch] == Tick(e.chans[ch]) && cs[ch].pwm != cs[ch].target;
      forall i | 0 <= i < 5 ensures 0 <= cs[i].now < 0x1_0000_0000 {
        TickIsWord(e.chans[i].now, e.chans[i].target);
      }
      FadeToUnreachable(Step(e, Expired), ch, k - 1);
    }
  }

  lemma TickIsWord(now: int, target: int)
    requires 0 <= now < 0x1_0000_0000 && 0 <= target < 0x1_0000_0000
    ensures 0 <= TickDuty(now, target) < 0x1_0000_0000
  {
  }

  /** From power-up with nothing saved, too, expiries bring every PWM to the latest target. */
  lemma FadeConvergesFromDark(ring: seq<Param>, period: int, evs: seq<Event>, k: nat)
    requires |ring| == 40 && (forall i | 0 <= i < 40 :: |ring[i].duty| == 5)
    requires forall i | 0 <= i < |evs| :: KeepsCache(evs[i])
    requires k >= MaxGap(Run(Dark(ring, period), evs).chans) + 1
    ensures var s := Run(Dark(ring, period), evs);
      var r := Expiries(s, k);
      r.finish && !r.armed && forall i: nat | i < 5 :: Settled(r.chans[i]) && r.chans[i].target == Latest(evs, i, 0)
  {
    FadeConverges(Dark(ring, period), evs, k);
    RunIsRunAll(Dark(ring, period), evs);
    EveryRunRests(Dark(ring, period), evs);
  }

  lemma {:induction false} RunIsRunAll(e: Engine, evs: seq<Event>)
    requires Synced(e) && forall i | 0 <= i < |evs| :: KeepsCache(evs[i])
    ensures Run(e, evs) == RunAll(e, evs)
    decreases |evs|
  {
    if evs != [] { RunIsRunAll(e, evs[..|evs| - 1]); }
  }
}
