/** The light engine over its globals: the duty arrays, the request ring and its three
    indices, changed in place and proved to be LightEngine. */
module LightDevice {
  import opened Arithmetic
  import opened LightFade
  import opened LightEngine

  class Light {
    const dutyNow: array<int>
    const currentDuty: array<int>
    const paramDuty: array<int>       // light_param.pwm_duty
    const pwmDuty: array<int>         // what the PWM driver stores
    const evtArr: array<Param>        // LightEvtArr
    var changeFinish: bool
    var timerArmed: bool
    var curFree: int
    var totalUsed: int
    var curUse: int
    var pwmPeriod: int
    var paramPeriod: int
    var sleepFlg: bool

    ghost predicate Valid()
      reads this
    {
      && dutyNow.Length == currentDuty.Length == paramDuty.Length == pwmDuty.Length == 5 && evtArr.Length == 40
      && dutyNow != currentDuty && dutyNow != paramDuty && dutyNow != pwmDuty
      && currentDuty != paramDuty && currentDuty != pwmDuty && paramDuty != pwmDuty
    }

    ghost function ChanAt(i: nat): (c: Chan)
      requires Valid() && i < 5
      reads this, dutyNow, currentDuty, paramDuty, pwmDuty
    {
      Chan(dutyNow[i], currentDuty[i], paramDuty[i], pwmDuty[i])
    }

    ghost function Chans(): (cs: seq<Chan>)
      requires Valid()
      reads this, dutyNow, currentDuty, paramDuty, pwmDuty
      ensures |cs| == 5 && forall i | 0 <= i < 5 :: cs[i] == ChanAt(i)
    {
      [ChanAt(0), ChanAt(1), ChanAt(2), ChanAt(3), ChanAt(4)]
    }

    ghost function Abs(): (e: Engine)
      requires Valid()
      reads this, dutyNow, currentDuty, paramDuty, pwmDuty, evtArr
    {
      Engine(Chans(), changeFinish, timerArmed, evtArr[..], curFree, totalUsed, curUse, pwmPeriod, paramPeriod, sleepFlg)
    }

    /** user_light_set_duty. */
    method UserLightSetDuty(duty: int, channel: nat)
      requires Valid() && channel < 5
      modifies paramDuty, pwmDuty
      ensures ChanAt(channel) == SetDuty(old(ChanAt(channel)), duty)
      ensures forall i | 0 <= i < 5 && i != channel :: ChanAt(i) == old(ChanAt(i))
    {
      if duty != paramDuty[channel] {
        pwmDuty[channel] := duty;
        paramDuty[channel] := pwmDuty[channel];
      }
    }

    /** user_light_set_period. */
    method UserLightSetPeriod(period: int)
      requires Valid()
      modifies this`pwmPeriod, this`paramPeriod
      ensures Abs() == SetPeriod(old(Abs()), period)
    {
      if period != paramPeriod {
        pwmPeriod := period;
        paramPeriod := pwmPeriod;
      }
    }

    /** The loop of light_dh_pwm_adj_proc. */
    method TickChannels()
      requires Valid()
      modifies dutyNow, paramDuty, pwmDuty
      ensures Chans() == TickAll(old(Chans()))
    {
      for i := 0 to 5
        invariant forall k | 0 <= k < i :: ChanAt(k) == Tick(old(ChanAt(k)))
        invariant forall k | i <= k < 5 :: ChanAt(k) == old(ChanAt(k))
      {
        dutyNow[i] := ToUint32(dutyNow[i] * 15 + currentDuty[i]) / 16;
        if (if dutyNow[i] < currentDuty[i] then currentDuty[i] - dutyNow[i] else dutyNow[i] - currentDuty[i]) < 20 {
          dutyNow[i] := currentDuty[i];
        }
        UserLightSetDuty(dutyNow[i], i);
      }
    }

    /** check_pwm_current_duty_diff. */
    method DutyDiffers() returns (b: bool)
      requires Valid()
      ensures b <==> !Reached(Chans())
    {
      for i := 0 to 5
        invariant forall k | 0 <= k < i :: ChanAt(k).pwm == ChanAt(k).target
      {
        if pwmDuty[i] != currentDuty[i] {
          assert Chans()[i].pwm != Chans()[i].target;
          return true;
        }
      }
      return false;
    }

    /** check_pwm_duty_zero. */
    method DutyZero() returns (b: bool)
      requires Valid()
      ensures b <==> AllDark(Chans())
    {
      for i := 0 to 5
        invariant forall k | 0 <= k < i :: ChanAt(k).pwm == 0
      {
        if pwmDuty[i] != 0 {
          assert Chans()[i].pwm != 0;
          return false;
        }
      }
      return true;
    }

    /** light_save_target_duty and the sleep test behind it. */
    method SaveTargetDuty()
      requires Valid()
      modifies this`paramPeriod, this`sleepFlg, paramDuty
      ensures Abs() == Save(old(Abs()))
    {
      forall i | 0 <= i < 5 {
        paramDuty[i] := currentDuty[i];
      }
      paramPeriod := pwmPeriod;
      var zero := DutyZero();
      if zero {
        if !sleepFlg {
          sleepFlg := true;
        }
      }
      assert Chans() == SaveCache(old(Chans()));
    }

    /** light_dh_pwm_adj_proc. */
    method AdjProc()
      requires Valid() && Shaped(Abs())
      modifies this, dutyNow, currentDuty, paramDuty, pwmDuty
      ensures Abs() == Adj(old(Abs()))
      decreases totalUsed, 1
    {
      TickChannels();
      var diff := DutyDiffers();
      if diff {
        changeFinish := false;
        timerArmed := true;
      } else {
        changeFinish := true;
        timerArmed := false;
        SmoothProc();
      }
    }

    /** Taking the oldest request, the first half of light_pwm_smooth_adj_proc. */
    method TakeRequest()
      requires Valid() && Shaped(Abs()) && totalUsed > 0
      modifies this`pwmPeriod, this`paramPeriod, this`curUse, this`totalUsed, currentDuty
      ensures Abs() == Pop(old(Abs()))
    {
      UserLightSetPeriod(evtArr[curUse].period);
      forall i | 0 <= i < 5 {
        currentDuty[i] := evtArr[curUse].duty[i];
      }
      assert Chans() == Aim(old(Chans()), evtArr[curUse].duty);
      curUse := curUse + 1;
      if curUse > 39 {
        curUse := 0;
      }
      totalUsed := totalUsed - 1;
    }

    /** light_pwm_smooth_adj_proc. */
    method SmoothProc()
      requires Valid() && Shaped(Abs())
      modifies this, dutyNow, currentDuty, paramDuty, pwmDuty
      ensures Abs() == Smooth(old(Abs()))
      decreases totalUsed, 0
    {
      if totalUsed > 0 {
        TakeRequest();
        if changeFinish {
          AdjProc();
        }
      }
      if changeFinish {
        SaveTargetDuty();
      }
    }

    /** The fade timer's callback. */
    method TimerExpired()
      requires Valid() && AtRest(Abs()) && timerArmed
      modifies this, dutyNow, currentDuty, paramDuty, pwmDuty
      ensures AtRest(Abs()) && Abs() == Step(old(Abs()), Expired)
    {
      timerArmed := false;
      AdjOfNone(Abs());
      AdjProc();
    }

    /** LightEvtMalloc: the next free slot of the ring, if there is one. */
    method EvtMalloc() returns (slot: int)
      requires Valid() && Shaped(Abs())
      modifies this`curFree, this`totalUsed
      ensures if old(totalUsed) == 40 then slot == -1 && Abs() == old(Abs())
              else slot == old(curFree) && Abs() == old(Abs()).(free := if slot + 1 > 39 then 0 else slot + 1,
                                                               used := old(totalUsed) + 1)
    {
      totalUsed := totalUsed + 1;
      if totalUsed > 40 {
        totalUsed := totalUsed - 1;
        return -1;
      }
      slot := curFree;
      curFree := curFree + 1;
      if curFree > 39 {
        curFree := 0;
      }
    }

    /** The request that light_set_aim writes into its slot. */
    method ClipRequest(aim: seq<int>, period: int) returns (tmp: Param)
      requires |aim| == 5
      ensures tmp == Request(aim, period)
    {
      var dutyMaxLimit := ToUint32(period * 1000) / 45;
      var r := if aim[0] < dutyMaxLimit then aim[0] else dutyMaxLimit;
      var g := if aim[1] < dutyMaxLimit then aim[1] else dutyMaxLimit;
      var b := if aim[2] < dutyMaxLimit then aim[2] else dutyMaxLimit;
      var cw := if aim[3] < dutyMaxLimit then aim[3] else dutyMaxLimit;
      var ww := if aim[4] < dutyMaxLimit then aim[4] else dutyMaxLimit;
      tmp := Param(if period < 10000 then period else 10000, [r, g, b, cw, ww]);
      assert [r, g, b, cw, ww] == Request(aim, period).duty;
    }

    /** light_set_aim, current limiter off. A full ring drops the request; at rest it
        never is full, and the engine is at rest afterwards (SetAimTakesLatest). */
    method LightSetAim(aim: seq<int>, period: int)
      requires Valid() && Shaped(Abs()) && |aim| == 5
      modifies this, dutyNow, currentDuty, paramDuty, pwmDuty, evtArr
      ensures Abs() == SetAim(old(Abs()), aim, period)
    {
      var slot := EvtMalloc();
      if slot != -1 {
        evtArr[slot] := ClipRequest(aim, period);
        assert evtArr[..] == old(evtArr[..])[slot := Request(aim, period)];
        SmoothProc();
      }
    }

    /** light_set_aim_r, and its sisters for the other channels. */
    method LightSetAimOf(ch: nat, duty: int)
      requires Valid() && AtRest(Abs()) && ch < 5
      modifies this, dutyNow, currentDuty, paramDuty, pwmDuty
      ensures AtRest(Abs()) && Abs() == SetAimOf(old(Abs()), ch, duty)
    {
      SetAimOfStartsNoFade(Abs(), ch, duty);
      currentDuty[ch] := duty;
      assert Chans() == old(Chans())[ch := old(Chans())[ch].(target := duty)];
      SmoothProc();
    }
  }
}
