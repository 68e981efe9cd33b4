/** The scheduler as it runs: globals, a parameter block and one device timer,
    each routine updating them in place, proved against TimerSchedule. */
module PlatformTimer {
  import opened Arithmetic
  import opened TimerText
  import opened TimerSchedule

  /** struct wait_param: what the armed device timer will carry out. */
  class WaitParam {
    const action: array<string>
    var actionNumber: nat
    var count: nat
    var minTimeBackup: int
    ghost var jobs: seq<Job>

    constructor (count: nat)
      ensures fresh(action) && action.Length == 20
      ensures actionNumber == 0 && minTimeBackup == 0 && this.count == count && jobs == []
    {
      action := new string[20](_ => "");
      actionNumber, this.count, minTimeBackup, jobs := 0, count, 0, [];
    }

    ghost predicate Valid()
      reads this, action
    {
      && action.Length == 20 && |jobs| == actionNumber <= 20
      && forall k | 0 <= k < actionNumber :: action[k] == jobs[k].action
    }
  }

  class Scheduler {
    var timestamp: int
    var minWaitSecond: int
    const timerSplits: array<string>
    var deviceTimer: Armed
    var pwait: WaitParam
    var plug: bool
    ghost var elapsed: int
    ghost var fired: seq<Firing>

    ghost predicate Valid()
      reads this, pwait, pwait.action
    {
      timerSplits.Length == 20 && pwait.action != timerSplits && pwait.Valid()
    }

    /** The abstract state of TimerSchedule. */
    ghost function Abs(): (s: State)
      reads this, pwait
    {
      State(timestamp, minWaitSecond, deviceTimer, pwait.jobs, pwait.minTimeBackup, plug, elapsed, fired)
    }

    /** The first `count` entries can be read. */
    ghost predicate Readable(count: nat)
      reads timerSplits
    {
      && count <= timerSplits.Length
      && (forall i | 0 <= i < count :: WellFormedEntry(timerSplits[i]))
      && NoZeroPeriod(ParseAll(timerSplits[..count]))
    }

    ghost function Timers(count: nat): (ts: seq<Timer>)
      requires Readable(count)
      reads timerSplits
      ensures NoZeroPeriod(ts) && |ts| == count
      ensures forall i | 0 <= i < count :: ts[i] == ParseTimer(timerSplits[i])
    {
      ParseAll(timerSplits[..count])
    }

    constructor ()
      ensures Valid() && fresh(timerSplits) && fresh(pwait) && fresh(pwait.action)
      ensures Abs() == State(0, 0, Idle, [], 0, false, 0, [])
    {
      timestamp, minWaitSecond, deviceTimer, plug := 0, 0, Idle, false;
      elapsed, fired := 0, [];
      timerSplits := new string[20](_ => "");
      pwait := new WaitParam(0);
    }

    /** esp_platform_find_min_time. */
    method FindMinTime(waits: array<int>, ghost ts: seq<Timer>)
      requires NoZeroPeriod(ts) && |ts| == waits.Length
      requires forall i | 0 <= i < |ts| :: waits[i] == WaitSeconds(ts[i], timestamp)
      modifies this`minWaitSecond
      ensures minWaitSecond == MinWait(ts, timestamp, |ts|)
    {
      minWaitSecond := 0xFFFFFFF;
      for i := 0 to waits.Length
        invariant minWaitSecond == MinWait(ts, timestamp, i)
      {
        if waits[i] < minWaitSecond && waits[i] >= 0 {
          minWaitSecond := waits[i];
        }
      }
    }

    /** user_esp_platform_wait_time_overflow_check. */
    method OverflowCheck()
      requires Valid()
      modifies this`deviceTimer, pwait`minTimeBackup
      ensures Valid() && Abs() == Arm(old(Abs()))
    {
      if pwait.minTimeBackup >= 3600 {
        deviceTimer := Recheck(3600000);
      } else {
        deviceTimer := Action(pwait.minTimeBackup * 1000);
      }
      pwait.minTimeBackup := ToUint32(pwait.minTimeBackup - 3600);
    }

    /** esp_platform_timer_action. */
    method TimerAction(waits: array<int>, actions: array<string>, ghost ts: seq<Timer>)
      requires Valid() && NoZeroPeriod(ts) && |ts| == waits.Length == actions.Length <= 20
      requires forall i | 0 <= i < |ts| :: waits[i] == WaitSeconds(ts[i], timestamp)
      requires forall i | 0 <= i < |ts| :: actions[i] == JobOf(ts, i).action
      modifies this`pwait, this`deviceTimer
      ensures Valid() && fresh(pwait) && fresh(pwait.action) && pwait.count == |ts|
      ensures Abs() == Arm(old(Abs()).(batch := Batch(ts, timestamp, minWaitSecond, |ts|), backup := minWaitSecond))
    {
      var p := new WaitParam(waits.Length);
      for i := 0 to waits.Length
        invariant p.Valid() && p.actionNumber <= i && p.count == |ts|
        invariant p.jobs == Batch(ts, timestamp, minWaitSecond, i)
      {
        if waits[i] == minWaitSecond {
          p.action[p.actionNumber] := actions[i];
          p.jobs := p.jobs + [JobOf(ts, i)];
          p.actionNumber := p.actionNumber + 1;
        }
      }
      p.minTimeBackup := minWaitSecond;
      pwait := p;
      OverflowCheck();
    }

    /** The wait and the action of one entry, as user_platform_timer_first_start reads them. */
    method ReadEntry(str: string) returns (wait: int, action: string)
      requires WellFormedEntry(str)
      requires ParseTimer(str).Loop? ==> ParseTimer(str).period > 0
      ensures wait == WaitSeconds(ParseTimer(str), timestamp)
      ensures action == JobOf([ParseTimer(str)], 0).action
    {
      var kind := if IndexOf(str, "f", 0) == 0 then 'f' else if IndexOf(str, "l", 0) == 0 then 'l'
                  else if IndexOf(str, "w", 0) == 0 then 'w' else '?';
      if kind == '?' {
        return 0, "";
      }
      var parts := new string[2];
      var n := Split(str, "=", parts);
      var value := Atoi(parts[0][1..]);
      action := parts[1];
      if kind == 'f' {
        wait := value - timestamp;
      } else if kind == 'l' {
        wait := value - CMod(timestamp, value);
      } else {
        var monday := CMod(timestamp - 1388937600, 604800);
        if value > monday {
          wait := value - monday;
        } else {
          wait := 604800 - monday + value;
        }
      }
    }

    /** The loop of user_platform_timer_first_start: every wait and action of the list. */
    method ReadEntries(count: nat) returns (waits: array<int>, actions: array<string>)
      requires Readable(count)
      ensures fresh(waits) && fresh(actions) && waits.Length == actions.Length == count
      ensures forall k | 0 <= k < count :: waits[k] == WaitSeconds(Timers(count)[k], timestamp)
      ensures forall k | 0 <= k < count :: actions[k] == JobOf(Timers(count), k).action
    {
      waits, actions := new int[count], new string[count](_ => "");
      ghost var ts := Timers(count);
      for i := 0 to count
        invariant forall k | 0 <= k < i :: waits[k] == WaitSeconds(ts[k], timestamp)
        invariant forall k | 0 <= k < i :: actions[k] == JobOf(ts, k).action
      {
        waits[i], actions[i] := ReadEntry(timerSplits[i]);
      }
    }

    /** The new clock value, every wait and action, and the least wait. */
    method ComputeWaits(count: nat) returns (waits: array<int>, actions: array<string>)
      requires Readable(count)
      modifies this`timestamp, this`minWaitSecond
      ensures fresh(waits) && fresh(actions) && waits.Length == actions.Length == count
      ensures timestamp == ToInt32(old(timestamp) + old(minWaitSecond))
      ensures minWaitSecond == MinWait(Timers(count), timestamp, count)
      ensures forall k | 0 <= k < count :: waits[k] == WaitSeconds(Timers(count)[k], timestamp)
      ensures forall k | 0 <= k < count :: actions[k] == JobOf(Timers(count), k).action
    {
      timestamp := ToInt32(timestamp + minWaitSecond);
      waits, actions := ReadEntries(count);
      FindMinTime(waits, Timers(count));
    }

    /** user_platform_timer_first_start. */
    method StartRound(count: nat)
      requires Valid() && Readable(count)
      modifies this`timestamp, this`minWaitSecond, this`pwait, this`deviceTimer
      ensures Valid() && Abs() == FirstStart(Timers(count), old(Abs()))
      ensures if minWaitSecond == 0 then pwait == old(pwait)
              else fresh(pwait) && fresh(pwait.action) && pwait.count == count
    {
      var waits, actions := ComputeWaits(count);
      if minWaitSecond == 0 {
        return;
      }
      TimerAction(waits, actions, Timers(count));
    }

    /** The loop of user_esp_platform_device_action over the batch. */
    method RunBatchActions() returns (done: nat, proceed: bool)
      requires pwait.Valid()
      modifies this`plug
      ensures Execute(pwait.jobs, 0, old(plug)) == Outcome(done, plug, proceed)
    {
      ghost var batch, plug0 := pwait.jobs, plug;
      done := 0;
      while done < pwait.actionNumber && !(pwait.action[done] != "" && pwait.action[done][0] == '0')
        invariant 0 <= done <= |batch|
        invariant Execute(batch, 0, plug0) == Execute(batch, done, plug)
        decreases |batch| - done
      {
        if pwait.action[done] == "on_switch" {
          plug := true;
        } else if pwait.action[done] == "off_switch" {
          plug := false;
        } else if pwait.action[done] == "on_off_switch" {
          plug := !plug;
        } else {
          return done, false;
        }
        done := done + 1;
      }
      proceed := true;
    }

    /** user_esp_platform_device_action, without the next round: runs the batch. */
    method RunActions() returns (proceed: bool)
      requires Valid() && deviceTimer.Action?
      modifies this`plug, this`elapsed, this`fired, this`deviceTimer
      ensures Valid()
      ensures var o := Execute(old(Abs()).batch, 0, old(plug));
              proceed == o.proceed && Abs() == RunBatch(old(Abs()), o.done, o.plug)
    {
      elapsed := elapsed + deviceTimer.ms;
      deviceTimer := Idle;
      var done: nat;
      done, proceed := RunBatchActions();
      fired := Log(fired, elapsed, pwait.jobs[..done]);
    }

    /** One expiry of the device timer: the callback it was armed with. */
    method Expired()
      requires Valid() && !deviceTimer.Idle? && Readable(pwait.count)
      modifies this, pwait
      ensures Valid() && timerSplits[..] == old(timerSplits[..])
      ensures Abs() == Expire(old(Timers(pwait.count)), old(Abs()))
      ensures pwait == old(pwait) || fresh(pwait)
      ensures !deviceTimer.Idle? ==> pwait.count == old(pwait.count)
    {
      if deviceTimer.Recheck? {
        elapsed := elapsed + deviceTimer.ms;
        OverflowCheck();
      } else {
        var count := pwait.count;
        var proceed := RunActions();
        if proceed {
          StartRound(count);
        }
      }
    }

    /** user_platform_timer_start, once the message's timestamp and list are cut out.
        A round that computes a zero wait leaves an earlier device timer armed. */
    method TimerStart(stamp: int, timers: string)
      requires Valid()
      requires var strs := Pieces(timers, ';');
        && |strs| <= 20 && (forall k | 0 <= k < |strs| :: |strs[k]| < 100 && WellFormedEntry(strs[k]))
        && NoZeroPeriod(ParseAll(strs))
      modifies this, timerSplits
      ensures Valid()
      ensures var s := old(Abs()).(timestamp := stamp, minWait := 0);
        Abs() == if timers == "" then s.(armed := Idle)
                 else FirstStart(ParseAll(Pieces(timers, ';')), s)
      ensures !deviceTimer.Idle? && minWaitSecond != 0 ==>
        Readable(pwait.count) && Timers(pwait.count) == ParseAll(Pieces(timers, ';'))
    {
      minWaitSecond := 0;
      timestamp := stamp;
      for i := 0 to 20
        invariant Valid() && Abs() == old(Abs()).(timestamp := stamp, minWait := 0)
        invariant pwait == old(pwait)
      {
        timerSplits[i] := "";
      }
      if timers == "" {
        deviceTimer := Idle;
        return;
      }
      ghost var strs := Pieces(timers, ';');
      var count := Split(timers, ";", timerSplits);
      assert forall k | 0 <= k < count :: timerSplits[k] == timerSplits[..count][k] == strs[k];
      StartRound(count);
    }
  }
}
