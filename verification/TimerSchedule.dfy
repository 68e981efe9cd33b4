/** The timer scheduler as a state machine, and what it fires over whole runs. */
module TimerSchedule {
  import opened Arithmetic
  import opened TimerText

  // Seconds: 604800 in a week, 3600 in the longest single sleep; second 1388937600
  // of the server's clock is a Monday 00:00; 0xFFFFFFF is the wait when no timer
  // offers a shorter one. They are written out because products and remainders
  // with a named constant are not linear arithmetic to the solver.

  // ----- C arithmetic -----

  /** The remainder that is never negative. */
  function Phase(a: int, b: int): (r: int)
    requires b > 0
  {
    var m := CMod(a, b);
    if m < 0 then m + b else m
  }

  lemma PhaseIsRemainder(a: int, b: int)
    requires b > 0
    ensures Phase(a, b) == a % b
    ensures 0 <= Phase(a, b) < b
    ensures a >= 0 ==> CMod(a, b) == Phase(a, b)
    ensures a < 0 ==> CMod(a, b) == Phase(a, b) - (if Phase(a, b) == 0 then 0 else b)
  {
    if a >= 0 {
      CModIsPosMod(a, b);
      PosModIsRemainder(a, b);
    } else {
      CModIsPosMod(-a, b);
      PosModIsRemainder(-a, b);
      var q, r := (-a) / b, (-a) % b;
      assert a == -q * b - r;
      if r == 0 { RemainderIs(a, b, -q, 0); }
      else {
        assert a == (-q - 1) * b + (b - r);
        RemainderIs(a, b, -q - 1, b - r);
      }
    }
  }

  /** A remainder advances with its dividend until it wraps. */
  lemma PhaseAdvances(a: int, b: int, d: int)
    requires b > 0 && 0 <= d <= b - Phase(a, b)
    ensures Phase(a + d, b) == if d == b - Phase(a, b) then 0 else Phase(a, b) + d
  {
    PhaseIsRemainder(a, b);
    PhaseIsRemainder(a + d, b);
    RemainderAdvances(a, b, d);
  }

  lemma RemainderAdvances(a: int, b: int, d: int)
    requires b > 0 && 0 <= d <= b - a % b
    ensures (a + d) % b == if d == b - a % b then 0 else a % b + d
  {
    var q := a / b;
    if d == b - a % b {
      assert a + d == (q + 1) * b;
      RemainderIs(a + d, b, q + 1, 0);
    } else {
      RemainderIs(a + d, b, q, a % b + d);
    }
  }

  // ----- what a timer means -----

  /** The seconds at which the server wants the timer's action. */
  predicate Due(t: Timer, time: int) {
    match t
    case Fixed(at, _) => time == at
    case Loop(period, _) => period > 0 && Phase(time, period) == 0
    case Weekly(offset, _) => Phase(time - 1388937600, 604800) == offset
    case Unrecognised => false
  }

  /** Due in the words of the calendar. */
  lemma DueMeans(t: Timer, time: int)
    ensures t.Loop? && t.period > 0 ==> (Due(t, time) <==> time % t.period == 0)
    ensures t.Weekly? ==> (Due(t, time) <==> (time - 1388937600) % 604800 == t.offset)
  {
    if t.Loop? && t.period > 0 { PhaseIsRemainder(time, t.period); }
    if t.Weekly? { PhaseIsRemainder(time - 1388937600, 604800); }
  }

  predicate ValidTimer(t: Timer) {
    match t
    case Fixed(at, _) => 0 <= at < 0x8000_0000
    case Loop(period, _) => 0 < period < 0x8000_0000
    case Weekly(offset, _) => 0 <= offset < 604800
    case Unrecognised => false
  }

  /** An entry that starts with none of the three letters: its wait stays zero. */
  predicate HasUnrecognised(ts: seq<Timer>) {
    exists i | 0 <= i < |ts| :: ts[i].Unrecognised?
  }

  /** Every entry is a valid timer or unrecognised. */
  predicate Listed(ts: seq<Timer>) {
    forall i | 0 <= i < |ts| :: ValidTimer(ts[i]) || ts[i].Unrecognised?
  }

  predicate Legal(ts: seq<Timer>) {
    forall i | 0 <= i < |ts| :: ValidTimer(ts[i])
  }

  /** All the source demands to compute the waits: no division by zero. */
  predicate NoZeroPeriod(ts: seq<Timer>) {
    forall i | 0 <= i < |ts| :: ts[i].Loop? ==> ts[i].period > 0
  }

  /** The wait the source computes for a timer at second `now`. */
  function WaitSeconds(t: Timer, now: int): (w: int)
    requires t.Loop? ==> t.period > 0
  {
    match t
    case Fixed(at, _) => at - now
    case Loop(period, _) => period - CMod(now, period)
    case Weekly(offset, _) =>
      var monday := CMod(now - 1388937600, 604800);
      if offset > monday then offset - monday else 604800 - monday + offset
    case Unrecognised => 0
  }

  /** `w` seconds lead from `now` to the timer's next due second. */
  ghost predicate LeadsToNextDue(t: Timer, now: int, w: int) {
    w > 0 && Due(t, now + w) && forall u | now < u < now + w :: !Due(t, u)
  }

  /** The wait of a loop timer leads exactly to the next multiple of its period. */
  lemma LoopWait(period: int, action: string, now: int)
    requires period > 0 && now >= 0
    ensures LeadsToNextDue(Loop(period, action), now, WaitSeconds(Loop(period, action), now))
  {
    var w := period - Phase(now, period);
    PhaseIsRemainder(now, period);
    PhaseAdvances(now, period, w);
    forall u | now < u < now + w ensures !Due(Loop(period, action), u) {
      PhaseAdvances(now, period, u - now);
    }
  }

  /** The wait of a weekly timer leads to the next due second exactly when the clock has
      reached 1388937600, or stands at the start of a week, or at the offset or behind it
      within the week. */
  lemma WeeklyWaitExact(offset: int, action: string, now: int)
    requires 0 <= offset < 604800
    ensures LeadsToNextDue(Weekly(offset, action), now, WaitSeconds(Weekly(offset, action), now))
       <==> (now >= 1388937600 || Phase(now - 1388937600, 604800) == 0
             || offset <= Phase(now - 1388937600, 604800))
  {
    var t := Weekly(offset, action);
    var a := now - 1388937600;
    var w := WaitSeconds(t, now);
    PhaseIsRemainder(a, 604800);
    var least := NextWeekly(offset, action, now);
    if w == least + 604800 {
      assert now < now + least < now + w && Due(t, now + least);
    } else {
      assert w == least;
    }
  }

  /** The least wait for a weekly timer, whatever the clock. */
  lemma NextWeekly(offset: int, action: string, now: int) returns (least: int)
    requires 0 <= offset < 604800
    ensures var p := Phase(now - 1388937600, 604800);
            least == if offset > p then offset - p else 604800 - p + offset
    ensures LeadsToNextDue(Weekly(offset, action), now, least)
  {
    var a := now - 1388937600;
    var p := Phase(a, 604800);
    least := if offset > p then offset - p else 604800 - p + offset;
    PhaseIsRemainder(a, 604800);
    forall u | now < u <= now + least ensures Due(Weekly(offset, action), u) <==> u == now + least {
      var d := u - now;
      if d <= 604800 - p {
        PhaseAdvances(a, 604800, d);
      } else {
        PhaseAdvances(a, 604800, 604800 - p);
        PhaseAdvances(a + (604800 - p), 604800, d - (604800 - p));
      }
    }
  }

  /** A clock before that Monday can overshoot: one second before it, a timer of the
      last second of the week is due at once, and the source waits a week longer. */
  lemma WeeklyWaitBeforeMonday()
    ensures WaitSeconds(Weekly(604799, ""), 1388937598) == 604801
    ensures Due(Weekly(604799, ""), 1388937599)
  {
  }

  /** The clock values from which every wait of the list is right. */
  predicate ClockFits(ts: seq<Timer>, now: int) {
    0 <= now < 0x8000_0000 && ((exists i | 0 <= i < |ts| :: ts[i].Weekly?) ==> now >= 1388937600)
  }

  /** Nothing is due before the wait is over, and a positive wait ends at a due second.
      A wait of zero or less belongs to a fixed timer with nothing more to do. */
  lemma WaitIsRight(t: Timer, now: int, w: int)
    requires ValidTimer(t) && now >= 0 && (t.Weekly? ==> now >= 1388937600)
    requires w == WaitSeconds(t, now)
    ensures w > 0 ==> Due(t, now + w)
    ensures forall u | now < u && (w <= 0 || u < now + w) :: !Due(t, u)
    ensures w <= 0 ==> t.Fixed? && t.at <= now
  {
    match t
    case Fixed(_, _) =>
    case Loop(period, action) => LoopWait(period, action, now);
    case Weekly(offset, action) => WeeklyWaitExact(offset, action, now);
  }

  // ----- one round: the minimum wait and the batch -----

  /** esp_platform_find_min_time over the first `n` timers: the smallest wait that is
      not negative, and at most 0xFFFFFFF. */
  function MinWait(ts: seq<Timer>, now: int, n: nat): (m: int)
    requires NoZeroPeriod(ts) && n <= |ts|
    ensures 0 <= m <= 0xFFFFFFF
  {
    if n == 0 then 0xFFFFFFF
    else
      var m, w := MinWait(ts, now, n - 1), WaitSeconds(ts[n - 1], now);
      if 0 <= w < m then w else m
  }

  lemma {:induction false} MinWaitBelow(ts: seq<Timer>, now: int, n: nat, i: nat)
    requires NoZeroPeriod(ts) && i < n <= |ts|
    ensures WaitSeconds(ts[i], now) >= 0 ==> MinWait(ts, now, n) <= WaitSeconds(ts[i], now)
  {
    if i < n - 1 { MinWaitBelow(ts, now, n - 1, i); }
  }

  lemma {:induction false} MinWaitReached(ts: seq<Timer>, now: int, n: nat) returns (i: nat)
    requires NoZeroPeriod(ts) && n <= |ts| && MinWait(ts, now, n) < 0xFFFFFFF
    ensures i < n && WaitSeconds(ts[i], now) == MinWait(ts, now, n)
  {
    if WaitSeconds(ts[n - 1], now) == MinWait(ts, now, n) { i := n - 1; }
    else { i := MinWaitReached(ts, now, n - 1); }
  }

  /** An action to run, and the timer it belongs to. */
  datatype Job = Job(timer: int, action: string)

  function JobOf(ts: seq<Timer>, i: nat): (j: Job)
    requires i < |ts|
  {
    Job(i, if ts[i].Unrecognised? then "" else ts[i].action)
  }

  /** esp_platform_timer_action: of the first `n` timers, those whose wait is `m`. */
  function Batch(ts: seq<Timer>, now: int, m: int, n: nat): (b: seq<Job>)
    requires NoZeroPeriod(ts) && n <= |ts|
  {
    if n == 0 then []
    else
      var b := Batch(ts, now, m, n - 1);
      if WaitSeconds(ts[n - 1], now) == m then b + [JobOf(ts, n - 1)] else b
  }

  /** The jobs due at `time` among the first `n` timers, in list order. */
  function DueJobs(ts: seq<Timer>, time: int, n: nat): (b: seq<Job>)
    requires n <= |ts|
  {
    if n == 0 then []
    else
      var b := DueJobs(ts, time, n - 1);
      if Due(ts[n - 1], time) then b + [JobOf(ts, n - 1)] else b
  }

  lemma {:induction false} DueJobsMembers(ts: seq<Timer>, time: int, n: nat, i: nat)
    requires n <= |ts| && i < |ts|
    ensures JobOf(ts, i) in DueJobs(ts, time, n) <==> i < n && Due(ts[i], time)
  {
    if n > 0 { DueJobsMembers(ts, time, n - 1, i); }
  }

  /** Every due timer once, in list order, each with its own action. */
  lemma {:induction false} DueJobsAscend(ts: seq<Timer>, time: int, n: nat)
    requires n <= |ts|
    ensures forall k | 0 <= k < |DueJobs(ts, time, n)| :: 0 <= DueJobs(ts, time, n)[k].timer < n
    ensures forall j, k | 0 <= j < k < |DueJobs(ts, time, n)| ::
      DueJobs(ts, time, n)[j].timer < DueJobs(ts, time, n)[k].timer
    ensures forall k | 0 <= k < |DueJobs(ts, time, n)| ::
      var job := DueJobs(ts, time, n)[k]; Due(ts[job.timer], time) && job.action == ts[job.timer].action
  {
    if n > 0 { DueJobsAscend(ts, time, n - 1); }
  }

  lemma {:induction false} NoJobs(ts: seq<Timer>, u: int, n: nat)
    requires n <= |ts| && forall i | 0 <= i < n :: !Due(ts[i], u)
    ensures DueJobs(ts, u, n) == []
  {
    if n > 0 { NoJobs(ts, u, n - 1); }
  }

  /** The batch of a round is exactly what is due when its sleep ends. */
  lemma {:induction false} BatchIsDue(ts: seq<Timer>, now: int, m: int, n: nat)
    requires Legal(ts) && ClockFits(ts, now) && n <= |ts| && m == MinWait(ts, now, |ts|) > 0
    ensures Batch(ts, now, m, n) == DueJobs(ts, now + m, n)
  {
    if n > 0 {
      BatchIsDue(ts, now, m, n - 1);
      MinWaitBelow(ts, now, |ts|, n - 1);
      WaitIsRight(ts[n - 1], now, WaitSeconds(ts[n - 1], now));
    }
  }

  /** Nothing of the list is due strictly between two seconds. */
  ghost predicate Quiet(ts: seq<Timer>, from: int, until: int) {
    forall u | from < u < until :: DueJobs(ts, u, |ts|) == []
  }

  lemma QuietBeforeMinWait(ts: seq<Timer>, now: int)
    requires Legal(ts) && ClockFits(ts, now)
    ensures Quiet(ts, now, now + MinWait(ts, now, |ts|))
  {
    var m := MinWait(ts, now, |ts|);
    forall u | now < u < now + m ensures DueJobs(ts, u, |ts|) == [] {
      forall i | 0 <= i < |ts| ensures !Due(ts[i], u) {
        MinWaitBelow(ts, now, |ts|, i);
        WaitIsRight(ts[i], now, WaitSeconds(ts[i], now));
      }
      NoJobs(ts, u, |ts|);
    }
  }

  lemma QuietMeans(ts: seq<Timer>, from: int, until: int, u: int, i: nat)
    requires Quiet(ts, from, until) && from < u < until && i < |ts|
    ensures !Due(ts[i], u)
  {
    DueJobsMembers(ts, u, |ts|, i);
  }

  predicate FixedNow(ts: seq<Timer>, now: int) {
    exists i | 0 <= i < |ts| :: ts[i].Fixed? && ts[i].at == now
  }

  /** The minimum is zero exactly when a fixed timer's instant is now, or an entry is
      unrecognised. */
  lemma MinWaitZero(ts: seq<Timer>, now: int)
    requires Listed(ts) && ClockFits(ts, now)
    ensures MinWait(ts, now, |ts|) == 0 <==> FixedNow(ts, now) || HasUnrecognised(ts)
  {
    if MinWait(ts, now, |ts|) == 0 {
      var i := MinWaitReached(ts, now, |ts|);
      if !ts[i].Unrecognised? {
        WaitIsRight(ts[i], now, 0);
        assert ts[i].Fixed? && ts[i].at == now;
      }
    }
    if HasUnrecognised(ts) {
      var i :| 0 <= i < |ts| && ts[i].Unrecognised?;
      MinWaitBelow(ts, now, |ts|, i);
    }
    if FixedNow(ts, now) {
      var i :| 0 <= i < |ts| && ts[i].Fixed? && ts[i].at == now;
      MinWaitBelow(ts, now, |ts|, i);
    }
  }

  // ----- the device's actions -----

  datatype Outcome = Outcome(done: nat, plug: bool, proceed: bool)

  predicate KnownAction(a: string) {
    a == "on_switch" || a == "off_switch" || a == "on_off_switch"
  }

  function Apply(a: string, plug: bool): (r: bool) {
    if a == "on_switch" then true
    else if a == "off_switch" then false
    else !plug
  }

  /** Runs the batch from job `i`: it ends early at an action starting with '0',
      and gives up, without a next round, at an unknown one. */
  function Execute(batch: seq<Job>, i: nat, plug: bool): (o: Outcome)
    requires i <= |batch|
    ensures i <= o.done <= |batch|
    decreases |batch| - i
  {
    if i == |batch| || (batch[i].action != "" && batch[i].action[0] == '0') then Outcome(i, plug, true)
    else if KnownAction(batch[i].action) then Execute(batch, i + 1, Apply(batch[i].action, plug))
    else Outcome(i, plug, false)
  }

  predicate AllKnown(batch: seq<Job>) {
    forall k | 0 <= k < |batch| :: KnownAction(batch[k].action)
  }

  /** The whole batch runs and the scheduler goes on, iff every action is known. */
  lemma ExecuteAll(batch: seq<Job>, plug: bool)
    ensures (Execute(batch, 0, plug).done == |batch| && Execute(batch, 0, plug).proceed) <==> AllKnown(batch)
  {
    ExecuteFrom(batch, 0, plug);
  }

  lemma {:induction false} ExecuteFrom(batch: seq<Job>, i: nat, plug: bool)
    requires i <= |batch|
    ensures (Execute(batch, i, plug).done == |batch| && Execute(batch, i, plug).proceed)
       <==> forall k | i <= k < |batch| :: KnownAction(batch[k].action)
    decreases |batch| - i
  {
    if i < |batch| && KnownAction(batch[i].action) {
      ExecuteFrom(batch, i + 1, Apply(batch[i].action, plug));
    }
  }

  /** The batch ends at the first action that is not a known one, if there is one; the next
      round is computed exactly when there is none or it starts with '0'. */
  lemma {:induction false} ExecuteEndsAt(batch: seq<Job>, i: nat, plug: bool)
    requires i <= |batch|
    ensures var o := Execute(batch, i, plug);
      && (forall k | i <= k < o.done :: KnownAction(batch[k].action))
      && (o.done < |batch| ==> !KnownAction(batch[o.done].action))
      && (o.proceed <==> o.done == |batch| || (batch[o.done].action != "" && batch[o.done].action[0] == '0'))
    decreases |batch| - i
  {
    if i < |batch| && KnownAction(batch[i].action) {
      ExecuteEndsAt(batch, i + 1, Apply(batch[i].action, plug));
    }
  }

  /** The place of the first action from `i` on that is not a known one, or the end. */
  function FirstUnknown(batch: seq<Job>, i: nat): (k: nat)
    requires i <= |batch|
    ensures i <= k <= |batch|
    decreases |batch| - i
  {
    if i == |batch| || !KnownAction(batch[i].action) then i else FirstUnknown(batch, i + 1)
  }

  predicate StartsWithZero(action: string) {
    action != "" && action[0] == '0'
  }

  /** The jobs of a batch that are executed: those in front of the first unknown action. */
  function Ran(batch: seq<Job>): (r: seq<Job>) {
    batch[..FirstUnknown(batch, 0)]
  }

  /** The next round follows a batch. */
  predicate GoesOn(batch: seq<Job>) {
    var k := FirstUnknown(batch, 0);
    k == |batch| || StartsWithZero(batch[k].action)
  }

  lemma {:induction false} ExecuteFindsUnknown(batch: seq<Job>, i: nat, plug: bool)
    requires i <= |batch|
    ensures Execute(batch, i, plug).done == FirstUnknown(batch, i)
    decreases |batch| - i
  {
    if i < |batch| && KnownAction(batch[i].action) {
      ExecuteFindsUnknown(batch, i + 1, Apply(batch[i].action, plug));
    }
  }

  /** Whatever the relay, a batch runs up to its first unknown action and goes on as said. */
  lemma ExecuteIs(batch: seq<Job>, plug: bool)
    ensures batch[..Execute(batch, 0, plug).done] == Ran(batch)
    ensures Execute(batch, 0, plug).proceed <==> GoesOn(batch)
  {
    ExecuteFindsUnknown(batch, 0, plug);
    ExecuteEndsAt(batch, 0, plug);
  }

  /** Every action of the list is known. */
  predicate Known(ts: seq<Timer>) {
    forall i | 0 <= i < |ts| :: KnownAction(JobOf(ts, i).action)
  }

  lemma {:induction false} DueJobsKnown(ts: seq<Timer>, time: int, n: nat)
    requires Known(ts) && n <= |ts|
    ensures AllKnown(DueJobs(ts, time, n))
  {
    if n > 0 { DueJobsKnown(ts, time, n - 1); }
  }

  lemma {:induction false} AllOfKnownRuns(batch: seq<Job>, i: nat)
    requires i <= |batch| && AllKnown(batch)
    ensures FirstUnknown(batch, i) == |batch|
    decreases |batch| - i
  {
    if i < |batch| { AllOfKnownRuns(batch, i + 1); }
  }

  // ----- the relay -----

  predicate SetsRelay(a: string) {
    a == "on_switch" || a == "off_switch"
  }

  /** The number of jobs up to and with the last one that sets the relay, 0 if none does. */
  function Since(jobs: seq<Job>): (k: nat)
    ensures k <= |jobs| && (k > 0 ==> SetsRelay(jobs[k - 1].action))
    ensures forall j | k <= j < |jobs| :: !SetsRelay(jobs[j].action)
    decreases |jobs|
  {
    if jobs == [] then 0
    else if SetsRelay(jobs[|jobs| - 1].action) then |jobs|
    else Since(jobs[..|jobs| - 1])
  }

  /** How many of the jobs behind the first `k` flip the relay. */
  function Flips(jobs: seq<Job>, k: nat): (n: nat)
    requires k <= |jobs|
    decreases |jobs|
  {
    if |jobs| == k then 0
    else Flips(jobs[..|jobs| - 1], k) + (if jobs[|jobs| - 1].action == "on_off_switch" then 1 else 0)
  }

  /** The relay behind some jobs: on or off as the last one that sets it says, or as it was
      at the start, and flipped once by each flip since then. */
  predicate RelayAfter(jobs: seq<Job>, plug: bool) {
    var k := Since(jobs);
    (if k == 0 then plug else jobs[k - 1].action == "on_switch") == (Flips(jobs, k) % 2 == 0)
  }

  lemma RelaySnoc(jobs: seq<Job>, job: Job, plug: bool)
    ensures RelayAfter(jobs + [job], plug) ==
      if job.action == "on_switch" then true else if job.action == "off_switch" then false
      else if job.action == "on_off_switch" then !RelayAfter(jobs, plug) else RelayAfter(jobs, plug)
  {
    assert (jobs + [job])[..|jobs|] == jobs;
    if SetsRelay(job.action) { assert Flips(jobs + [job], |jobs| + 1) == 0; }
  }

  lemma {:induction false} RelayOfTwo(a: seq<Job>, b: seq<Job>, plug: bool)
    ensures RelayAfter(a + b, plug) == RelayAfter(b, RelayAfter(a, plug))
    decreases |b|
  {
    if b == [] {
      assert a + b == a;
    } else {
      var m := |b| - 1;
      RelayOfTwo(a, b[..m], plug);
      assert a + b == a + b[..m] + [b[m]] && b == b[..m] + [b[m]];
      RelaySnoc(a + b[..m], b[m], plug);
      RelaySnoc(b[..m], b[m], RelayAfter(a, plug));
    }
  }

  /** One known action, executed. */
  lemma AppliedIs(job: Job, plug: bool)
    requires KnownAction(job.action)
    ensures Apply(job.action, plug) == RelayAfter([job], plug)
  {
    RelaySnoc([], job, plug);
    assert [] + [job] == [job] && RelayAfter([], plug) == plug;
  }

  /** A batch leaves the relay as its executed jobs say. */
  lemma RelayOfBatch(batch: seq<Job>, plug: bool)
    ensures Execute(batch, 0, plug).plug == RelayAfter(Ran(batch), plug)
  {
    ExecuteFindsUnknown(batch, 0, plug);
    RelayFrom(batch, 0, plug);
  }

  lemma {:induction false} RelayFrom(batch: seq<Job>, i: nat, plug: bool)
    requires i <= |batch|
    ensures Execute(batch, i, plug).plug == RelayAfter(batch[i..FirstUnknown(batch, i)], plug)
    decreases |batch| - i
  {
    if i < |batch| && KnownAction(batch[i].action) {
      var k := FirstUnknown(batch, i);
      RelayFrom(batch, i + 1, Apply(batch[i].action, plug));
      AppliedIs(batch[i], plug);
      assert batch[i..k] == [batch[i]] + batch[i + 1..k];
      RelayOfTwo([batch[i]], batch[i + 1..k], plug);
    }
  }

  // ----- what of a second's batch is executed, in terms of the timers -----

  /** Every timer due at second `u` up to the `i`-th in the list has a known action. */
  predicate KnownUpTo(ts: seq<Timer>, u: int, i: nat)
    requires i < |ts|
  {
    forall j | 0 <= j <= i && Due(ts[j], u) :: KnownAction(JobOf(ts, j).action)
  }

  /** At second `u` the `i`-th timer is the first due one with an unknown action. */
  predicate FirstUnknownAt(ts: seq<Timer>, u: int, i: nat)
    requires i < |ts|
  {
    && Due(ts[i], u) && !KnownAction(JobOf(ts, i).action)
    && forall j | 0 <= j < i && Due(ts[j], u) :: KnownAction(JobOf(ts, j).action)
  }

  /** The first unknown action due at second `u`, if there is one, starts with '0'. */
  predicate SurvivesSecond(ts: seq<Timer>, u: int) {
    forall i: nat | i < |ts| && FirstUnknownAt(ts, u, i) :: StartsWithZero(JobOf(ts, i).action)
  }

  /** The `i`-th timer is due at second `u`, with nothing unknown in front of it. */
  predicate ReachedAt(ts: seq<Timer>, u: int, i: nat)
    requires i < |ts|
  {
    Due(ts[i], u) && KnownUpTo(ts, u, i)
  }

  lemma {:induction false} FirstUnknownSnoc(batch: seq<Job>, job: Job, i: nat)
    requires i <= |batch|
    ensures FirstUnknown(batch + [job], i) ==
      if FirstUnknown(batch, i) < |batch| then FirstUnknown(batch, i)
      else if KnownAction(job.action) then |batch| + 1 else |batch|
    decreases |batch| - i
  {
    if i == |batch| {
      if KnownAction(job.action) { assert FirstUnknown(batch + [job], i + 1) == i + 1; }
    } else if KnownAction(batch[i].action) {
      FirstUnknownSnoc(batch, job, i + 1);
    }
  }

  /** Of the jobs due among the first `n` timers those of the first `i` are executed, where
      the `i`-th is the first due one with an unknown action, or there is none. */
  lemma {:induction false} RanOfFirst(ts: seq<Timer>, u: int, n: nat) returns (i: nat)
    requires n <= |ts|
    ensures i <= n && forall j | 0 <= j < i && Due(ts[j], u) :: KnownAction(JobOf(ts, j).action)
    ensures Ran(DueJobs(ts, u, n)) == DueJobs(ts, u, i)
    ensures var b := DueJobs(ts, u, n); var k := FirstUnknown(b, 0);
      if i == n then k == |b| else FirstUnknownAt(ts, u, i) && k < |b| && b[k] == JobOf(ts, i)
  {
    if n == 0 {
      i := 0;
    } else {
      i := RanOfFirst(ts, u, n - 1);
      var b := DueJobs(ts, u, n - 1);
      if Due(ts[n - 1], u) {
        FirstUnknownSnoc(b, JobOf(ts, n - 1), 0);
        if i == n - 1 && KnownAction(JobOf(ts, i).action) { i := n; }
      } else if i == n - 1 {
        i := n;
      }
    }
  }

  /** A job is among those executed at a second exactly when its timer is due and every
      timer due in front of it has a known action. */
  lemma RanMembers(ts: seq<Timer>, u: int, i: nat)
    requires i < |ts|
    ensures JobOf(ts, i) in Ran(DueJobs(ts, u, |ts|)) <==> ReachedAt(ts, u, i)
  {
    var k := RanOfFirst(ts, u, |ts|);
    DueJobsMembers(ts, u, k, i);
  }

  /** The round after a second is computed exactly when the first unknown action due at it,
      if there is one, starts with '0'. */
  lemma GoesOnMeans(ts: seq<Timer>, u: int)
    ensures GoesOn(DueJobs(ts, u, |ts|)) <==> SurvivesSecond(ts, u)
  {
    var k := RanOfFirst(ts, u, |ts|);
  }

  // ----- the machine -----

  /** What the one-shot device timer is armed for, and for how many milliseconds. */
  datatype Armed = Idle | Recheck(ms: int) | Action(ms: int)

  /** The jobs executed together at one expiry, milliseconds since the start. */
  datatype Firing = Firing(ms: int, jobs: seq<Job>)

  datatype State = State(
    timestamp: int,       // the virtual clock, seconds
    minWait: int,         // min_wait_second
    armed: Armed,         // device_timer
    batch: seq<Job>,      // the parameter block: the actions of the batch ...
    backup: int,          // ... and min_time_backup
    plug: bool,           // the relay
    elapsed: int,         // real milliseconds since the start
    fired: seq<Firing>)   // every batch executed so far

  /** user_esp_platform_wait_time_overflow_check: sleep an hour, or what is left. */
  function Arm(s: State): (r: State) {
    s.(armed := if s.backup >= 3600 then Recheck(3600000) else Action(s.backup * 1000),
       backup := ToUint32(s.backup - 3600))
  }

  /** user_platform_timer_first_start followed by esp_platform_timer_action. */
  function FirstStart(ts: seq<Timer>, s: State): (r: State)
    requires NoZeroPeriod(ts)
  {
    var now := ToInt32(s.timestamp + s.minWait);
    var m := MinWait(ts, now, |ts|);
    if m == 0 then s.(timestamp := now, minWait := 0)
    else Arm(s.(timestamp := now, minWait := m, batch := Batch(ts, now, m, |ts|), backup := m))
  }

  /** The log with the jobs of one expiry added, if there are any. */
  function Log(log: seq<Firing>, ms: int, jobs: seq<Job>): (r: seq<Firing>) {
    if jobs == [] then log else log + [Firing(ms, jobs)]
  }

  /** The batch runs; the relay and the log change. */
  function RunBatch(s: State, done: nat, plug: bool): (r: State)
    requires done <= |s.batch| && s.armed.Action?
  {
    var now := s.elapsed + s.armed.ms;
    s.(elapsed := now, armed := Idle, plug := plug, fired := Log(s.fired, now, s.batch[..done]))
  }

  /** One expiry of the device timer. */
  function Expire(ts: seq<Timer>, s: State): (r: State)
    requires NoZeroPeriod(ts)
  {
    match s.armed
    case Idle => s
    case Recheck(ms) => Arm(s.(elapsed := s.elapsed + ms))
    case Action(ms) =>
      var o := Execute(s.batch, 0, s.plug);
      var s1 := RunBatch(s, o.done, o.plug);
      if o.proceed then FirstStart(ts, s1) else s1
  }

  function Run(ts: seq<Timer>, s: State, n: nat): (r: State)
    requires NoZeroPeriod(ts)
  {
    if n == 0 then s else Expire(ts, Run(ts, s, n - 1))
  }

  // ----- the reference: everything due, and what of it is executed, in order -----

  /** Every due job after second `start` and not after `last`, by second and then in
      list order, grouped by second. */
  function AllDue(ts: seq<Timer>, start: int, last: int): (log: seq<Firing>)
    requires start <= last
    decreases last - start
  {
    if last == start then []
    else Log(AllDue(ts, start, last - 1), (last - start) * 1000, DueJobs(ts, last, |ts|))
  }

  /** Of that, what the batches execute. */
  function AllRan(ts: seq<Timer>, start: int, last: int): (log: seq<Firing>)
    requires start <= last
    decreases last - start
  {
    if last == start then []
    else Log(AllRan(ts, start, last - 1), (last - start) * 1000, Ran(DueJobs(ts, last, |ts|)))
  }

  lemma {:induction false} AllRanAcross(ts: seq<Timer>, start: int, from: int, last: int)
    requires start <= from < last && Quiet(ts, from, last)
    ensures AllRan(ts, start, last - 1) == AllRan(ts, start, from)
    decreases last - from
  {
    if from < last - 1 {
      AllRanAcross(ts, start, from, last - 1);
      AllRanQuietSecond(ts, start, last - 1);
    }
  }

  lemma AllRanQuietSecond(ts: seq<Timer>, start: int, u: int)
    requires start < u && DueJobs(ts, u, |ts|) == []
    ensures AllRan(ts, start, u) == AllRan(ts, start, u - 1)
  {
  }

  /** What the reference contains: for each second at which something is executed, one
      entry with exactly the jobs executed. */
  lemma {:induction false} AllRanMembers(ts: seq<Timer>, start: int, last: int, f: Firing)
    requires start <= last
    ensures f in AllRan(ts, start, last) <==>
      f.ms % 1000 == 0 && start < start + f.ms / 1000 <= last && f.jobs != []
      && f.jobs == Ran(DueJobs(ts, start + f.ms / 1000, |ts|))
    decreases last - start
  {
    if start < last {
      AllRanMembers(ts, start, last - 1, f);
    }
  }

  /** No second appears twice: the entries' times strictly ascend. */
  lemma {:induction false} AllRanAscends(ts: seq<Timer>, start: int, last: int)
    requires start <= last
    ensures Ascending(AllRan(ts, start, last), (last - start) * 1000)
    decreases last - start
  {
    if start < last { AllRanAscends(ts, start, last - 1); }
  }

  /** With known actions only, everything due is executed. */
  lemma {:induction false} AllOfKnownIsDue(ts: seq<Timer>, start: int, last: int)
    requires start <= last && Known(ts)
    ensures AllRan(ts, start, last) == AllDue(ts, start, last)
    decreases last - start
  {
    if start < last {
      AllOfKnownIsDue(ts, start, last - 1);
      KnownSecond(ts, last);
    }
  }

  lemma KnownSecond(ts: seq<Timer>, u: int)
    requires Known(ts)
    ensures Ran(DueJobs(ts, u, |ts|)) == DueJobs(ts, u, |ts|) && GoesOn(DueJobs(ts, u, |ts|))
  {
    DueJobsKnown(ts, u, |ts|);
    AllOfKnownRuns(DueJobs(ts, u, |ts|), 0);
  }

  /** What everything due contains, likewise. */
  lemma {:induction false} AllDueMembers(ts: seq<Timer>, start: int, last: int, f: Firing)
    requires start <= last
    ensures f in AllDue(ts, start, last) <==>
      f.ms % 1000 == 0 && start < start + f.ms / 1000 <= last && f.jobs != []
      && f.jobs == DueJobs(ts, start + f.ms / 1000, |ts|)
    decreases last - start
  {
    if start < last {
      AllDueMembers(ts, start, last - 1, f);
    }
  }

  predicate Ascending(log: seq<Firing>, bound: int) {
    && (forall i, j | 0 <= i < j < |log| :: log[i].ms < log[j].ms)
    && (forall i | 0 <= i < |log| :: log[i].ms <= bound)
  }

  // ----- the invariant -----

  /** The whole sleep still ahead of the next firing, in milliseconds. */
  function Ahead(s: State): (ms: int) {
    match s.armed
    case Idle => 0
    case Action(ms) => ms
    case Recheck(ms) => ms + s.backup * 1000
  }

  /** No fixed timer's instant lies between the start and the virtual clock. */
  predicate PassedNoFixed(ts: seq<Timer>, start: int, now: int) {
    forall i | 0 <= i < |ts| :: ts[i].Fixed? ==> !(start <= ts[i].at < now)
  }

  predicate ArmedWell(s: State) {
    match s.armed
    case Idle => true
    case Action(ms) => 0 <= ms < 3600000
    case Recheck(ms) => ms == 3600000 && 0 <= s.backup <= 0xFFFFFFF
  }

  /** A sleep in progress towards the next due second. */
  ghost predicate Sleeping(ts: seq<Timer>, start: int, s: State) {
    && s.minWait > 0 && Quiet(ts, s.timestamp, s.timestamp + s.minWait)
    && s.batch == DueJobs(ts, s.timestamp + s.minWait, |ts|)
    && ArmedWell(s)
    && (s.timestamp - start) * 1000 <= s.elapsed
    && s.elapsed + Ahead(s) == (s.timestamp + s.minWait - start) * 1000
  }

  /** The last second whose batch has been executed, or the start: the virtual clock, or,
      once the scheduler has given up, the second of the batch it gave up in. */
  function Reached(s: State): (u: int) {
    if s.armed.Idle? then s.timestamp + s.minWait else s.timestamp
  }

  /** The scheduler goes on behind every batch after the start and before second `u`. */
  ghost predicate GoesOnUntil(ts: seq<Timer>, start: int, u: int) {
    forall v | start < v < u :: GoesOn(DueJobs(ts, v, |ts|))
  }

  /** At second `u` there is no next round: a fixed timer is due, or the batch was given up. */
  predicate StopsAt(ts: seq<Timer>, start: int, u: int) {
    FixedNow(ts, u) || (start < u && !GoesOn(DueJobs(ts, u, |ts|)))
  }

  /** Real time is exactly where the scheduler is. */
  predicate OnTheSecond(start: int, s: State) {
    s.elapsed == (Reached(s) - start) * 1000
  }

  /** Between two expiries of a run begun at second `start`. */
  ghost predicate Inv(ts: seq<Timer>, start: int, s: State) {
    && start <= s.timestamp <= Reached(s) < 0x8000_0000
    && s.fired == AllRan(ts, start, Reached(s))
    && PassedNoFixed(ts, start, Reached(s)) && GoesOnUntil(ts, start, Reached(s))
    && (s.armed.Idle? <==> StopsAt(ts, start, Reached(s)))
    && (if s.armed.Idle? then OnTheSecond(start, s) else Sleeping(ts, start, s))
    && (s.armed.Idle? && s.minWait != 0 ==> !GoesOn(DueJobs(ts, Reached(s), |ts|)))
  }

  /** A round computed at a new clock value. */
  lemma FirstStartKeepsInv(ts: seq<Timer>, start: int, s: State, now: int)
    requires Legal(ts) && ClockFits(ts, start) && s.armed.Idle? && now == s.timestamp + s.minWait
    requires start <= now < 0x8000_0000
    requires s.fired == AllRan(ts, start, now) && PassedNoFixed(ts, start, now)
    requires GoesOnUntil(ts, start, now) && (start < now ==> GoesOn(DueJobs(ts, now, |ts|)))
    requires s.elapsed == (now - start) * 1000
    ensures Inv(ts, start, FirstStart(ts, s)) && Reached(FirstStart(ts, s)) == FirstStart(ts, s).timestamp == now
  {
    assert ToInt32(now) == now;
    MinWaitZero(ts, now);
    QuietBeforeMinWait(ts, now);
    if MinWait(ts, now, |ts|) > 0 {
      BatchIsDue(ts, now, MinWait(ts, now, |ts|), |ts|);
    }
  }

  lemma FiringCompletesTheLog(ts: seq<Timer>, start: int, s: State)
    requires start <= s.timestamp && Sleeping(ts, start, s)
    ensures Log(AllRan(ts, start, s.timestamp), (s.timestamp + s.minWait - start) * 1000, Ran(s.batch))
         == AllRan(ts, start, s.timestamp + s.minWait)
  {
    AllRanAcross(ts, start, s.timestamp, s.timestamp + s.minWait);
  }

  lemma FiringPassesNoFixed(ts: seq<Timer>, start: int, s: State)
    requires PassedNoFixed(ts, start, s.timestamp) && !FixedNow(ts, s.timestamp) && Sleeping(ts, start, s)
    ensures PassedNoFixed(ts, start, s.timestamp + s.minWait)
  {
    forall i | 0 <= i < |ts| && ts[i].Fixed? ensures !(start <= ts[i].at < s.timestamp + s.minWait) {
      if s.timestamp < ts[i].at < s.timestamp + s.minWait {
        QuietMeans(ts, s.timestamp, s.timestamp + s.minWait, ts[i].at, i);
      }
    }
  }

  lemma QuietGoesOn(ts: seq<Timer>, start: int, from: int, until: int)
    requires GoesOnUntil(ts, start, from) && Quiet(ts, from, until)
    requires start < from ==> GoesOn(DueJobs(ts, from, |ts|))
    ensures GoesOnUntil(ts, start, until)
  {
    forall v | start < v < until ensures GoesOn(DueJobs(ts, v, |ts|)) {
      if from < v { EmptyGoesOn(DueJobs(ts, v, |ts|)); }
    }
  }

  lemma EmptyGoesOn(batch: seq<Job>)
    requires batch == []
    ensures GoesOn(batch)
  {
  }

  /** A firing logs what is executed of the batch, and goes on or gives up. */
  lemma ActionExpires(ts: seq<Timer>, s: State) returns (r: State)
    requires NoZeroPeriod(ts) && s.armed.Action?
    ensures r == RunBatch(s, Execute(s.batch, 0, s.plug).done, Execute(s.batch, 0, s.plug).plug)
    ensures r.fired == Log(s.fired, s.elapsed + s.armed.ms, Ran(s.batch)) && r.elapsed == s.elapsed + s.armed.ms
    ensures r.armed.Idle? && r.timestamp == s.timestamp && r.minWait == s.minWait
    ensures Expire(ts, s) == if GoesOn(s.batch) then FirstStart(ts, r) else r
  {
    ExecuteIs(s.batch, s.plug);
    r := RunBatch(s, Execute(s.batch, 0, s.plug).done, Execute(s.batch, 0, s.plug).plug);
  }

  lemma ActionKeepsInv(ts: seq<Timer>, start: int, s: State)
    requires Legal(ts) && ClockFits(ts, start) && Inv(ts, start, s) && s.armed.Action?
    requires s.timestamp + s.minWait < 0x8000_0000
    ensures Inv(ts, start, Expire(ts, s)) && Reached(Expire(ts, s)) == s.timestamp + s.minWait
    ensures OnTheSecond(start, Expire(ts, s))
  {
    var now := s.timestamp + s.minWait;
    var r := ActionExpires(ts, s);
    BatchCompletes(ts, start, s, r);
    FirstStartElapsed(ts, r);
    if GoesOn(s.batch) { FirstStartKeepsInv(ts, start, r, now); }
  }

  /** After the batch the log, the clock and the passed instants are those of its second. */
  lemma BatchCompletes(ts: seq<Timer>, start: int, s: State, r: State)
    requires Inv(ts, start, s) && s.armed.Action?
    requires r.fired == Log(s.fired, s.elapsed + s.armed.ms, Ran(s.batch)) && r.elapsed == s.elapsed + s.armed.ms
    ensures var now := s.timestamp + s.minWait;
      && start < now && s.batch == DueJobs(ts, now, |ts|)
      && r.fired == AllRan(ts, start, now) && r.elapsed == (now - start) * 1000
      && PassedNoFixed(ts, start, now) && GoesOnUntil(ts, start, now)
  {
    FiringCompletesTheLog(ts, start, s);
    FiringPassesNoFixed(ts, start, s);
    QuietGoesOn(ts, start, s.timestamp, s.timestamp + s.minWait);
  }

  lemma RecheckKeepsInv(ts: seq<Timer>, start: int, s: State)
    requires NoZeroPeriod(ts) && Inv(ts, start, s) && s.armed.Recheck?
    ensures Inv(ts, start, Expire(ts, s))
    ensures Expire(ts, s).timestamp == s.timestamp && Expire(ts, s).minWait == s.minWait
    ensures !Expire(ts, s).armed.Idle? && 0 <= Ahead(Expire(ts, s)) < Ahead(s)
  {
  }

  /** The step theorem: one expiry keeps the invariant while the clock fits an int. */
  lemma ExpireKeepsInv(ts: seq<Timer>, start: int, s: State)
    requires Legal(ts) && ClockFits(ts, start) && Inv(ts, start, s)
    requires start * 1000 + Expire(ts, s).elapsed < 0x8000_0000 * 1000
    ensures Inv(ts, start, Expire(ts, s))
  {
    match s.armed
    case Idle =>
    case Recheck(_) => RecheckKeepsInv(ts, start, s);
    case Action(_) =>
      var r := ActionExpires(ts, s);
      FirstStartElapsed(ts, r);
      ActionKeepsInv(ts, start, s);
  }

  lemma FirstStartElapsed(ts: seq<Timer>, s: State)
    requires NoZeroPeriod(ts)
    ensures FirstStart(ts, s).elapsed == s.elapsed
  {
  }

  // ----- whole runs -----

  /** The state left by user_platform_timer_start for a list and a clock. */
  function Begin(ts: seq<Timer>, start: int, plug: bool): (s: State)
    requires NoZeroPeriod(ts)
  {
    FirstStart(ts, State(start, 0, Idle, [], 0, plug, 0, []))
  }

  lemma BeginInv(ts: seq<Timer>, start: int, plug: bool)
    requires Legal(ts) && ClockFits(ts, start)
    ensures Inv(ts, start, Begin(ts, start, plug))
    ensures Reached(Begin(ts, start, plug)) == start && OnTheSecond(start, Begin(ts, start, plug))
  {
    FirstStartElapsed(ts, State(start, 0, Idle, [], 0, plug, 0, []));
    FirstStartKeepsInv(ts, start, State(start, 0, Idle, [], 0, plug, 0, []), start);
  }

  /** Sleeps are never negative, so real time never runs backwards. */
  predicate Forward(s: State) {
    s.backup >= 0 && (!s.armed.Idle? ==> s.armed.ms >= 0)
  }

  lemma ExpireGoesForward(ts: seq<Timer>, s: State)
    requires NoZeroPeriod(ts) && Forward(s)
    ensures Forward(Expire(ts, s)) && Expire(ts, s).elapsed >= s.elapsed
  {
  }

  lemma {:induction false} RunKeepsInv(ts: seq<Timer>, start: int, s: State, n: nat)
    requires Legal(ts) && ClockFits(ts, start) && Inv(ts, start, s) && Forward(s)
    requires start * 1000 + Run(ts, s, n).elapsed < 0x8000_0000 * 1000
    ensures Inv(ts, start, Run(ts, s, n)) && Forward(Run(ts, s, n))
  {
    if n > 0 {
      RunGoesForward(ts, s, n - 1);
      ExpireGoesForward(ts, Run(ts, s, n - 1));
      RunKeepsInv(ts, start, s, n - 1);
      ExpireKeepsInv(ts, start, Run(ts, s, n - 1));
    }
  }

  lemma {:induction false} RunGoesForward(ts: seq<Timer>, s: State, n: nat)
    requires NoZeroPeriod(ts) && Forward(s)
    ensures Forward(Run(ts, s, n))
  {
    if n > 0 {
      RunGoesForward(ts, s, n - 1);
      ExpireGoesForward(ts, Run(ts, s, n - 1));
    }
  }

  lemma BeginGoesForward(ts: seq<Timer>, start: int, plug: bool)
    requires NoZeroPeriod(ts)
    ensures Forward(Begin(ts, start, plug))
  {
  }

  /** What the invariant says of a state of a run. */
  ghost predicate FiredAsDue(ts: seq<Timer>, start: int, s: State) {
    && start <= Reached(s) && s.fired == AllRan(ts, start, Reached(s))
    && Ascending(s.fired, (Reached(s) - start) * 1000)
    && (s.armed.Idle? ==> s.elapsed == (Reached(s) - start) * 1000)
    && (!s.armed.Idle? ==>
         (Reached(s) - start) * 1000 <= s.elapsed <= (s.timestamp + s.minWait - start) * 1000
         && Quiet(ts, s.timestamp, s.timestamp + s.minWait))
  }

  /** Safety over every run of any list, whatever its actions. After any number of
      expiries, while the real clock is below 2^31 seconds: what was executed is exactly
      what the batches after the start and up to the second reached execute, each once;
      the real clock lies between that second and the next firing, and nothing is due
      strictly between those two. */
  lemma FiredExactlyRan(ts: seq<Timer>, start: int, plug: bool, n: nat)
    requires Legal(ts) && ClockFits(ts, start)
    requires start * 1000 + Run(ts, Begin(ts, start, plug), n).elapsed < 0x8000_0000 * 1000
    ensures FiredAsDue(ts, start, Run(ts, Begin(ts, start, plug), n))
  {
    BeginInv(ts, start, plug);
    BeginGoesForward(ts, start, plug);
    FiredFrom(ts, start, Begin(ts, start, plug), n);
  }

  lemma FiredFrom(ts: seq<Timer>, start: int, s: State, n: nat)
    requires Legal(ts) && ClockFits(ts, start) && Inv(ts, start, s) && Forward(s)
    requires start * 1000 + Run(ts, s, n).elapsed < 0x8000_0000 * 1000
    ensures FiredAsDue(ts, start, Run(ts, s, n))
  {
    RunKeepsInv(ts, start, s, n);
    InvFires(ts, start, Run(ts, s, n));
  }

  lemma InvFires(ts: seq<Timer>, start: int, s: State)
    requires Inv(ts, start, s) && Forward(s)
    ensures FiredAsDue(ts, start, s)
  {
    AllRanAscends(ts, start, Reached(s));
  }

  /** All jobs of a log, in order. */
  function JobsOf(log: seq<Firing>): (jobs: seq<Job>)
    decreases |log|
  {
    if log == [] then [] else JobsOf(log[..|log| - 1]) + log[|log| - 1].jobs
  }

  lemma JobsOfLog(log: seq<Firing>, ms: int, jobs: seq<Job>)
    ensures JobsOf(Log(log, ms, jobs)) == JobsOf(log) + jobs
  {
    if jobs != [] { assert (log + [Firing(ms, jobs)])[..|log|] == log; }
  }

  lemma ExpireKeepsRelay(ts: seq<Timer>, s: State, plug: bool)
    requires NoZeroPeriod(ts) && s.plug == RelayAfter(JobsOf(s.fired), plug)
    ensures Expire(ts, s).plug == RelayAfter(JobsOf(Expire(ts, s).fired), plug)
  {
    if s.armed.Action? {
      var r := ActionExpires(ts, s);
      RelayOfBatch(s.batch, s.plug);
      JobsOfLog(s.fired, s.elapsed + s.armed.ms, Ran(s.batch));
      RelayOfTwo(JobsOf(s.fired), Ran(s.batch), plug);
      FirstStartOnlySchedules(ts, r);
    }
  }

  lemma FirstStartOnlySchedules(ts: seq<Timer>, s: State)
    requires NoZeroPeriod(ts)
    ensures FirstStart(ts, s).plug == s.plug && FirstStart(ts, s).fired == s.fired
  {
  }

  lemma {:induction false} RunKeepsRelay(ts: seq<Timer>, s: State, n: nat, plug: bool)
    requires NoZeroPeriod(ts) && s.plug == RelayAfter(JobsOf(s.fired), plug)
    ensures Run(ts, s, n).plug == RelayAfter(JobsOf(Run(ts, s, n).fired), plug)
  {
    if n > 0 {
      RunKeepsRelay(ts, s, n - 1, plug);
      ExpireKeepsRelay(ts, Run(ts, s, n - 1), plug);
    }
  }

  /** The relay over every run of any list: after any number of expiries it is what the
      jobs executed so far, in their order, make of its state at the start. */
  lemma RelayFollowsTheLog(ts: seq<Timer>, start: int, plug: bool, n: nat)
    requires Legal(ts) && ClockFits(ts, start)
    requires start * 1000 + Run(ts, Begin(ts, start, plug), n).elapsed < 0x8000_0000 * 1000
    ensures var s := Run(ts, Begin(ts, start, plug), n);
      start <= Reached(s) && s.plug == RelayAfter(JobsOf(AllRan(ts, start, Reached(s))), plug)
  {
    FirstStartOnlySchedules(ts, State(start, 0, Idle, [], 0, plug, 0, []));
    assert JobsOf([]) == [] && RelayAfter([], plug) == plug;
    RunKeepsRelay(ts, Begin(ts, start, plug), n, plug);
    FiredExactlyRan(ts, start, plug, n);
  }

  /** With known actions only: what was executed is exactly everything due after the start
      and up to the virtual clock. */
  lemma FiredExactlyDue(ts: seq<Timer>, start: int, plug: bool, n: nat)
    requires Legal(ts) && Known(ts) && ClockFits(ts, start)
    requires start * 1000 + Run(ts, Begin(ts, start, plug), n).elapsed < 0x8000_0000 * 1000
    ensures var s := Run(ts, Begin(ts, start, plug), n);
      && start <= s.timestamp
      && s.fired == AllDue(ts, start, s.timestamp)
      && Ascending(s.fired, (s.timestamp - start) * 1000)
      && s.timestamp * 1000 <= start * 1000 + s.elapsed
      && (s.armed.Idle? ==> s.timestamp * 1000 == start * 1000 + s.elapsed)
      && (!s.armed.Idle? ==> start * 1000 + s.elapsed <= (s.timestamp + s.minWait) * 1000)
      && (!s.armed.Idle? ==> Quiet(ts, s.timestamp, s.timestamp + s.minWait))
  {
    BeginInv(ts, start, plug);
    BeginGoesForward(ts, start, plug);
    FiredFrom(ts, start, Begin(ts, start, plug), n);
    RunKeepsInv(ts, start, Begin(ts, start, plug), n);
    KnownReached(ts, start, Run(ts, Begin(ts, start, plug), n));
  }

  lemma KnownReached(ts: seq<Timer>, start: int, s: State)
    requires Known(ts) && Inv(ts, start, s)
    ensures Reached(s) == s.timestamp && AllRan(ts, start, s.timestamp) == AllDue(ts, start, s.timestamp)
    ensures StopsAt(ts, start, s.timestamp) <==> FixedNow(ts, s.timestamp)
  {
    KnownSecond(ts, Reached(s));
    AllOfKnownIsDue(ts, start, s.timestamp);
  }

  /** With an unrecognised entry nothing is ever armed: the first round returns, and
      there is no second one. */
  lemma UnrecognisedNeverArms(ts: seq<Timer>, start: int, plug: bool, n: nat)
    requires NoZeroPeriod(ts) && HasUnrecognised(ts)
    ensures Run(ts, Begin(ts, start, plug), n) == Begin(ts, start, plug)
    ensures Begin(ts, start, plug).armed == Idle && Begin(ts, start, plug).fired == []
  {
    var i :| 0 <= i < |ts| && ts[i].Unrecognised?;
    MinWaitBelow(ts, ToInt32(start), |ts|, i);
    IdleStays(ts, Begin(ts, start, plug), n);
  }

  lemma {:induction false} IdleStays(ts: seq<Timer>, s: State, n: nat)
    requires NoZeroPeriod(ts) && s.armed.Idle?
    ensures Run(ts, s, n) == s
  {
    if n > 0 { IdleStays(ts, s, n - 1); }
  }

  /** Without a next round the scheduler is stopped for good. */
  lemma GivenUpStays(ts: seq<Timer>, s: State, n: nat)
    requires NoZeroPeriod(ts) && s.armed.Action? && !Execute(s.batch, 0, s.plug).proceed
    ensures Expire(ts, s).armed == Idle && Run(ts, Expire(ts, s), n) == Expire(ts, s)
  {
    IdleStays(ts, Expire(ts, s), n);
  }

  /** A list text that ends in the separator has such an entry: nothing of it is ever
      executed. */
  lemma TrailingSeparatorNeverArms(text: string, start: int, plug: bool)
    requires forall s | s in Pieces(text, ';') :: WellFormedEntry(s)
    requires NoZeroPeriod(ParseAll(Pieces(text, ';')))
    ensures forall s | s in Pieces(text + ";", ';') :: WellFormedEntry(s)
    ensures var ts := ParseAll(Pieces(text + ";", ';'));
      NoZeroPeriod(ts) && HasUnrecognised(ts) && Begin(ts, start, plug).armed == Idle
  {
    var ps, all := Pieces(text, ';'), Pieces(text + ";", ';');
    PiecesOfTrailing(text, ';');
    assert WellFormedEntry("") && ParseTimer("") == Unrecognised;
    var ts := ParseAll(all);
    forall i | 0 <= i < |ts| ensures ts[i].Loop? ==> ts[i].period > 0 {
      if i < |ps| { assert all[i] == ps[i] && ParseAll(ps)[i] == ParseTimer(ps[i]); }
    }
    assert ts[|ps|] == ParseTimer("");
    UnrecognisedNeverArms(ts, start, plug, 0);
  }

  /** Why a run stops, for any list: an unrecognised entry, a fixed timer due at the second
      reached, or an unknown action that gave up the batch of that second. It never gets
      past a fixed instant that lay ahead at the start, nor past a batch given up. */
  lemma StopsExactly(ts: seq<Timer>, start: int, plug: bool, n: nat)
    requires Listed(ts) && ClockFits(ts, start)
    requires start * 1000 + Run(ts, Begin(ts, start, plug), n).elapsed < 0x8000_0000 * 1000
    ensures var s := Run(ts, Begin(ts, start, plug), n);
      && (s.armed.Idle? <==> HasUnrecognised(ts) || FixedNow(ts, Reached(s))
                             || (start < Reached(s) && !SurvivesSecond(ts, Reached(s))))
      && PassedNoFixed(ts, start, Reached(s))
      && forall v | start < v < Reached(s) :: SurvivesSecond(ts, v)
  {
    if HasUnrecognised(ts) {
      UnrecognisedNeverArms(ts, start, plug, n);
      UnrecognisedStands(ts, start, plug);
    } else {
      BeginInv(ts, start, plug);
      BeginGoesForward(ts, start, plug);
      StopsFrom(ts, start, Begin(ts, start, plug), n);
    }
  }

  lemma UnrecognisedStands(ts: seq<Timer>, start: int, plug: bool)
    requires NoZeroPeriod(ts) && HasUnrecognised(ts) && ClockFits(ts, start)
    ensures Reached(Begin(ts, start, plug)) == Begin(ts, start, plug).timestamp == start
  {
    var i :| 0 <= i < |ts| && ts[i].Unrecognised?;
    assert ToInt32(start) == start;
    MinWaitBelow(ts, start, |ts|, i);
  }

  lemma StopsFrom(ts: seq<Timer>, start: int, s: State, n: nat)
    requires Legal(ts) && ClockFits(ts, start) && Inv(ts, start, s) && Forward(s)
    requires start * 1000 + Run(ts, s, n).elapsed < 0x8000_0000 * 1000
    ensures var r := Run(ts, s, n);
      && (r.armed.Idle? <==> FixedNow(ts, Reached(r)) || (start < Reached(r) && !SurvivesSecond(ts, Reached(r))))
      && PassedNoFixed(ts, start, Reached(r))
      && forall v | start < v < Reached(r) :: SurvivesSecond(ts, v)
  {
    RunKeepsInv(ts, start, s, n);
    InvStops(ts, start, Run(ts, s, n));
  }

  lemma InvStops(ts: seq<Timer>, start: int, s: State)
    requires Inv(ts, start, s)
    ensures s.armed.Idle? <==> FixedNow(ts, Reached(s)) || (start < Reached(s) && !SurvivesSecond(ts, Reached(s)))
    ensures forall v | start < v < Reached(s) :: SurvivesSecond(ts, v)
  {
    GoesOnMeans(ts, Reached(s));
    forall v | start < v < Reached(s) ensures SurvivesSecond(ts, v) {
      GoesOnMeans(ts, v);
    }
  }

  /** With known actions only, the scheduler is dead exactly when a fixed timer's instant
      equals the virtual clock or an entry is unrecognised. */
  lemma StopsExactlyAtFixed(ts: seq<Timer>, start: int, plug: bool, n: nat)
    requires Listed(ts) && Known(ts) && ClockFits(ts, start)
    requires start * 1000 + Run(ts, Begin(ts, start, plug), n).elapsed < 0x8000_0000 * 1000
    ensures var s := Run(ts, Begin(ts, start, plug), n);
      && (s.armed.Idle? <==> FixedNow(ts, s.timestamp) || HasUnrecognised(ts))
      && PassedNoFixed(ts, start, s.timestamp)
  {
    if HasUnrecognised(ts) {
      UnrecognisedNeverArms(ts, start, plug, n);
      UnrecognisedStands(ts, start, plug);
    } else {
      BeginInv(ts, start, plug);
      BeginGoesForward(ts, start, plug);
      KnownStopsFrom(ts, start, Begin(ts, start, plug), n);
    }
  }

  lemma KnownStopsFrom(ts: seq<Timer>, start: int, s: State, n: nat)
    requires Legal(ts) && Known(ts) && ClockFits(ts, start) && Inv(ts, start, s) && Forward(s)
    requires start * 1000 + Run(ts, s, n).elapsed < 0x8000_0000 * 1000
    ensures Run(ts, s, n).armed.Idle? <==> FixedNow(ts, Run(ts, s, n).timestamp)
    ensures PassedNoFixed(ts, start, Run(ts, s, n).timestamp)
  {
    RunKeepsInv(ts, start, s, n);
    KnownReached(ts, start, Run(ts, s, n));
  }

  lemma {:induction false} RunShift(ts: seq<Timer>, s: State, n: nat)
    requires NoZeroPeriod(ts)
    ensures Run(ts, Expire(ts, s), n) == Run(ts, s, n + 1)
  {
    if n > 0 { RunShift(ts, s, n - 1); }
    else { assert Run(ts, s, 0) == s; }
  }

  lemma {:induction false} RunCompose(ts: seq<Timer>, s: State, m: nat, n: nat)
    requires NoZeroPeriod(ts)
    ensures Run(ts, Run(ts, s, m), n) == Run(ts, s, m + n)
  {
    if n > 0 { RunCompose(ts, s, m, n - 1); }
  }

  /** Every round comes to its firing. */
  lemma {:induction false} RoundEnds(ts: seq<Timer>, start: int, s: State) returns (n: nat)
    requires Legal(ts) && ClockFits(ts, start) && Inv(ts, start, s) && !s.armed.Idle?
    requires s.timestamp + s.minWait < 0x8000_0000
    ensures Inv(ts, start, Run(ts, s, n))
    ensures Reached(Run(ts, s, n)) == s.timestamp + s.minWait && OnTheSecond(start, Run(ts, s, n))
    decreases Ahead(s)
  {
    if s.armed.Action? {
      ActionKeepsInv(ts, start, s);
      n := 1;
      assert Run(ts, s, 0) == s;
    } else {
      RecheckKeepsInv(ts, start, s);
      var k := RoundEnds(ts, start, Expire(ts, s));
      RunShift(ts, s, k);
      n := k + 1;
    }
  }

  /** Nothing stops the scheduler before second `u`. */
  ghost predicate RunsUntil(ts: seq<Timer>, start: int, u: int) {
    PassedNoFixed(ts, start, u) && GoesOnUntil(ts, start, u)
  }

  /** Before a due second with nothing to stop it the scheduler is asleep, and it wakes no
      later. */
  lemma RoundBefore(ts: seq<Timer>, start: int, s: State, u: int, i: nat)
    requires Inv(ts, start, s) && Reached(s) < u && i < |ts| && Due(ts[i], u) && RunsUntil(ts, start, u)
    ensures !s.armed.Idle? && s.minWait > 0 && s.timestamp + s.minWait <= u
  {
    if !s.armed.Idle? && s.timestamp + s.minWait > u {
      QuietMeans(ts, s.timestamp, s.timestamp + s.minWait, u, i);
    }
  }

  /** A round on the way to second `u` ends no later than that. */
  lemma RoundUpTo(ts: seq<Timer>, start: int, s: State, u: int, i: nat) returns (k: nat, r: State)
    requires Legal(ts) && ClockFits(ts, start) && Inv(ts, start, s)
    requires Reached(s) < u < 0x8000_0000 && i < |ts| && Due(ts[i], u) && RunsUntil(ts, start, u)
    ensures r == Run(ts, s, k) && Inv(ts, start, r) && Reached(s) < Reached(r) <= u && OnTheSecond(start, r)
  {
    RoundBefore(ts, start, s, u, i);
    k := RoundEnds(ts, start, s);
    r := Run(ts, s, k);
  }

  /** Behind `n0` expiries the next round is computed no later than that second. */
  lemma NextRound(ts: seq<Timer>, start: int, s: State, n0: nat, u: int, i: nat) returns (n: nat)
    requires Legal(ts) && ClockFits(ts, start) && Inv(ts, start, Run(ts, s, n0))
    requires Reached(Run(ts, s, n0)) < u < 0x8000_0000
    requires i < |ts| && Due(ts[i], u) && RunsUntil(ts, start, u)
    ensures Inv(ts, start, Run(ts, s, n)) && Reached(Run(ts, s, n0)) < Reached(Run(ts, s, n)) <= u
    ensures OnTheSecond(start, Run(ts, s, n))
  {
    var k, r := RoundUpTo(ts, start, Run(ts, s, n0), u, i);
    RunCompose(ts, s, n0, k);
    n := n0 + k;
  }

  lemma {:induction false} ReachSecond(ts: seq<Timer>, start: int, s: State, n0: nat, u: int, i: nat) returns (n: nat)
    requires Legal(ts) && ClockFits(ts, start) && Inv(ts, start, Run(ts, s, n0))
    requires Reached(Run(ts, s, n0)) <= u < 0x8000_0000
    requires i < |ts| && Due(ts[i], u) && RunsUntil(ts, start, u) && OnTheSecond(start, Run(ts, s, n0))
    ensures Inv(ts, start, Run(ts, s, n)) && Reached(Run(ts, s, n)) == u && OnTheSecond(start, Run(ts, s, n))
    decreases u - Reached(Run(ts, s, n0))
  {
    n := n0;
    if Reached(Run(ts, s, n0)) < u {
      n := NextRound(ts, start, s, n0, u, i);
      n := ReachSecond(ts, start, s, n, u, i);
    }
  }

  /** Liveness: whatever is due with nothing unknown in front of it, and nothing to stop the
      scheduler before, is executed by some run, at its own second. */
  lemma EveryDueIsFired(ts: seq<Timer>, start: int, plug: bool, u: int, i: nat) returns (n: nat, f: Firing)
    requires Legal(ts) && ClockFits(ts, start)
    requires start < u < 0x8000_0000 && i < |ts| && ReachedAt(ts, u, i) && RunsUntil(ts, start, u)
    ensures f in Run(ts, Begin(ts, start, plug), n).fired
    ensures f.ms == (u - start) * 1000 && JobOf(ts, i) in f.jobs
    ensures Run(ts, Begin(ts, start, plug), n).elapsed == (u - start) * 1000
  {
    BeginInv(ts, start, plug);
    n, f := DueIsFiredFrom(ts, start, Begin(ts, start, plug), u, i);
  }

  lemma DueIsFiredFrom(ts: seq<Timer>, start: int, s: State, u: int, i: nat) returns (n: nat, f: Firing)
    requires Legal(ts) && ClockFits(ts, start) && Inv(ts, start, s) && OnTheSecond(start, s)
    requires Reached(s) <= u && start < u < 0x8000_0000
    requires i < |ts| && ReachedAt(ts, u, i) && RunsUntil(ts, start, u)
    ensures f in Run(ts, s, n).fired && f.ms == (u - start) * 1000 && JobOf(ts, i) in f.jobs
    ensures Run(ts, s, n).elapsed == (u - start) * 1000
  {
    assert Run(ts, s, 0) == s;
    n := ReachSecond(ts, start, s, 0, u, i);
    f := Firing((u - start) * 1000, Ran(DueJobs(ts, u, |ts|)));
    FiringIsLogged(ts, start, u, i, f);
  }

  lemma FiringIsLogged(ts: seq<Timer>, start: int, u: int, i: nat, f: Firing)
    requires start < u && i < |ts| && ReachedAt(ts, u, i)
    requires f == Firing((u - start) * 1000, Ran(DueJobs(ts, u, |ts|)))
    ensures f in AllRan(ts, start, u) && JobOf(ts, i) in f.jobs
  {
    RanMembers(ts, u, i);
    AllRanMembers(ts, start, u, f);
  }

  /** After a fixed instant nothing is ever executed: the scheduler stops for good. */
  lemma NothingAfterFixed(ts: seq<Timer>, start: int, plug: bool, n: nat, j: nat, f: Firing)
    requires Legal(ts) && ClockFits(ts, start)
    requires start * 1000 + Run(ts, Begin(ts, start, plug), n).elapsed < 0x8000_0000 * 1000
    requires j < |ts| && ts[j].Fixed? && start <= ts[j].at
    requires f in Run(ts, Begin(ts, start, plug), n).fired
    ensures start * 1000 + f.ms <= ts[j].at * 1000
  {
    StopsExactly(ts, start, plug, n);
    FiredExactlyRan(ts, start, plug, n);
    AllRanMembers(ts, start, Reached(Run(ts, Begin(ts, start, plug), n)), f);
  }

  /** Within the range of the clock, `n` expiries have executed timer `i` at second `u`. */
  ghost predicate RunFires(ts: seq<Timer>, start: int, plug: bool, n: nat, u: int, i: nat)
    requires NoZeroPeriod(ts) && i < |ts|
  {
    var s := Run(ts, Begin(ts, start, plug), n);
    start * 1000 + s.elapsed < 0x8000_0000 * 1000
    && exists f | f in s.fired :: f.ms == (u - start) * 1000 && JobOf(ts, i) in f.jobs
  }

  /** A timer of any list is executed at a second, by some run, exactly when it is due then,
      every timer due then in front of it has a known action, no fixed instant lies between
      the start and that second, and at every second between them the first unknown action,
      if there is one, starts with '0'. */
  lemma FiredAtExactly(ts: seq<Timer>, start: int, plug: bool, u: int, i: nat)
    requires Legal(ts) && ClockFits(ts, start)
    requires start < u < 0x8000_0000 && i < |ts|
    ensures (exists n: nat :: RunFires(ts, start, plug, n, u, i))
       <==> ReachedAt(ts, u, i) && PassedNoFixed(ts, start, u) && forall v | start < v < u :: SurvivesSecond(ts, v)
  {
    RunsUntilMeans(ts, start, u);
    if ReachedAt(ts, u, i) && RunsUntil(ts, start, u) {
      var n, f := EveryDueIsFired(ts, start, plug, u, i);
      assert RunFires(ts, start, plug, n, u, i);
    }
    forall n: nat | RunFires(ts, start, plug, n, u, i) ensures ReachedAt(ts, u, i) && RunsUntil(ts, start, u) {
      FiredIsDue(ts, start, plug, n, u, i);
    }
  }

  lemma RunsUntilMeans(ts: seq<Timer>, start: int, u: int)
    ensures RunsUntil(ts, start, u)
       <==> PassedNoFixed(ts, start, u) && forall v | start < v < u :: SurvivesSecond(ts, v)
  {
    forall v | start < v < u ensures GoesOn(DueJobs(ts, v, |ts|)) <==> SurvivesSecond(ts, v) {
      GoesOnMeans(ts, v);
    }
  }

  lemma FiredIsDue(ts: seq<Timer>, start: int, plug: bool, n: nat, u: int, i: nat)
    requires Legal(ts) && ClockFits(ts, start)
    requires start < u < 0x8000_0000 && i < |ts| && RunFires(ts, start, plug, n, u, i)
    ensures ReachedAt(ts, u, i) && RunsUntil(ts, start, u)
  {
    BeginInv(ts, start, plug);
    BeginGoesForward(ts, start, plug);
    RunKeepsInv(ts, start, Begin(ts, start, plug), n);
    LoggedIsDue(ts, start, Run(ts, Begin(ts, start, plug), n), u, i);
  }

  lemma LoggedIsDue(ts: seq<Timer>, start: int, s: State, u: int, i: nat)
    requires Inv(ts, start, s) && start < u && i < |ts|
    requires exists f | f in s.fired :: f.ms == (u - start) * 1000 && JobOf(ts, i) in f.jobs
    ensures ReachedAt(ts, u, i) && RunsUntil(ts, start, u)
  {
    var f :| f in s.fired && f.ms == (u - start) * 1000 && JobOf(ts, i) in f.jobs;
    AllRanMembers(ts, start, Reached(s), f);
    RanMembers(ts, u, i);
  }

  /** With known actions only: exactly when it is due then and no fixed instant lies between
      the start and that second. */
  lemma KnownFiredAtExactly(ts: seq<Timer>, start: int, plug: bool, u: int, i: nat)
    requires Legal(ts) && Known(ts) && ClockFits(ts, start)
    requires start < u < 0x8000_0000 && i < |ts|
    ensures (exists n: nat :: RunFires(ts, start, plug, n, u, i)) <==> Due(ts[i], u) && PassedNoFixed(ts, start, u)
  {
    FiredAtExactly(ts, start, plug, u, i);
  }

  /** The price of an action that starts with '0': the scheduler goes on, and whatever is
      due behind it in the list at the same second is dropped without a trace. The list
      text "l5=0;l5=on_switch" never switches anything. */
  lemma ZeroActionDrops(ts: seq<Timer>, start: int, plug: bool, u: int)
    requires ts == [Loop(5, "0"), Loop(5, "on_switch")] && 0 <= start < u < 0x8000_0000
    ensures Legal(ts) && !exists n: nat :: RunFires(ts, start, plug, n, u, 1)
  {
    FiredAtExactly(ts, start, plug, u, 1);
    if ReachedAt(ts, u, 1) { assert Due(ts[0], u) && JobOf(ts, 0).action == "0"; }
  }

  // ----- the chunked sleep -----

  /** The state `k` hours into a sleep of `m` seconds. */
  function Slept(s: State, m: nat, k: nat): (r: State) {
    s.(elapsed := s.elapsed + 3600000 * k, backup := m - 3600 * k)
  }

  lemma OneHour(ts: seq<Timer>, s: State)
    requires NoZeroPeriod(ts) && 3600 <= s.backup < 0x1_0000_0000
    ensures Arm(s).armed == Recheck(3600000)
    ensures Expire(ts, Arm(s)) == Arm(s.(elapsed := s.elapsed + 3600000, backup := s.backup - 3600))
  {
  }

  lemma {:induction false} SleepsOn(ts: seq<Timer>, s: State, m: nat, k: nat)
    requires NoZeroPeriod(ts) && s.backup == m < 0x1_0000_0000 && k <= m / 3600
    ensures Run(ts, Arm(s), k) == Arm(Slept(s, m, k))
  {
    if k == 0 {
      assert Slept(s, m, k) == s;
    } else {
      SleepsOn(ts, s, m, k - 1);
      OneHour(ts, Slept(s, m, k - 1));
    }
  }

  lemma SleptIsArmed(s: State, m: nat, k: nat)
    requires m < 0x1_0000_0000 && k <= m / 3600
    ensures var r := Arm(Slept(s, m, k));
      if k < m / 3600 then r.armed == Recheck(3600000)
      else r.armed.Action? && r.armed.ms < 3600000 && r.elapsed + r.armed.ms == s.elapsed + 1000 * m
  {
  }

  /** A sleep of `m` seconds: m/3600 re-arms of one hour and one of the rest. No
      action runs before the last, and the armed delays add up to 1000*m. */
  lemma ChunkedSleep(ts: seq<Timer>, s: State, m: nat, k: nat)
    requires NoZeroPeriod(ts) && s.backup == m < 0x1_0000_0000 && k <= m / 3600
    ensures var r := Run(ts, Arm(s), k);
      && r == Arm(s.(elapsed := s.elapsed + 3600000 * k, backup := m - 3600 * k))
      && (if k < m / 3600 then r.armed == Recheck(3600000)
          else r.armed.Action? && r.armed.ms < 3600000 && r.elapsed + r.armed.ms == s.elapsed + 1000 * m)
      && r.fired == s.fired && r.plug == s.plug
  {
    SleepsOn(ts, s, m, k);
    SleptIsArmed(s, m, k);
  }
}
