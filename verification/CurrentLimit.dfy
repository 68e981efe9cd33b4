/** The optional current limiter of light_set_aim: currents estimated in 32-bit integers,
    and white duties scaled down until the total fits. */
module CurrentLimit {
  import opened Arithmetic

  /** Unsigned `/`, by repeated subtraction. */
  function Div(x: int, n: int): (r: int)
    requires x >= 0 && n > 0
    ensures r >= 0
    decreases x
  {
    if x < n then 0 else 1 + Div(x - n, n)
  }

  /** The quotient is the one number whose multiple brackets the dividend. */
  lemma {:induction false} DivIs(x: int, n: int, q: int)
    requires n > 0 && q >= 0 && q * n <= x < (q + 1) * n
    ensures Div(x, n) == q
    decreases q
  {
    if q > 0 {
      assert (q - 1) * n == q * n - n && q * n >= n;
      DivIs(x - n, n, q - 1);
    }
  }

  lemma DivIsQuotient(x: int, n: int)
    requires x >= 0 && n > 0
    ensures Div(x, n) == x / n
  {
    DivIs(x, n, x / n);
  }

  /** duty_max_limit. */
  function DutyMax(period: int): (r: int) {
    Div(ToUint32(period * 1000), 45)
  }

  lemma DutyMaxIs(period: int)
    ensures DutyMax(period) == ToUint32(period * 1000) / 45
  {
    DivIsQuotient(ToUint32(period * 1000), 45);
  }

  /** The full-scale current of a channel: red, green, blue, cold and warm white. */
  function Weight(channel: nat): (w: int)
    requires channel < 5
    ensures 70000 <= w <= 151000
  {
    if channel == 0 then 151000 else if channel == 1 then 82000 else if channel == 2 then 70000 else 115000
  }

  /** light_get_cur reaches its end without a return value when the mapped duty is too large. */
  datatype Estimate = Current(value: int) | NoValue

  /** light_get_cur, on uint32. */
  function GetCur(duty: int, channel: nat, period: int): (e: Estimate)
    requires channel < 5 && DutyMax(period) > 0
  {
    var mapped := Div(ToUint32(duty * 22727), DutyMax(period));
    if mapped < 23000 then Current(ToUint32(mapped * Weight(channel)) / 22727) else NoValue
  }

  /** The product, by repeated addition. */
  function Times(a: nat, b: nat): (r: nat) {
    if a == 0 then 0 else Times(a - 1, b) + b
  }

  lemma {:induction false} TimesIsProduct(a: nat, b: nat)
    ensures Times(a, b) == a * b
  {
    if a > 0 { TimesIsProduct(a - 1, b); }
  }

  /** The part of full scale that a duty mapped to 0..22727 stands for. */
  function OfFullScale(mapped: int, channel: nat): (r: int)
    requires channel < 5
  {
    if mapped <= 0 then 0 else Div(Times(mapped, Weight(channel)), 22727)
  }

  /** The estimate meant: the same formula on integers that do not wrap. */
  function Meant(duty: int, channel: nat, period: int): (r: int)
    requires channel < 5 && DutyMax(period) > 0 && duty >= 0
  {
    OfFullScale(Div(duty * 22727, DutyMax(period)), channel)
  }

  lemma {:induction false} DivAtMost(x: int, n: int, bound: nat)
    requires n > 0 && 0 <= x <= bound * n
    ensures Div(x, n) <= bound
    decreases bound
  {
    if bound > 0 && x >= n {
      assert (bound - 1) * n == bound * n - n;
      DivAtMost(x - n, n, bound - 1);
    }
  }

  /** What light_get_cur computes: the duty is mapped through a product that may wrap. */
  function Read(duty: int, channel: nat, period: int): (r: int)
    requires channel < 5 && DutyMax(period) > 0
  {
    OfFullScale(Div(ToUint32(duty * 22727), DutyMax(period)), channel)
  }

  /** For duties up to the limit no product wraps exactly for periods up to 8504. */
  lemma NoWrapExactly(period: int)
    requires 1 <= period <= 10000
    ensures (forall duty | 0 <= duty <= DutyMax(period) :: duty * 22727 < 0x1_0000_0000) <==> period <= 8504
  {
    DutyMaxIs(period);
    if period > 8504 {
      assert DutyMax(period) * 22727 >= 0x1_0000_0000;
    }
  }

  lemma FullScale(mapped: int, channel: nat)
    requires 0 <= mapped <= 22727 && channel < 5
    ensures ToUint32(mapped * Weight(channel)) / 22727 == OfFullScale(mapped, channel)
    ensures 0 <= OfFullScale(mapped, channel) <= Weight(channel)
    ensures mapped == 0 ==> OfFullScale(mapped, channel) == 0
  {
    var product := mapped * Weight(channel);
    assert 0 <= product <= 22727 * Weight(channel) < 0x1_0000_0000;
    TimesIsProduct(mapped, Weight(channel));
    DivIsQuotient(product, 22727);
  }

  /** A duty that light_set_aim hands to light_get_cur: clipped by the limit of the period
      asked for, while the period itself is clipped to 10000. */
  predicate Clipped(duty: int, period: int) {
    1 <= period <= 10000 && 0 <= duty <= 95443717 && (duty <= DutyMax(period) || period == 10000)
  }

  /** Wrapped or not, such a duty is mapped to 0..22727. */
  lemma MappedAtMost(duty: int, period: int)
    requires Clipped(duty, period)
    ensures DutyMax(period) > 0 && Div(ToUint32(duty * 22727), DutyMax(period)) <= 22727
    ensures duty == 0 ==> Div(ToUint32(duty * 22727), DutyMax(period)) == 0
    ensures duty * 22727 < 0x1_0000_0000 ==> ToUint32(duty * 22727) == duty * 22727
  {
    LimitIsWide(period);
    DivAtMost(ToUint32(duty * 22727), DutyMax(period), 22727);
  }

  lemma LimitIsWide(period: int)
    requires 1 <= period <= 10000
    ensures 0 < DutyMax(period) <= 222222 && (period > 8504 ==> 0x1_0000_0000 <= DutyMax(period) * 22727)
  {
    DutyMaxIs(period);
  }

  /** For every period in use light_get_cur returns a value, within full scale. */
  lemma ReadIs(duty: int, channel: nat, period: int)
    requires Clipped(duty, period) && channel < 5
    ensures DutyMax(period) > 0 && GetCur(duty, channel, period) == Current(Read(duty, channel, period))
    ensures 0 <= Read(duty, channel, period) <= Weight(channel)
    ensures duty == 0 ==> Read(duty, channel, period) == 0
    ensures duty * 22727 < 0x1_0000_0000 ==> Read(duty, channel, period) == Meant(duty, channel, period)
  {
    MappedAtMost(duty, period);
    FullScale(Div(ToUint32(duty * 22727), DutyMax(period)), channel);
  }

  /** Where nothing wraps, the estimate is the one meant and at most full scale. */
  lemma EstimateIsMeant(duty: int, channel: nat, period: int)
    requires 1 <= period <= 8504 && 0 <= duty <= DutyMax(period) && channel < 5
    ensures GetCur(duty, channel, period) == Current(Meant(duty, channel, period))
    ensures 0 <= Meant(duty, channel, period) <= Weight(channel)
    ensures duty == 0 ==> Meant(duty, channel, period) == 0
  {
    NoWrapExactly(period);
    LimitIsWide(period);
    ReadIs(duty, channel, period);
  }

  // ----- scaling -----

  lemma NineTenthsShrinks(duty: nat)
    ensures 0 <= Div(duty * 9, 10) <= duty && (duty > 0 ==> Div(duty * 9, 10) < duty)
  {
    DivIsQuotient(duty * 9, 10);
  }

  /** A white duty after `k` rounds of the loop. */
  function Scaled(duty: nat, k: nat): (r: nat)
    ensures r <= duty
    decreases k
  {
    if k == 0 then duty
    else
      NineTenthsShrinks(duty);
      Scaled(Div(duty * 9, 10), k - 1)
  }

  /** Two white duties whose estimated currents fit into what is left. */
  predicate Fits(cw: int, ww: int, period: int, remain: int)
    requires DutyMax(period) > 0
  {
    Read(cw, 3, period) + Read(ww, 4, period) <= remain
  }

  /** What the scaling loop makes of the white duties. */
  function Whites(cw: nat, ww: nat, period: int, remain: nat): (r: (nat, nat))
    requires Clipped(cw, period) && Clipped(ww, period)
    ensures r.0 <= cw && r.1 <= ww && DutyMax(period) > 0 && Fits(r.0, r.1, period, remain)
    decreases cw + ww
  {
    ReadIs(cw, 3, period);
    ReadIs(ww, 4, period);
    if Fits(cw, ww, period, remain) then (cw, ww)
    else
      NineTenthsShrinks(cw);
      NineTenthsShrinks(ww);
      Whites(Div(cw * 9, 10), Div(ww * 9, 10), period, remain)
  }

  lemma LoopShrinks(cw: nat, ww: nat, period: int, remain: nat)
    requires Clipped(cw, period) && Clipped(ww, period)
    requires DutyMax(period) > 0 && !Fits(cw, ww, period, remain)
    ensures 0 <= Div(cw * 9, 10) + Div(ww * 9, 10) < cw + ww
    ensures Clipped(Div(cw * 9, 10), period) && Clipped(Div(ww * 9, 10), period)
    ensures Whites(cw, ww, period, remain) == Whites(Div(cw * 9, 10), Div(ww * 9, 10), period, remain)
  {
    ReadIs(cw, 3, period);
    ReadIs(ww, 4, period);
    NineTenthsShrinks(cw);
    NineTenthsShrinks(ww);
  }

  /** None of the first `k` rounds makes the currents fit. */
  ghost predicate NoneFits(cw: nat, ww: nat, period: int, remain: int, k: nat)
    requires DutyMax(period) > 0
  {
    forall j: nat | j < k :: !Fits(Scaled(cw, j), Scaled(ww, j), period, remain)
  }

  lemma NoneFitsFurther(cw: nat, ww: nat, period: int, remain: int, k: nat)
    requires DutyMax(period) > 0 && !Fits(cw, ww, period, remain)
    requires Div(cw * 9, 10) >= 0 && Div(ww * 9, 10) >= 0
    requires NoneFits(Div(cw * 9, 10), Div(ww * 9, 10), period, remain, k)
    ensures NoneFits(cw, ww, period, remain, k + 1)
  {
    forall j: nat | j < k + 1 ensures !Fits(Scaled(cw, j), Scaled(ww, j), period, remain) {
      if j > 0 { assert !Fits(Scaled(Div(cw * 9, 10), j - 1), Scaled(Div(ww * 9, 10), j - 1), period, remain); }
    }
  }

  /** The loop stops after the least number of rounds that makes the currents fit. */
  lemma {:induction false} WhitesAreLeast(cw: nat, ww: nat, period: int, remain: nat) returns (k: nat)
    requires Clipped(cw, period) && Clipped(ww, period)
    ensures Whites(cw, ww, period, remain) == (Scaled(cw, k), Scaled(ww, k))
    ensures DutyMax(period) > 0 && NoneFits(cw, ww, period, remain, k)
    decreases cw + ww
  {
    MappedAtMost(cw, period);
    k := 0;
    if !Fits(cw, ww, period, remain) {
      LoopShrinks(cw, ww, period, remain);
      k := WhitesAreLeast(Div(cw * 9, 10), Div(ww * 9, 10), period, remain);
      NoneFitsFurther(cw, ww, period, remain, k);
      k := k + 1;
    }
  }

  /** The period of a request, as light_set_aim stores it. */
  function Period(period: int): (p: int) {
    if period < 10000 then period else 10000
  }

  /** The duties of a request for that period, as light_set_aim clips them. */
  predicate Allowed(duty: seq<int>, period: int) {
    |duty| == 5 && forall i | 0 <= i < 5 :: 0 <= duty[i] <= DutyMax(period)
  }

  lemma AllowedIsClipped(duty: seq<int>, period: int)
    requires 1 <= period < 0x1_0000_0000 && Allowed(duty, period)
    ensures forall i | 0 <= i < 5 :: Clipped(duty[i], Period(period))
  {
    DutyMaxIs(period);
  }

  /** What the estimates of the first three channels leave of 450000 with a margin of 80000. */
  function Remain(duty: seq<int>, period: int): (r: int)
    requires |duty| == 5 && DutyMax(period) > 0
  {
    450000 - (Read(duty[0], 0, period) + Read(duty[1], 1, period) + Read(duty[2], 2, period)) - 80000
  }

  /** The currents meant, of all channels. */
  function Total(duty: seq<int>, period: int): (r: int)
    requires |duty| == 5 && DutyMax(period) > 0 && forall i | 0 <= i < 5 :: duty[i] >= 0
  {
    Meant(duty[0], 0, period) + Meant(duty[1], 1, period) + Meant(duty[2], 2, period)
    + Meant(duty[3], 3, period) + Meant(duty[4], 4, period)
  }

  /** The three colours never use up the budget: the unsigned rest does not underflow. */
  lemma RemainIsPositive(duty: seq<int>, period: int)
    requires |duty| == 5 && forall i | 0 <= i < 5 :: Clipped(duty[i], period)
    ensures DutyMax(period) > 0 && Remain(duty, period) >= 67000
  {
    ReadIs(duty[0], 0, period);
    ReadIs(duty[1], 1, period);
    ReadIs(duty[2], 2, period);
  }

  /** The duties behind the limiter block of light_set_aim. */
  function Limited(duty: seq<int>, period: int): (r: seq<int>)
    requires 1 <= period < 0x1_0000_0000 && Allowed(duty, period)
    ensures Allowed(r, period) && r[..3] == duty[..3]
  {
    AllowedIsClipped(duty, period);
    RemainIsPositive(duty, Period(period));
    var (cw, ww) := Whites(duty[3], duty[4], Period(period), Remain(duty, Period(period)));
    duty[3 := cw][4 := ww]
  }

  /** light_get_cur as the loop calls it. */
  method ReadCurrent(duty: int, channel: nat, period: int) returns (cur: int)
    requires Clipped(duty, period) && channel < 5
    ensures DutyMax(period) > 0 && cur == Read(duty, channel, period) && 0 <= cur <= Weight(channel)
  {
    ReadIs(duty, channel, period);
    var mapped := Div(ToUint32(duty * 22727), DutyMax(period));
    cur := ToUint32(mapped * Weight(channel)) / 22727;
  }

  /** One round for one white duty: the product does not wrap. */
  method NineTenths(duty: int) returns (r: int)
    requires 0 <= duty <= 95443717
    ensures r == Div(duty * 9, 10) && 0 <= r <= duty
  {
    r := ToUint32(duty * 9) / 10;
    DivIsQuotient(duty * 9, 10);
  }

  /** One round of the loop for the two white duties. */
  method ScaleOnce(duty: array<int>, period: int) returns (curCw: int, curWw: int)
    requires duty.Length == 5 && Clipped(duty[3], period) && Clipped(duty[4], period)
    modifies duty
    ensures duty[..3] == old(duty[..3])
    ensures duty[3] == Div(old(duty[3]) * 9, 10) && duty[4] == Div(old(duty[4]) * 9, 10)
    ensures 0 <= duty[3] <= old(duty[3]) && 0 <= duty[4] <= old(duty[4]) && DutyMax(period) > 0
    ensures curCw == Read(duty[3], 3, period) && curWw == Read(duty[4], 4, period)
  {
    LimitIsWide(period);
    duty[3] := NineTenths(duty[3]);
    duty[4] := NineTenths(duty[4]);
    curCw := ReadCurrent(duty[3], 3, period);
    curWw := ReadCurrent(duty[4], 4, period);
  }

  /** The scaling loop of light_set_aim: it ends, and changes the white duties only. */
  method ScaleWhites(duty: array<int>, period: int, curRemain: int)
    requires duty.Length == 5 && curRemain >= 0 && Clipped(duty[3], period) && Clipped(duty[4], period)
    modifies duty
    ensures duty[..3] == old(duty[..3])
    ensures (duty[3], duty[4]) == Whites(old(duty[3]), old(duty[4]), period, curRemain)
  {
    ghost var goal := Whites(duty[3], duty[4], period, curRemain);
    var curCw := ReadCurrent(duty[3], 3, period);
    var curWw := ReadCurrent(duty[4], 4, period);
    while curCw + curWw > curRemain
      invariant duty[..3] == old(duty[..3])
      invariant Clipped(duty[3], period) && Clipped(duty[4], period)
      invariant Whites(duty[3], duty[4], period, curRemain) == goal
      invariant curCw + curWw == Read(duty[3], 3, period) + Read(duty[4], 4, period)
      decreases duty[3] + duty[4]
    {
      LoopShrinks(duty[3], duty[4], period, curRemain);
      curCw, curWw := ScaleOnce(duty, period);
    }
  }

  /** The limiter block of light_set_aim, for every period a caller may ask for. Where no
      estimate wraps, the currents meant and the margin fit the budget afterwards. */
  method LimitCurrent(duty: array<int>, period: int)
    requires duty.Length == 5 && 1 <= period < 0x1_0000_0000 && Allowed(duty[..], period)
    modifies duty
    ensures duty[..] == Limited(old(duty[..]), period)
    ensures DutyMax(Period(period)) > 0
    ensures DutyMax(period) * 22727 < 0x1_0000_0000 ==> Total(duty[..], Period(period)) + 80000 <= 450000
  {
    ghost var asked := duty[..];
    AllowedIsClipped(asked, period);
    var curRemain := ReadRemain(duty, Period(period));
    assert duty[3] == asked[3] && duty[4] == asked[4];
    ScaleWhites(duty, Period(period), curRemain);
    LimitedIs(asked, duty[..], period);
    if DutyMax(period) * 22727 < 0x1_0000_0000 { LimitedFits(asked, period); }
  }

  /** The reading of the colours and the unsigned rest of the budget. */
  method ReadRemain(duty: array<int>, period: int) returns (curRemain: int)
    requires duty.Length == 5 && forall i | 0 <= i < 5 :: Clipped(duty[i], period)
    ensures DutyMax(period) > 0 && curRemain == Remain(duty[..], period) && curRemain >= 0
  {
    RemainIsPositive(duty[..], period);
    var curR := ReadCurrent(duty[0], 0, period);
    var curG := ReadCurrent(duty[1], 1, period);
    var curB := ReadCurrent(duty[2], 2, period);
    curRemain := ToUint32(450000 - (curR + curG + curB) - 80000);
  }

  lemma LimitedIs(asked: seq<int>, given: seq<int>, period: int)
    requires 1 <= period < 0x1_0000_0000 && Allowed(asked, period) && |given| == 5 && given[..3] == asked[..3]
    requires DutyMax(Period(period)) > 0 && Remain(asked, Period(period)) >= 0
    requires Clipped(asked[3], Period(period)) && Clipped(asked[4], Period(period))
    requires (given[3], given[4]) == Whites(asked[3], asked[4], Period(period), Remain(asked, Period(period)))
    ensures given == Limited(asked, period)
  {
    forall i | 0 <= i < 3 ensures given[i] == asked[i] {
      assert given[..3][i] == asked[..3][i];
    }
  }

  // ----- the budget -----

  lemma LimitedFits(duty: seq<int>, period: int)
    requires 1 <= period < 0x1_0000_0000 && Allowed(duty, period) && DutyMax(period) * 22727 < 0x1_0000_0000
    ensures DutyMax(Period(period)) > 0
    ensures Total(Limited(duty, period), Period(period)) + 80000 <= 450000
  {
    var r, p := Limited(duty, period), Period(period);
    AllowedIsClipped(duty, period);
    AllowedIsClipped(r, period);
    RemainIsPositive(duty, p);
    assert Fits(r[3], r[4], p, Remain(duty, p));
    forall i: nat | i < 5 ensures Read(r[i], i, p) == Meant(r[i], i, p) {
      ReadIs(r[i], i, p);
    }
    forall i: nat | i < 3 ensures r[i] == duty[i] {
      assert r[..3][i] == duty[..3][i];
    }
  }

  /** A request with the whites after `k` rounds. */
  function After(duty: seq<int>, k: nat): (r: seq<int>)
    requires |duty| == 5 && duty[3] >= 0 && duty[4] >= 0
    ensures |r| == 5
  {
    duty[3 := Scaled(duty[3], k)][4 := Scaled(duty[4], k)]
  }

  /** What light_get_cur makes of all channels. */
  function Estimated(duty: seq<int>, period: int): (r: int)
    requires |duty| == 5 && DutyMax(period) > 0
  {
    Read(duty[0], 0, period) + Read(duty[1], 1, period) + Read(duty[2], 2, period)
    + Read(duty[3], 3, period) + Read(duty[4], 4, period)
  }

  /** For every period the limiter scales the whites by the least number of rounds after
      which the currents estimated and the margin fit the budget. */
  lemma LimitedIsLeastEstimate(duty: seq<int>, period: int) returns (k: nat)
    requires 1 <= period < 0x1_0000_0000 && Allowed(duty, period)
    ensures DutyMax(Period(period)) > 0 && Limited(duty, period) == After(duty, k)
    ensures Estimated(After(duty, k), Period(period)) + 80000 <= 450000
    ensures forall j: nat | j < k :: Estimated(After(duty, j), Period(period)) + 80000 > 450000
  {
    var p := Period(period);
    AllowedIsClipped(duty, period);
    RemainIsPositive(duty, p);
    k := WhitesAreLeast(duty[3], duty[4], p, Remain(duty, p));
    forall j: nat | j < k ensures Estimated(After(duty, j), p) + 80000 > 450000 {
      assert !Fits(Scaled(duty[3], j), Scaled(duty[4], j), p, Remain(duty, p));
    }
  }

  /** Where no product wraps, so do the currents meant. */
  lemma LimitedIsLeast(duty: seq<int>, period: int) returns (k: nat)
    requires 1 <= period < 0x1_0000_0000 && Allowed(duty, period) && DutyMax(period) * 22727 < 0x1_0000_0000
    ensures DutyMax(Period(period)) > 0 && Limited(duty, period) == After(duty, k)
    ensures Total(After(duty, k), Period(period)) + 80000 <= 450000
    ensures forall j: nat | j < k :: Total(After(duty, j), Period(period)) + 80000 > 450000
  {
    k := LimitedIsLeastEstimate(duty, period);
    EstimatedIsTotal(duty, period, k);
    forall j: nat | j < k ensures Total(After(duty, j), Period(period)) + 80000 > 450000 {
      EstimatedIsTotal(duty, period, j);
    }
  }

  lemma EstimatedIsTotal(duty: seq<int>, period: int, k: nat)
    requires 1 <= period < 0x1_0000_0000 && Allowed(duty, period) && DutyMax(period) * 22727 < 0x1_0000_0000
    requires DutyMax(Period(period)) > 0
    ensures Estimated(After(duty, k), Period(period)) == Total(After(duty, k), Period(period))
  {
    var p, r := Period(period), After(duty, k);
    AllowedIsClipped(r, period);
    forall i: nat | i < 5 ensures Read(r[i], i, p) == Meant(r[i], i, p) {
      ReadIs(r[i], i, p);
    }
  }

  /** A round, in plain arithmetic. */
  lemma {:induction false} ScaledStep(duty: nat, k: nat)
    ensures Scaled(duty, 0) == duty && Scaled(duty, k + 1) == Scaled(duty, k) * 9 / 10
    decreases k
  {
    NineTenthsShrinks(duty);
    DivIsQuotient(duty * 9, 10);
    if k > 0 { ScaledStep(Div(duty * 9, 10), k - 1); }
  }

  /** So a request is left alone exactly when what it means fits already. */
  lemma UnchangedExactly(duty: seq<int>, period: int)
    requires 1 <= period < 0x1_0000_0000 && Allowed(duty, period) && DutyMax(period) * 22727 < 0x1_0000_0000
    ensures DutyMax(Period(period)) > 0
    ensures Limited(duty, period) == duty <==> Total(duty, Period(period)) + 80000 <= 450000
  {
    var k := LimitedIsLeast(duty, period);
    assert After(duty, 0) == duty;
  }

  /** The current meant, in plain arithmetic: the part of the channel's full scale that the
      duty is of the limit. */
  lemma MeantIs(duty: int, channel: nat, period: int)
    requires 1 <= period <= 10000 && 0 <= duty <= DutyMax(period) && channel < 5
    ensures DutyMax(period) == period * 1000 / 45 > 0
    ensures Meant(duty, channel, period)
         == duty * 22727 / (period * 1000 / 45) * [151000, 82000, 70000, 115000, 115000][channel] / 22727
  {
    LimitIsPlain(period);
    PartIsPlain(duty * 22727, DutyMax(period), channel);
  }

  lemma LimitIsPlain(period: int)
    requires 1 <= period <= 10000
    ensures DutyMax(period) == period * 1000 / 45 > 0
  {
    DutyMaxIs(period);
  }

  /** And the current estimated: the product is taken modulo 2^32. */
  lemma ReadIsPlain(duty: int, channel: nat, period: int)
    requires Clipped(duty, period) && channel < 5
    ensures DutyMax(period) == period * 1000 / 45 > 0
    ensures Read(duty, channel, period)
         == duty * 22727 % 0x1_0000_0000 / (period * 1000 / 45) * [151000, 82000, 70000, 115000, 115000][channel] / 22727
  {
    LimitIsPlain(period);
    PartIsPlain(duty * 22727 % 0x1_0000_0000, DutyMax(period), channel);
    assert ToUint32(duty * 22727) == duty * 22727 % 0x1_0000_0000;
  }

  lemma PartIsPlain(product: int, max: int, channel: nat)
    requires product >= 0 && max > 0 && channel < 5
    ensures OfFullScale(Div(product, max), channel)
         == product / max * [151000, 82000, 70000, 115000, 115000][channel] / 22727
  {
    DivIsQuotient(product, max);
    FullScaleIs(product / max, channel);
  }

  lemma FullScaleIs(mapped: int, channel: nat)
    requires mapped >= 0 && channel < 5
    ensures OfFullScale(mapped, channel) == mapped * [151000, 82000, 70000, 115000, 115000][channel] / 22727
  {
    TimesIsProduct(mapped, Weight(channel));
    DivIsQuotient(Times(mapped, Weight(channel)), 22727);
    assert Weight(channel) == [151000, 82000, 70000, 115000, 115000][channel];
  }

  /** The same duty on all channels: the largest one that is allowed and no more than
      full scale. */
  function LargeDuty(period: int): (duty: seq<int>)
    ensures |duty| == 5
  {
    var d := if DutyMax(period) < DutyMax(Period(period)) then DutyMax(period) else DutyMax(Period(period));
    [d, d, d, d, d]
  }

  /** Where products can wrap, the wrapped estimates of that duty ask for no scaling, and
      the currents meant exceed the budget. */
  lemma LargeDutyExceeds(period: int)
    requires 1 <= period < 0x1_0000_0000 && DutyMax(period) * 22727 >= 0x1_0000_0000
    ensures DutyMax(Period(period)) > 0 && Allowed(LargeDuty(period), period)
    ensures Limited(LargeDuty(period), period) == LargeDuty(period)
    ensures Total(LargeDuty(period), Period(period)) + 80000 > 450000
  {
    var duty, p := LargeDuty(period), Period(period);
    LimitIsWide(p);
    AtLargeDuty(duty[0], 0, p);
    AtLargeDuty(duty[1], 1, p);
    AtLargeDuty(duty[2], 2, p);
    AtLargeDuty(duty[3], 3, p);
    AtLargeDuty(duty[4], 4, p);
    AllowedIsClipped(duty, period);
    RemainIsPositive(duty, p);
    assert Fits(duty[3], duty[4], p, Remain(duty, p));
  }

  lemma AtLargeDuty(duty: int, channel: nat, period: int)
    requires 1 <= period <= 10000 && channel < 5
    requires 0 <= duty <= DutyMax(period) && duty * 22727 >= 0x1_0000_0000
    ensures DutyMax(period) > 0 && 22727 * Meant(duty, channel, period) > 19327 * Weight(channel) - 22727
    ensures 0 <= Read(duty, channel, period) <= 30000
  {
    var max := DutyMax(period);
    LimitIsWide(period);
    DivAtLeast(duty * 22727, max, 19327);
    DivAtMost(duty * 22727, max, 22727);
    MostOfFullScale(Div(duty * 22727, max), channel);
    assert ToUint32(duty * 22727) == duty * 22727 - 0x1_0000_0000;
    DivAtMost(ToUint32(duty * 22727), max, 3400);
    LittleOfFullScale(Div(ToUint32(duty * 22727), max), channel);
  }

  lemma {:induction false} DivAtLeast(x: int, n: int, bound: nat)
    requires n > 0 && bound * n <= x
    ensures Div(x, n) >= bound
    decreases bound
  {
    if bound > 0 {
      assert (bound - 1) * n == bound * n - n && bound * n >= n;
      DivAtLeast(x - n, n, bound - 1);
    }
  }

  lemma MostOfFullScale(mapped: int, channel: nat)
    requires 19327 <= mapped <= 22727 && channel < 5
    ensures 22727 * OfFullScale(mapped, channel) > 19327 * Weight(channel) - 22727
  {
    var product := mapped * Weight(channel);
    assert product >= 19327 * Weight(channel);
    TimesIsProduct(mapped, Weight(channel));
    DivIsQuotient(product, 22727);
  }

  lemma LittleOfFullScale(mapped: int, channel: nat)
    requires 0 <= mapped <= 3400 && channel < 5
    ensures 0 <= OfFullScale(mapped, channel) <= 30000
  {
    var product := mapped * Weight(channel);
    assert 0 <= product <= 3400 * Weight(channel) <= 30000 * 22727;
    TimesIsProduct(mapped, Weight(channel));
    DivIsQuotient(product, 22727);
  }

  predicate KeepsBudget(duty: seq<int>, period: int)
    requires 1 <= period < 0x1_0000_0000 && Allowed(duty, period)
  {
    DutyMax(Period(period)) > 0 && Total(Limited(duty, period), Period(period)) + 80000 <= 450000
  }

  /** Every request ends within the budget exactly when the product at its own duty limit
      does not wrap: for periods in use, exactly up to 8504. */
  lemma BudgetKeptExactly(period: int)
    requires 1 <= period < 0x1_0000_0000
    ensures (forall duty | Allowed(duty, period) :: KeepsBudget(duty, period))
       <==> DutyMax(period) * 22727 < 0x1_0000_0000
    ensures period <= 10000 ==> (DutyMax(period) * 22727 < 0x1_0000_0000 <==> period <= 8504)
  {
    if period <= 10000 {
      LimitIsWide(period);
      NoWrapExactly(period);
    }
    if DutyMax(period) * 22727 < 0x1_0000_0000 {
      forall duty | Allowed(duty, period) ensures KeepsBudget(duty, period) {
        LimitedFits(duty, period);
      }
    } else {
      LargeDutyExceeds(period);
      assert !KeepsBudget(LargeDuty(period), period);
    }
  }

  /** In numbers: at period 10000 with every duty at
      its limit the wrapped estimates ask for no scaling, while the currents meant exceed
      the budget. */
  lemma WrapDefeatsLimiter()
    ensures DutyMax(10000) == 222222
    ensures GetCur(222222, 0, 10000) == Current(22583) && GetCur(222222, 1, 10000) == Current(12263)
    ensures GetCur(222222, 2, 10000) == Current(10469) && GetCur(222222, 3, 10000) == Current(17199)
    ensures GetCur(222222, 4, 10000) == Current(17199)
    ensures 17199 + 17199 <= 450000 - (22583 + 12263 + 10469) - 80000
    ensures Total([222222, 222222, 222222, 222222, 222222], 10000) + 80000 > 450000
  {
    WrappedAtFullDuty();
    MeantAtFullDuty(222222);
  }

  lemma WrappedAtFullDuty()
    ensures DutyMax(10000) == 222222
    ensures GetCur(222222, 0, 10000) == Current(22583) && GetCur(222222, 1, 10000) == Current(12263)
    ensures GetCur(222222, 2, 10000) == Current(10469) && GetCur(222222, 3, 10000) == Current(17199)
    ensures GetCur(222222, 4, 10000) == Current(17199)
  {
    DutyMaxIs(10000);
    DivIs(ToUint32(222222 * 22727), 222222, 3399);
  }

  lemma MeantAtFullDuty(duty: int)
    requires duty == 222222
    ensures DutyMax(10000) == 222222
    ensures Meant(duty, 0, 10000) == Weight(0) && Meant(duty, 1, 10000) == Weight(1)
    ensures Meant(duty, 2, 10000) == Weight(2) && Meant(duty, 3, 10000) == Weight(3) && Meant(duty, 4, 10000) == Weight(4)
  {
    DutyMaxIs(10000);
    var mapped := Div(duty * 22727, DutyMax(10000));
    DivIs(duty * 22727, 222222, 22727);
    AllOfFullScale(mapped, 0);
    AllOfFullScale(mapped, 1);
    AllOfFullScale(mapped, 2);
    AllOfFullScale(mapped, 3);
    AllOfFullScale(mapped, 4);
  }

  lemma AllOfFullScale(mapped: int, channel: nat)
    requires mapped == 22727 && channel < 5
    ensures OfFullScale(mapped, channel) == Weight(channel)
  {
    TimesIsProduct(mapped, Weight(channel));
    DivIs(mapped * Weight(channel), 22727, Weight(channel));
  }
}
