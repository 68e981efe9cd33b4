/** One debounced key as an event machine, and what its log of presses looks like after
    any run of any number of keys. */
module KeyProtocol {

  datatype Edge = NegEdge | PosEdge | Disabled

  /** A press that started, the 5 s long press, and a release confirmed after 50 ms. */
  datatype KeyEvent = Pressed | LongHeld | Released

  datatype Key = Key(
    level: int,             // key_level: 1 is up
    edge: Edge,             // the pin's interrupt type
    t50ms: bool,            // the debounce timer is armed
    t5s: bool,              // the long-press timer is armed
    log: seq<KeyEvent>)

  /** What key_intr_handler does for a key whose status bit is set. */
  function Interrupt(k: Key): (r: Key) {
    if k.level == 1 then k.(t5s := true, level := 0, edge := PosEdge, log := k.log + [Pressed])
    else k.(edge := Disabled, t50ms := true)
  }

  /** key_50ms_cb with the pin high or low. */
  function Debounced(k: Key, high: bool): (r: Key) {
    if high then k.(t50ms := false, t5s := false, level := 1, edge := NegEdge, log := k.log + [Released])
    else k.(t50ms := false, edge := PosEdge)
  }

  /** key_5s_cb with the pin high or low. */
  function LongTimer(k: Key, high: bool): (r: Key) {
    if high then k.(t5s := false) else k.(t5s := false, log := k.log + [LongHeld])
  }

  /** key_init. */
  const UP: Key := Key(1, NegEdge, false, false, [])

  // ----- the shape of a log -----

  datatype Phase = Up | Down | DownLong | Bad

  /** A log read as presses, each with at most one long press and then its release. */
  function Next(p: Phase, e: KeyEvent): (r: Phase) {
    match (p, e)
    case (Up, Pressed) => Down
    case (Down, LongHeld) => DownLong
    case (Down, Released) => Up
    case (DownLong, Released) => Up
    case _ => Bad
  }

  function Scan(log: seq<KeyEvent>): (p: Phase)
    decreases |log|
  {
    if log == [] then Up else Next(Scan(log[..|log| - 1]), log[|log| - 1])
  }

  lemma ScanSnoc(log: seq<KeyEvent>, e: KeyEvent)
    ensures Scan(log + [e]) == Next(Scan(log), e)
  {
    assert (log + [e])[..|log|] == log;
  }

  function Count(log: seq<KeyEvent>, e: KeyEvent): (n: nat)
    decreases |log|
  {
    if log == [] then 0 else Count(log[..|log| - 1], e) + (if log[|log| - 1] == e then 1 else 0)
  }

  /** In a well-formed log the presses are the releases and the one still held. */
  lemma {:induction false} PressesBalance(log: seq<KeyEvent>)
    requires Scan(log) != Bad
    ensures Count(log, Pressed) == Count(log, Released) + (if Scan(log) == Up then 0 else 1)
    ensures Count(log, LongHeld) <= Count(log, Released) + (if Scan(log) == DownLong then 1 else 0)
    decreases |log|
  {
    if log != [] { PressesBalance(log[..|log| - 1]); }
  }

  /** Once bad, always bad. */
  lemma {:induction false} PrefixesScan(log: seq<KeyEvent>, n: nat)
    requires Scan(log) != Bad && n <= |log|
    ensures Scan(log[..n]) != Bad
    decreases |log|
  {
    if n == |log| {
      assert log[..n] == log;
    } else {
      PrefixesScan(log[..|log| - 1], n);
      assert log[..|log| - 1][..n] == log[..n];
    }
  }

  /** Between two long presses of a well-formed log lie a release and a new press. */
  lemma LongPressesAreApart(log: seq<KeyEvent>, i: nat, j: nat)
    requires Scan(log) != Bad && i < j < |log| && log[i] == log[j] == LongHeld
    ensures exists k | i < k < j :: log[k] == Released
    ensures exists k | i < k < j :: log[k] == Pressed
  {
    PrefixesScan(log, j + 1);
    PrefixesScan(log, i + 1);
    assert log[..i + 1][..i] == log[..i];
    assert Scan(log[..i + 1]) == DownLong;
    assert log[..j + 1][..j] == log[..j];
    assert Scan(log[..j]) == Down;
    var r := SeekBack(log, i + 1, j);
    assert log[r] == Pressed;
    assert Scan(log[..r]) == Up;
    var q := SeekRelease(log, i + 1, r);
    assert log[q] == Released;
  }

  /** The press that a phase Down began with, when the log was not yet Down at `from`. */
  lemma {:induction false} SeekBack(log: seq<KeyEvent>, from: nat, until: nat) returns (k: nat)
    requires from <= until <= |log| && Scan(log[..from]) == DownLong && Scan(log[..until]) == Down
    ensures from <= k < until && log[k] == Pressed && Scan(log[..k]) == Up
    decreases until
  {
    var m := until - 1;
    assert until > from;
    assert log[..until][..m] == log[..m];
    k := m;
  }

  /** The release that a phase Up began with, when the log was held at `from`. */
  lemma {:induction false} SeekRelease(log: seq<KeyEvent>, from: nat, until: nat) returns (k: nat)
    requires from <= until <= |log| && Scan(log[..from]) == DownLong && Scan(log[..until]) == Up
    ensures from <= k < until && log[k] == Released
    decreases until
  {
    var m := until - 1;
    assert log[..until][..m] == log[..m];
    k := m;
  }

  // ----- one key -----

  /** Between two events: the level tells the edge type, the debounce timer runs exactly
      while the interrupt is disabled, the long-press timer only during a press that has
      not been long yet, and the log is well formed and ends where the level says. */
  predicate KeyInv(k: Key) {
    && (k.level == 0 || k.level == 1)
    && (k.level == 1 <==> k.edge == NegEdge)
    && (k.t50ms <==> k.edge == Disabled)
    && (k.t5s ==> k.level == 0 && Scan(k.log) == Down)
    && (if k.level == 1 then Scan(k.log) == Up else Scan(k.log) == Down || Scan(k.log) == DownLong)
  }

  datatype Event = Intr | Expire50ms(high: bool) | Expire5s(high: bool)

  /** An expiry only comes from an armed timer; an interrupt may come at any time. */
  function Step(k: Key, e: Event): (r: Key) {
    match e
    case Intr => Interrupt(k)
    case Expire50ms(high) => if k.t50ms then Debounced(k, high) else k
    case Expire5s(high) => if k.t5s then LongTimer(k, high) else k
  }

  lemma StepKeepsInv(k: Key, e: Event)
    requires KeyInv(k)
    ensures KeyInv(Step(k, e))
  {
    ScanSnoc(k.log, Pressed);
    ScanSnoc(k.log, Released);
    ScanSnoc(k.log, LongHeld);
  }

  // ----- any number of keys -----

  /** An interrupt with status bits for some keys, or one key's timer. */
  datatype PadEvent = Status(bits: seq<bool>) | Timer(key: nat, e: Event)

  /** Whether an event concerns key `i`, and as what. */
  function For(e: PadEvent, i: nat): (own: seq<Event>) {
    match e
    case Status(bits) => if i < |bits| && bits[i] then [Intr] else []
    case Timer(key, te) => if i == key then [te] else []
  }

  function StepFor(k: Key, own: seq<Event>): (r: Key) {
    if own == [] then k else Step(k, own[0])
  }

  function PadStep(ks: seq<Key>, e: PadEvent): (r: seq<Key>)
    ensures |r| == |ks|
    ensures forall i | 0 <= i < |ks| :: r[i] == StepFor(ks[i], For(e, i))
  {
    match e
    case Status(bits) =>
      seq(|ks|, i requires 0 <= i < |ks| => if i < |bits| && bits[i] then Step(ks[i], Intr) else ks[i])
    case Timer(key, te) => if key < |ks| then ks[key := Step(ks[key], te)] else ks
  }

  function PadRun(ks: seq<Key>, es: seq<PadEvent>): (r: seq<Key>)
    ensures |r| == |ks|
    decreases |es|
  {
    if es == [] then ks else PadStep(PadRun(ks, es[..|es| - 1]), es[|es| - 1])
  }

  /** The events of a run that concern one key. */
  function Own(es: seq<PadEvent>, i: nat): (r: seq<Event>)
    decreases |es|
  {
    if es == [] then []
    else Own(es[..|es| - 1], i) + For(es[|es| - 1], i)
  }

  function KeyRun(k: Key, es: seq<Event>): (r: Key)
    decreases |es|
  {
    if es == [] then k else Step(KeyRun(k, es[..|es| - 1]), es[|es| - 1])
  }

  /** No key's events affect another: in any run each key goes through its own events alone. */
  lemma {:induction false} KeysAreIndependent(ks: seq<Key>, es: seq<PadEvent>, i: nat)
    requires i < |ks|
    ensures PadRun(ks, es)[i] == KeyRun(ks[i], Own(es, i))
    decreases |es|
  {
    if es != [] {
      var m := |es| - 1;
      KeysAreIndependent(ks, es[..m], i);
      KeyRunSnoc(ks[i], Own(es[..m], i), For(es[m], i));
    }
  }

  lemma KeyRunSnoc(k: Key, es: seq<Event>, own: seq<Event>)
    requires |own| <= 1
    ensures KeyRun(k, es + own) == StepFor(KeyRun(k, es), own)
  {
    if own == [] { assert es + own == es; }
    else { assert (es + own)[..|es|] == es; }
  }

  lemma {:induction false} KeyRunKeepsInv(k: Key, es: seq<Event>)
    requires KeyInv(k)
    ensures KeyInv(KeyRun(k, es))
    decreases |es|
  {
    if es != [] {
      KeyRunKeepsInv(k, es[..|es| - 1]);
      StepKeepsInv(KeyRun(k, es[..|es| - 1]), es[|es| - 1]);
    }
  }

  // ----- what a run means, from its events alone -----

  /** The `i`-th event finds the key up: a press starts. */
  predicate Presses(es: seq<Event>, i: nat)
    requires i < |es|
    decreases i, 1
  {
    es[i].Intr? && !DownAfter(es[..i])
  }

  /** The `i`-th event is an expiry of the armed debounce timer with the pin high. */
  predicate Confirms(es: seq<Event>, i: nat)
    requires i < |es|
    decreases i, 1
  {
    es[i] == Expire50ms(true) && CheckingAfter(es[..i])
  }

  /** The `i`-th event is an expiry of the armed long-press timer with the pin low. */
  predicate HoldsLong(es: seq<Event>, i: nat)
    requires i < |es|
    decreases i, 1
  {
    es[i] == Expire5s(false) && WaitingAfter(es[..i])
  }

  /** There was an interrupt, and no release has been confirmed since. */
  predicate DownAfter(es: seq<Event>)
    decreases |es|, 0
  {
    es != [] && (es[|es| - 1].Intr? || (DownAfter(es[..|es| - 1]) && !Confirms(es, |es| - 1)))
  }

  /** An interrupt found the key down, and the debounce timer has not expired since. */
  predicate CheckingAfter(es: seq<Event>)
    decreases |es|, 0
  {
    es != [] && if es[|es| - 1].Intr? then DownAfter(es[..|es| - 1])
                else !es[|es| - 1].Expire50ms? && CheckingAfter(es[..|es| - 1])
  }

  /** A press started, and neither has its long-press timer expired since nor has a
      release been confirmed. */
  predicate WaitingAfter(es: seq<Event>)
    decreases |es|, 0
  {
    es != [] && (Presses(es, |es| - 1)
                 || (WaitingAfter(es[..|es| - 1]) && !es[|es| - 1].Expire5s? && !Confirms(es, |es| - 1)))
  }

  /** Every press, confirmed release and long press of a run, in order. */
  function LogOf(es: seq<Event>): (log: seq<KeyEvent>)
    decreases |es|
  {
    if es == [] then []
    else
      var m := |es| - 1;
      var log := LogOf(es[..m]);
      if Presses(es, m) then log + [Pressed]
      else if Confirms(es, m) then log + [Released]
      else if HoldsLong(es, m) then log + [LongHeld]
      else log
  }

  /** Over every run from key_init: the level, the trigger, both timers and the log are what
      the events say. In particular an expiry of the debounce timer with the pin low leaves
      the key down, waiting for a rising edge. */
  lemma {:induction false} RunMeans(es: seq<Event>)
    ensures KeyRun(UP, es) == Key(
      if DownAfter(es) then 0 else 1,
      if CheckingAfter(es) then Disabled else if DownAfter(es) then PosEdge else NegEdge,
      CheckingAfter(es), WaitingAfter(es), LogOf(es))
    ensures CheckingAfter(es) || WaitingAfter(es) ==> DownAfter(es)
    decreases |es|
  {
    if es != [] { RunMeans(es[..|es| - 1]); }
  }

  /** The key is down exactly if an interrupt came and no release was confirmed since. */
  lemma {:induction false} DownMeans(es: seq<Event>)
    ensures DownAfter(es) <==> exists i: nat :: i < |es| && es[i].Intr? && NoneConfirms(es, i)
    decreases |es|
  {
    if es != [] {
      var m := |es| - 1;
      DownMeans(es[..m]);
      forall i: nat | i < m ensures NoneConfirms(es, i) <==> NoneConfirms(es[..m], i) && !Confirms(es, m) {
        ConfirmsInPrefix(es, m);
      }
      assert NoneConfirms(es, m);
      if DownAfter(es[..m]) {
        var i: nat :| i < m && es[..m][i].Intr? && NoneConfirms(es[..m], i);
        assert es[i] == es[..m][i];
      }
    }
  }

  /** No release is confirmed behind the `i`-th event. */
  predicate NoneConfirms(es: seq<Event>, i: nat) {
    forall j: nat | i < j < |es| :: !Confirms(es, j)
  }

  lemma ConfirmsInPrefix(es: seq<Event>, m: nat)
    requires m <= |es|
    ensures forall j: nat | j < m :: Confirms(es[..m], j) == Confirms(es, j)
  {
    forall j: nat | j < m ensures Confirms(es[..m], j) == Confirms(es, j) {
      assert es[..m][..j] == es[..j];
    }
  }

  /** After any run from key_init, for every key: the invariant, and presses started are
      releases confirmed plus one if the key is down; no press is long twice. */
  lemma EveryRun(n: nat, es: seq<PadEvent>, i: nat)
    requires i < n
    ensures var k := PadRun(seq(n, _ => UP), es)[i];
      && KeyInv(k)
      && Count(k.log, Pressed) == Count(k.log, Released) + (if k.level == 0 then 1 else 0)
      && Count(k.log, LongHeld) <= Count(k.log, Pressed)
      && k.log == LogOf(Own(es, i))
  {
    var ks: seq<Key> := seq(n, _ => UP);
    KeysAreIndependent(ks, es, i);
    assert ks[i] == UP && Scan(UP.log) == Up;
    KeyRunKeepsInv(UP, Own(es, i));
    PressesBalance(KeyRun(UP, Own(es, i)).log);
    RunMeans(Own(es, i));
  }
}
