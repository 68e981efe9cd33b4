/** An independent observer of the two I2C lines: it knows nothing of the master and
    recovers conditions and bytes from levels alone (UM10204, sections 3.1.3 to 3.1.6). */
module I2cDecoder {

  /** The levels on the wire; true is high. */
  datatype Level = Level(sda: bool, scl: bool)

  /** Broken marks a start or stop condition in the middle of a byte. */
  datatype BusEvent = Start | Stop | Byte(value: int, nack: bool) | Broken

  datatype Decoder = Decoder(
    line: Level,             // the last levels seen
    stable: bool,            // SDA has not moved since SCL rose
    inFrame: bool,           // between a start and a stop condition
    bits: int, acc: int,     // bits of the current byte, and their value
    events: seq<BusEvent>)

  /** SDA fell (a start) or rose (a stop) while SCL stayed high. */
  function Condition(d: Decoder, rose: bool): (r: Decoder) {
    var es := if d.bits == 0 then d.events else d.events + [Broken];
    d.(stable := false, inFrame := !rose, bits := 0, acc := 0, events := es + [if rose then Stop else Start])
  }

  /** SCL fell after a high phase in which SDA did not move: one data or acknowledge bit. */
  function Clocked(d: Decoder, bit: bool): (r: Decoder) {
    if !d.inFrame then d
    else if d.bits < 8 then d.(bits := d.bits + 1, acc := 2 * d.acc + (if bit then 1 else 0))
    else d.(bits := 0, acc := 0, events := d.events + [Byte(d.acc, bit)])
  }

  function See(d: Decoder, l: Level): (r: Decoder) {
    var d1 :=
      if d.line.scl && l.scl then (if d.line.sda == l.sda then d else Condition(d, l.sda))
      else if !d.line.scl && l.scl then d.(stable := true)
      else if d.line.scl && !l.scl && d.stable then Clocked(d, d.line.sda)
      else d;
    d1.(line := l)
  }

  /** Everything seen on a wire that was idle before its first level. */
  function Decode(wire: seq<Level>): (d: Decoder)
    decreases |wire|
  {
    if wire == [] then Decoder(Level(true, true), false, false, 0, 0, [])
    else See(Decode(wire[..|wire| - 1]), wire[|wire| - 1])
  }

  lemma DecodeSnoc(wire: seq<Level>, l: Level)
    ensures Decode(wire + [l]) == See(Decode(wire), l)
  {
    assert (wire + [l])[..|wire|] == wire;
  }

  // ----- wire discipline -----

  predicate OneLine(a: Level, b: Level) {
    a.sda == b.sda || a.scl == b.scl
  }

  /** No step of the wire moves both lines. */
  predicate Clean(wire: seq<Level>) {
    forall i | 0 < i < |wire| :: OneLine(wire[i - 1], wire[i])
  }

  /** How often SDA moved while SCL stayed high; the wire starts from idle. */
  function HighMoves(wire: seq<Level>): (n: nat)
    decreases |wire|
  {
    if wire == [] then 0
    else
      var m := |wire| - 1;
      var before := if m == 0 then Level(true, true) else wire[m - 1];
      HighMoves(wire[..m]) + (if MovedHigh(before, wire[m]) then 1 else 0)
  }

  function Conditions(es: seq<BusEvent>): (n: nat)
    decreases |es|
  {
    if es == [] then 0
    else Conditions(es[..|es| - 1]) + (if es[|es| - 1].Start? || es[|es| - 1].Stop? then 1 else 0)
  }

  lemma ConditionsSnoc(es: seq<BusEvent>, e: BusEvent)
    ensures Conditions(es + [e]) == Conditions(es) + (if e.Start? || e.Stop? then 1 else 0)
  {
    assert (es + [e])[..|es|] == es;
  }

  predicate MovedHigh(a: Level, b: Level) {
    a.scl && b.scl && a.sda != b.sda
  }

  lemma SeeConditions(d: Decoder, l: Level)
    ensures Conditions(See(d, l).events) == Conditions(d.events) + (if MovedHigh(d.line, l) then 1 else 0)
  {
    if MovedHigh(d.line, l) {
      var es := if d.bits == 0 then d.events else d.events + [Broken];
      ConditionsSnoc(d.events, Broken);
      ConditionsSnoc(es, if l.sda then Stop else Start);
    } else {
      ConditionsSnoc(d.events, Byte(d.acc, d.line.sda));
    }
  }

  /** SDA moves with SCL high exactly at the start and stop conditions reported. */
  lemma {:induction false} HighMovesAreConditions(wire: seq<Level>)
    ensures HighMoves(wire) == Conditions(Decode(wire).events)
    ensures wire != [] ==> Decode(wire).line == wire[|wire| - 1]
    decreases |wire|
  {
    if wire != [] {
      HighMovesAreConditions(wire[..|wire| - 1]);
      SeeConditions(Decode(wire[..|wire| - 1]), wire[|wire| - 1]);
    }
  }

  // ----- bytes as bits -----

  /** `w >> i`. */
  function ShiftRight(w: int, i: nat): (r: int)
    requires w >= 0
    ensures 0 <= r <= w
  {
    if i == 0 then w else ShiftRight(w / 2, i - 1)
  }

  lemma {:induction false} ShiftRightStep(w: int, i: nat)
    requires w >= 0
    ensures ShiftRight(w, i + 1) == ShiftRight(w, i) / 2
  {
    if i > 0 { ShiftRightStep(w / 2, i - 1); }
  }

  lemma ByteHasEightBits(w: int)
    requires 0 <= w < 256
    ensures ShiftRight(w, 8) == 0
  {
    ShiftRightStep(w, 0);
    ShiftRightStep(w, 1);
    ShiftRightStep(w, 2);
    ShiftRightStep(w, 3);
    ShiftRightStep(w, 4);
    ShiftRightStep(w, 5);
    ShiftRightStep(w, 6);
    ShiftRightStep(w, 7);
  }

  /** The value of the `n` answers from number `k` on, first one highest. */
  function Gather(answers: nat -> bool, k: nat, n: nat): (v: int)
    ensures v >= 0
  {
    if n == 0 then 0 else 2 * Gather(answers, k, n - 1) + (if answers(k + n - 1) then 1 else 0)
  }

  lemma {:induction false} GatherBound(answers: nat -> bool, k: nat, n: nat)
    ensures Gather(answers, k, n) < ShiftLeft(1, n)
  {
    if n > 0 { GatherBound(answers, k, n - 1); }
  }

  /** `v << n`. */
  function ShiftLeft(v: int, n: nat): (r: int) {
    if n == 0 then v else 2 * ShiftLeft(v, n - 1)
  }
}
