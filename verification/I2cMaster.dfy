/** The bit-banged I2C master. Every level it sets lands on the wire together with what
    the slave does to SDA; what it sends and reads is what an observer decodes. */
module I2cMaster {
  import opened I2cDecoder

  class Bus {
    var lastSda: bool           // m_nLastSDA
    var lastScl: bool           // m_nLastSCL
    var released: bool          // the slave does not pull SDA low
    const answers: nat -> bool  // the level the slave gives to the k-th bit asked of it
    var asked: nat
    ghost var wire: seq<Level>
    ghost var seen: Decoder     // what an observer of the wire has decoded

    /** The wire follows master and slave, and never moved both lines in one step. */
    ghost predicate Valid()
      reads this
    {
      && wire != [] && Clean(wire) && seen == Decode(wire)
      && wire[|wire| - 1] == seen.line == Level(lastSda && released, lastScl)
    }

    /** Both lines high, nobody in a frame. */
    ghost predicate Quiet()
      reads this
    {
      Valid() && lastSda && lastScl && released && !seen.inFrame && seen.bits == 0 && seen.acc == 0
    }

    /** In a frame with SCL low, `n` bits of value `v` into a byte. */
    ghost predicate Within(n: int, v: int, es: seq<BusEvent>)
      reads this
    {
      && Valid() && released && !lastScl
      && seen.inFrame && seen.bits == n && seen.acc == v && seen.events == es
    }

    constructor (answers: nat -> bool)
      ensures Quiet() && asked == 0 && this.answers == answers && seen.events == []
    {
      lastSda, lastScl, released, asked := true, true, true, 0;
      this.answers := answers;
      wire := [Level(true, true)];
      seen := Decode([Level(true, true)]);
      DecodeSnoc([], Level(true, true));
      assert [Level(true, true)] == [] + [Level(true, true)];
    }

    /** i2c_master_setDC. */
    method SetDC(sda: bool, scl: bool)
      requires wire != [] && Clean(wire) && seen == Decode(wire) && OneLine(wire[|wire| - 1], Level(sda && released, scl))
      modifies this`lastSda, this`lastScl, this`wire, this`seen
      ensures Valid() && lastSda == sda && lastScl == scl
      ensures seen == See(old(seen), Level(sda && released, scl))
    {
      lastSda, lastScl := sda, scl;
      DecodeSnoc(wire, Level(sda && released, scl));
      wire := wire + [Level(sda && released, scl)];
      seen := See(seen, Level(sda && released, scl));
    }

    /** The slave's move between two clock pulses: it pulls SDA low or lets go. */
    method SlaveSets(high: bool)
      requires Valid() && !lastScl
      modifies this`released, this`wire, this`seen
      ensures Valid() && released == high
      ensures seen == See(old(seen), Level(lastSda && high, false)) == old(seen).(line := Level(lastSda && high, false))
    {
      released := high;
      DecodeSnoc(wire, Level(lastSda && high, false));
      wire := wire + [Level(lastSda && high, false)];
      seen := See(seen, Level(lastSda && high, false));
    }

    /** i2c_master_getDC: the level of SDA. */
    method GetDC() returns (sda: bool)
      requires Valid()
      ensures sda == wire[|wire| - 1].sda
    {
      sda := lastSda && released;
    }

    /** One clock pulse for the slave's next bit, read while SCL is high. */
    method SampleBit() returns (bit: bool)
      requires Valid() && !lastScl && lastSda
      modifies this`lastScl, this`lastSda, this`wire, this`seen, this`released, this`asked
      ensures Valid() && lastScl && lastSda && released == bit == answers(old(asked)) && asked == old(asked) + 1
      ensures seen == old(seen).(line := Level(bit, true), stable := true)
    {
      SlaveSets(answers(asked));
      asked := asked + 1;
      SetDC(true, true);
      bit := GetDC();
    }

    /** i2c_master_start. */
    method StartCondition()
      requires Valid() && released && (lastScl ==> lastSda) && seen.bits == 0
      modifies this`lastSda, this`lastScl, this`wire, this`seen
      ensures Valid() && !lastSda && lastScl
      ensures seen == Decoder(Level(false, true), false, true, 0, 0, old(seen).events + [Start])
    {
      SetDC(true, lastScl);
      SetDC(true, true);
      SetDC(false, true);
    }

    /** i2c_master_stop. */
    method StopCondition()
      requires exists v :: Within(0, v, seen.events)
      modifies this`lastSda, this`lastScl, this`wire, this`seen
      ensures Quiet() && seen.events == old(seen).events + [Stop]
    {
      SetDC(false, lastScl);
      SetDC(false, true);
      SetDC(true, true);
    }

    /** One round of the loop of i2c_master_writeByte. */
    method WriteBit(dat: bool)
      requires Within(seen.bits, seen.acc, seen.events) && seen.bits < 8
      modifies this`lastSda, this`lastScl, this`wire, this`seen
      ensures Within(old(seen).bits + 1, 2 * old(seen).acc + (if dat then 1 else 0), old(seen).events)
    {
      SetDC(dat, false);
      SetDC(dat, true);
      SetDC(dat, false);
    }

    /** i2c_master_writeByte. */
    method WriteByte(wrdata: int)
      requires 0 <= wrdata < 256 && Valid() && released
      requires seen.inFrame && seen.bits == 0 && seen.acc == 0 && (lastScl ==> !seen.stable)
      modifies this`lastSda, this`lastScl, this`wire, this`seen
      ensures Within(8, wrdata, old(seen).events)
    {
      ghost var es := seen.events;
      SetDC(lastSda, false);
      ByteHasEightBits(wrdata);
      var i := 7;
      while i >= 0
        invariant -1 <= i <= 7
        invariant Within(7 - i, ShiftRight(wrdata, i + 1), es)
      {
        ShiftRightStep(wrdata, i);
        WriteBit(ShiftRight(wrdata, i) % 2 == 1);
        i := i - 1;
      }
    }

    /** i2c_master_getAck. */
    method GetAck() returns (ack: bool)
      requires Within(8, seen.acc, seen.events)
      modifies this`lastSda, this`lastScl, this`wire, this`seen, this`released, this`asked
      ensures ack == answers(old(asked)) && asked == old(asked) + 1 && lastSda
      ensures Within(0, 0, old(seen).events + [Byte(old(seen).acc, ack)])
    {
      SetDC(lastSda, false);
      SetDC(true, false);
      ack := SampleBit();
      SetDC(true, false);
      SlaveSets(true);
    }

    /** i2c_master_readByte. */
    method ReadByte() returns (retVal: int)
      requires Within(0, 0, seen.events) && lastSda
      modifies this`lastSda, this`lastScl, this`wire, this`seen, this`released, this`asked
      ensures retVal == Gather(answers, old(asked), 8) && 0 <= retVal < 256
      ensures asked == old(asked) + 8 && lastSda
      ensures Within(8, retVal, old(seen).events)
    {
      ghost var es, k0, v := seen.events, asked, 0;
      retVal := 0;
      SetDC(lastSda, false);
      var i := 0;
      while i < 8
        invariant 0 <= i <= 8 && asked == k0 + i && v == Gather(answers, k0, i)
        invariant Reading(i, v, es)
        invariant retVal == ShiftLeft(v, 8 - i)
      {
        var bit := ReadBit(i, v, es);
        ShiftLeftAdds(v, if bit then 1 else 0, 7 - i);
        retVal := retVal + ShiftLeft(if bit then 1 else 0, 7 - i);
        v := 2 * v + (if bit then 1 else 0);
        i := i + 1;
      }
      ReadDone(v, es);
      GatherBound(answers, k0, 8);
      assert ShiftLeft(1, 8) == 256;
    }

    /** `i` bits of value `v` read: the last one is still on the line with SCL high. */
    ghost predicate Reading(i: int, v: int, es: seq<BusEvent>)
      reads this
    {
      && Valid() && lastSda && seen.inFrame && seen.events == es
      && if i == 0 then Within(0, 0, es) && v == 0
         else lastScl && seen.stable && seen.bits == i - 1 && v == 2 * seen.acc + (if released then 1 else 0)
    }

    /** One round of the loop of i2c_master_readByte. */
    method ReadBit(ghost i: int, ghost v: int, ghost es: seq<BusEvent>) returns (bit: bool)
      requires 0 <= i < 8 && Reading(i, v, es)
      modifies this`lastSda, this`lastScl, this`wire, this`seen, this`released, this`asked
      ensures bit == answers(old(asked)) && asked == old(asked) + 1
      ensures Reading(i + 1, 2 * v + (if bit then 1 else 0), es)
    {
      SetDC(true, false);
      bit := SampleBit();
    }

    /** SCL falls after the eighth bit, and the slave lets go. */
    method ReadDone(ghost v: int, ghost es: seq<BusEvent>)
      requires Reading(8, v, es)
      modifies this`lastSda, this`lastScl, this`wire, this`seen, this`released
      ensures Within(8, v, es)
      ensures lastSda
    {
      SetDC(true, false);
      SlaveSets(true);
    }

    /** i2c_master_setAck. */
    method SetAck(level: bool)
      requires Within(8, seen.acc, seen.events)
      modifies this`lastSda, this`lastScl, this`wire, this`seen
      ensures Within(0, 0, old(seen).events + [Byte(old(seen).acc, level)]) && lastSda
    {
      SetDC(lastSda, false);
      SetDC(level, false);
      SetDC(level, true);
      SetDC(level, false);
      SetDC(true, false);
    }

    /** The toggles at the start of i2c_master_init, from lines the master leaves high. */
    method Toggle()
      requires wire != [] && Clean(wire) && seen == Decode(wire)
      requires wire[|wire| - 1] == seen.line == Level(released, true)
      modifies this`lastSda, this`lastScl, this`wire, this`seen
      ensures Valid() && lastSda && !lastScl
    {
      SetDC(true, false);
      SetDC(false, false);
      SetDC(true, false);
    }

    /** One pulse of its clock loop, with whatever bit the slave is giving. */
    method Pulse()
      requires Valid() && lastSda
      modifies this`lastSda, this`lastScl, this`wire, this`seen, this`released, this`asked
      ensures Valid() && lastSda && lastScl && released == answers(old(asked)) && asked == old(asked) + 1
    {
      SetDC(true, false);
      var _ := SampleBit();
    }

    /** i2c_master_stop with SCL high, in or out of a frame: with a slave that holds SDA low
        the observer sees nothing, with any other one the bus ends idle. */
    method StopFromHigh()
      requires Valid() && lastSda && lastScl
      modifies this`lastSda, this`lastScl, this`wire, this`seen
      ensures Valid() && lastSda && lastScl && (Quiet() <==> released)
      ensures seen.line.sda == released
    {
      SetDC(false, lastScl);
      SetDC(false, true);
      SetDC(true, true);
    }

    /** i2c_master_init: whatever frame an observer believed to be in, and whether or not
        the slave held SDA low, the bus ends idle exactly if the slave lets go at the last
        of the 28 pulses. If not, SDA stays low. */
    method Init()
      requires wire != [] && Clean(wire) && seen == Decode(wire)
      requires wire[|wire| - 1] == seen.line == Level(released, true)
      modifies this`lastSda, this`lastScl, this`wire, this`seen, this`released, this`asked
      ensures Quiet() <==> answers(old(asked) + 27)
      ensures Valid() && lastSda && lastScl && asked == old(asked) + 28
      ensures seen.line.sda == answers(old(asked) + 27)
    {
      ghost var k := asked;
      Toggle();
      for i := 0 to 28
        invariant Valid() && lastSda && asked == k + i
        invariant i > 0 ==> lastScl && released == answers(k + i - 1)
      {
        Pulse();
      }
      StopFromHigh();
    }

    /** A start condition and an address byte with its answer. */
    method Address(addr: int) returns (ack: bool)
      requires Quiet() && 0 <= addr < 256
      modifies this`lastSda, this`lastScl, this`wire, this`seen, this`released, this`asked
      ensures ack == answers(old(asked)) && asked == old(asked) + 1 && lastSda
      ensures Within(0, 0, old(seen).events + [Start, Byte(addr, ack)])
    {
      ghost var es := seen.events;
      StartCondition();
      WriteByte(addr);
      ack := GetAck();
      assert es + [Start] + [Byte(addr, ack)] == es + [Start, Byte(addr, ack)];
    }

    /** One round of the data loop: a byte and the answer to it. */
    method ReadAnswered(nack: bool) returns (byte: int)
      requires Within(0, 0, seen.events) && lastSda
      modifies this`lastSda, this`lastScl, this`wire, this`seen, this`released, this`asked
      ensures byte == Gather(answers, old(asked), 8) && asked == old(asked) + 8 && lastSda
      ensures Within(0, 0, old(seen).events + [Byte(byte, nack)])
    {
      byte := ReadByte();
      SetAck(nack);
    }

    /** The data loop of user_mvh3004_burst_read. */
    method ReadData(pData: array<int>, len: nat)
      requires Within(0, 0, seen.events) && lastSda && len <= pData.Length
      modifies this`lastSda, this`lastScl, this`wire, this`seen, this`released, this`asked, pData
      ensures Within(0, 0, old(seen).events + ReadEvents(answers, old(asked), len, len)) && lastSda
      ensures forall i | 0 <= i < len :: pData[i] == Gather(answers, old(asked) + 8 * i, 8)
      ensures forall i | len <= i < pData.Length :: pData[i] == old(pData[i])
    {
      ghost var es, k := seen.events, asked;
      for i := 0 to len
        invariant Within(0, 0, es + ReadEvents(answers, k, len, i)) && lastSda && asked == k + 8 * i
        invariant forall j | 0 <= j < i :: pData[j] == Gather(answers, k + 8 * j, 8)
        invariant forall j | i <= j < pData.Length :: pData[j] == old(pData[j])
      {
        ReadEventsSnoc(es, answers, k, len, i);
        pData[i] := ReadAnswered(i == len - 1);
      }
    }

    /** The second half of user_mvh3004_burst_read: address, data, stop. */
    method ReadFrom(addr: int, pData: array<int>, len: nat) returns (ok: bool)
      requires Quiet() && 0 <= addr < 256 && len <= pData.Length
      modifies this`lastSda, this`lastScl, this`wire, this`seen, this`released, this`asked, pData
      ensures Quiet() && ok == !answers(old(asked))
      ensures seen.events == old(seen).events + ReadPhase(answers, old(asked), addr, len)
      ensures ok ==> forall i | 0 <= i < len :: pData[i] == Gather(answers, old(asked) + 1 + 8 * i, 8)
      ensures forall i | (if ok then len else 0) <= i < pData.Length :: pData[i] == old(pData[i])
    {
      ghost var es, k := seen.events, asked;
      ReadPhaseJoins(es, answers, k, addr, len);
      var ack := Address(addr);
      if ack {
        StopCondition();
        return false;
      }
      ReadData(pData, len);
      StopCondition();
      return true;
    }

    /** user_mvh3004_burst_read: what an observer decodes is the transaction, and what
        the caller gets is what the observer decodes. */
    method BurstRead(addr: int, pData: array<int>, len: nat) returns (ok: bool)
      requires Quiet() && 0 <= addr < 256 && len <= pData.Length && len < 0x1_0000
      modifies this`lastSda, this`lastScl, this`wire, this`seen, this`released, this`asked, pData
      ensures Quiet()
      ensures seen.events == old(seen.events) + BurstEvents(answers, old(asked), addr, len)
      ensures ok <==> !answers(old(asked)) && !answers(old(asked) + 1)
      ensures ok ==> forall i | 0 <= i < len :: pData[i] == Gather(answers, old(asked) + 2 + 8 * i, 8)
      ensures forall i | (if ok then len else 0) <= i < pData.Length :: pData[i] == old(pData[i])
    {
      ghost var es, k := seen.events, asked;
      if !answers(k) { JoinPhases(es, answers, k, addr, len); }
      var ack := Address(addr);
      assert es + [Start, Byte(addr, ack)] + [Stop] == es + [Start, Byte(addr, ack), Stop];
      if ack {
        StopCondition();
        return false;
      }
      StopCondition();
      ok := ReadFrom((addr + 1) % 256, pData, len);
    }
  }

  lemma {:induction false} ShiftLeftAdds(v: int, b: int, n: nat)
    ensures ShiftLeft(2 * v + b, n) == ShiftLeft(v, n + 1) + ShiftLeft(b, n)
  {
    if n > 0 { ShiftLeftAdds(v, b, n - 1); }
  }

  /** The first `n` data bytes of a read of `len`: all acknowledged except the last. */
  function ReadEvents(answers: nat -> bool, k: nat, len: nat, n: nat): (es: seq<BusEvent>)
    ensures |es| == n
  {
    if n == 0 then []
    else ReadEvents(answers, k, len, n - 1) + [Byte(Gather(answers, k + 8 * (n - 1), 8), n == len)]
  }

  lemma ReadEventsSnoc(es: seq<BusEvent>, answers: nat -> bool, k: nat, len: nat, n: nat)
    ensures es + ReadEvents(answers, k, len, n) + [Byte(Gather(answers, k + 8 * n, 8), n == len - 1)]
         == es + ReadEvents(answers, k, len, n + 1)
  {
  }

  /** The second half of the transaction. */
  function ReadPhase(answers: nat -> bool, k: nat, addr: int, len: nat): (es: seq<BusEvent>) {
    if answers(k) then [Start, Byte(addr, true), Stop]
    else [Start, Byte(addr, false)] + ReadEvents(answers, k + 1, len, len) + [Stop]
  }

  /** The transaction of a burst read, for every answer of the slave. */
  function BurstEvents(answers: nat -> bool, k: nat, addr: int, len: nat): (es: seq<BusEvent>) {
    if answers(k) then [Start, Byte(addr, true), Stop]
    else [Start, Byte(addr, false), Stop] + ReadPhase(answers, k + 1, (addr + 1) % 256, len)
  }

  lemma ReadPhaseJoins(es: seq<BusEvent>, answers: nat -> bool, k: nat, addr: int, len: nat)
    ensures answers(k) ==>
      es + ReadPhase(answers, k, addr, len) == es + [Start, Byte(addr, true)] + [Stop]
    ensures !answers(k) ==>
      es + ReadPhase(answers, k, addr, len) == es + [Start, Byte(addr, false)] + ReadEvents(answers, k + 1, len, len) + [Stop]
  {
  }

  lemma JoinPhases(es: seq<BusEvent>, answers: nat -> bool, k: nat, addr: int, len: nat)
    requires !answers(k)
    ensures es + [Start, Byte(addr, false), Stop] + ReadPhase(answers, k + 1, (addr + 1) % 256, len)
         == es + BurstEvents(answers, k, addr, len)
  {
  }
}
