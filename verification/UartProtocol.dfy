/** The interrupt protocol around the two rings, as event machines over whole runs.
    A step is one driver routine or one move of the hardware; the FIFOs hold 128. */
module UartProtocol {
  import opened Arithmetic
  import opened UartRing

  // ----- receiving -----

  datatype Rx = Rx(
    ring: Ring,
    fifo: seq<bv8>,       // the hardware receive FIFO
    ena: bool,            // FULL and TOUT interrupts enabled
    pending: int,         // events queued for uart_recvTask, whose queue holds 10
    received: seq<bv8>,   // every byte the FIFO took in
    delivered: seq<bv8>)  // every byte rx_buff_deq handed over

  datatype RxEvent = Arrive(b: bv8) | RxIntr | RecvTask | Dequeue(want: nat)

  /** The FULL and TOUT arms of uart0_rx_intr_handler; a post to a full queue fails. */
  function RxInterrupt(s: Rx): (r: Rx) {
    if !s.ena then s
    else s.(ena := false, pending := if s.pending < 10 then s.pending + 1 else s.pending)
  }

  /** uart_recvTask with signal 0: Uart_rx_buff_enq. */
  function RxTask(s: Rx): (r: Rx)
    requires RingOk(s.ring)
  {
    if s.pending == 0 then s
    else
      var s1 := s.(pending := s.pending - 1);
      if |s.fifo| >= s.ring.space then s1
      else
        var ring := Enq(s.ring, s.fifo);
        s1.(ring := ring, fifo := [], ena := s.ena || ring.space >= 128)
  }

  /** rx_buff_deq. */
  function RxDequeue(s: Rx, want: nat): (r: Rx)
    requires RingOk(s.ring) && s.ring.space >= 1
  {
    DeqIsSafe(s.ring, want);
    var (bytes, ring) := Deq(s.ring, want);
    s.(ring := ring, delivered := s.delivered + bytes, ena := s.ena || ring.space >= 128)
  }

  function RxStep(s: Rx, e: RxEvent): (r: Rx)
    requires RingOk(s.ring) && s.ring.space >= 1
  {
    match e
    case Arrive(b) => if |s.fifo| < 128 then s.(fifo := s.fifo + [b], received := s.received + [b]) else s
    case RxIntr => RxInterrupt(s)
    case RecvTask => RxTask(s)
    case Dequeue(want) => RxDequeue(s, want)
  }

  /** The receive side between two steps: the ring is never full, no byte is lost or
      reordered, and receiving cannot stall unnoticed. */
  ghost predicate RxInv(s: Rx) {
    && RingOk(s.ring) && s.ring.space >= 1 && |s.ring.buf| == 256
    && |s.fifo| <= 128 && 0 <= s.pending <= 10
    && s.received == s.delivered + Contents(s.ring) + s.fifo
    && (s.ena || s.pending > 0 || s.ring.space <= 128)
  }

  lemma RxTaskKeepsInv(s: Rx)
    requires RxInv(s)
    ensures RxInv(RxTask(s))
  {
    if s.pending > 0 && |s.fifo| < s.ring.space {
      EnqAppends(s.ring, s.fifo);
      Regroup(s.delivered, Contents(s.ring), s.fifo);
    }
  }

  lemma RxDequeueKeepsInv(s: Rx, want: nat)
    requires RxInv(s)
    ensures RxInv(RxDequeue(s, want))
  {
    DeqTakesOldest(s.ring, want);
    var q, k := Contents(s.ring), Min(want, Stored(s.ring));
    assert q == q[..k] + q[k..];
    Regroup(s.delivered, q[..k], q[k..]);
  }

  lemma RxStepKeepsInv(s: Rx, e: RxEvent)
    requires RxInv(s)
    ensures RxInv(RxStep(s, e))
  {
    match e
    case Arrive(b) => Regroup(s.delivered + Contents(s.ring), s.fifo, [b]);
    case RxIntr =>
    case RecvTask => RxTaskKeepsInv(s);
    case Dequeue(want) => RxDequeueKeepsInv(s, want);
  }

  function RxStart(memory: seq<bv8>): (s: Rx)
    requires |memory| == 256
  {
    Rx(Fresh(memory), [], true, 0, [], [])
  }

  /** Safety over every run: the invariant holds after any sequence of steps. */
  function RxRun(s: Rx, es: seq<RxEvent>): (r: Rx)
    requires RxInv(s)
    ensures RxInv(r)
    decreases |es|
  {
    if es == [] then s
    else
      var p := RxRun(s, es[..|es| - 1]);
      RxStepKeepsInv(p, es[|es| - 1]);
      RxStep(p, es[|es| - 1])
  }

  lemma RxEveryRun(memory: seq<bv8>, es: seq<RxEvent>)
    requires |memory| == 256
    ensures RxInv(RxStart(memory))
    ensures var s := RxRun(RxStart(memory), es);
      && s.ring.space >= 1
      && s.delivered + Contents(s.ring) + s.fifo == s.received
      && (s.ena || s.pending > 0 || s.ring.space <= 128)
  {
    assert RxInv(RxRun(RxStart(memory), es));
  }

  /** A dequeue that leaves half the ring free re-enables receiving. */
  lemma RxDequeueWakes(s: Rx, want: nat)
    requires RxInv(s) && RxStep(s, Dequeue(want)).ring.space >= 128
    ensures RxStep(s, Dequeue(want)).ena
  {
    DeqTakesOldest(s.ring, want);
  }

  /** An event moves the whole FIFO into the ring exactly when fewer bytes wait than are
      free, and reception comes back exactly if half the ring is free then, too. */
  lemma RxTaskExactly(s: Rx)
    requires RxInv(s) && s.pending > 0
    ensures var r, free := RxStep(s, RecvTask), 256 - |Contents(s.ring)|;
      && RxInv(r) && r.pending == s.pending - 1 && r.delivered == s.delivered && r.received == s.received
      && (|s.fifo| < free ==> Contents(r.ring) == Contents(s.ring) + s.fifo && r.fifo == []
                              && (r.ena <==> s.ena || free - |s.fifo| >= 128))
      && (|s.fifo| >= free ==> r.ring == s.ring && r.fifo == s.fifo && r.ena == s.ena)
  {
    RxStepKeepsInv(s, RecvTask);
    if |s.fifo| < s.ring.space { EnqAppends(s.ring, s.fifo); }
  }

  /** A read hands over the oldest bytes, as many as are asked for or stored, and reception
      comes back exactly if half the ring is free then. */
  lemma RxDequeueExactly(s: Rx, want: nat)
    requires RxInv(s)
    ensures var r, q := RxStep(s, Dequeue(want)), Contents(s.ring);
            var k := if want < |q| then want else |q|;
      && RxInv(r) && r.delivered == s.delivered + q[..k] && Contents(r.ring) == q[k..]
      && r.fifo == s.fifo && r.pending == s.pending && r.received == s.received
      && (r.ena <==> s.ena || 256 - (|q| - k) >= 128)
  {
    RxStepKeepsInv(s, Dequeue(want));
    DeqTakesOldest(s.ring, want);
  }

  /** An interrupt switches reception off and leaves one event more for the task, unless
      its queue is full. */
  lemma RxInterruptExactly(s: Rx)
    requires RxInv(s) && s.ena
    ensures RxStep(s, RxIntr) == s.(ena := false, pending := if s.pending == 10 then 10 else s.pending + 1)
  {
  }

  /** From every reachable state the application gets everything received so far:
      a dequeue of the whole ring, one interrupt, one task and another dequeue. */
  lemma RxDelivers(s: Rx)
    requires RxInv(s)
    ensures var s1 := RxStep(s, Dequeue(256));
      RxInv(s1) && RxInv(RxStep(s1, RxIntr)) && RxInv(RxStep(RxStep(s1, RxIntr), RecvTask))
    ensures var s4 := RxStep(RxStep(RxStep(RxStep(s, Dequeue(256)), RxIntr), RecvTask), Dequeue(256));
      s4.delivered == s4.received == s.received && s4.fifo == []
  {
    var s1 := RxStep(s, Dequeue(256));
    RxStepKeepsInv(s, Dequeue(256));
    RxDequeueEmpties(s);
    var s2 := RxStep(s1, RxIntr);
    RxStepKeepsInv(s1, RxIntr);
    var s3 := RxStep(s2, RecvTask);
    RxStepKeepsInv(s2, RecvTask);
    assert s3.fifo == [];
    RxStepKeepsInv(s3, Dequeue(256));
    RxDequeueEmpties(s3);
    var s4 := RxStep(s3, Dequeue(256));
    assert s4.delivered + [] + [] == s4.delivered;
  }

  lemma RxDequeueEmpties(s: Rx)
    requires RxInv(s)
    ensures var r := RxStep(s, Dequeue(256));
      RingOk(r.ring) && Contents(r.ring) == [] && r.ring.space == 256 && r.ena
      && r.fifo == s.fifo && r.received == s.received
  {
    DeqTakesOldest(s.ring, 256);
  }

  // ----- sending -----

  datatype MaybeRing = NoRing | Some(ring: Ring)

  datatype Tx = Tx(
    buffer: MaybeRing,    // pTxBuffer
    fifo: seq<bv8>,       // the hardware transmit FIFO
    ena: bool,            // TX-empty interrupt enabled
    sent: seq<bv8>,       // bytes shifted out on the line
    accepted: seq<bv8>)   // every byte tx_buff_enq took in

  /** An enqueue names the memory a lazy creation would get, if there is heap for it. */
  datatype TxEvent = Enqueue(data: seq<bv8>, heap: bool, memory: seq<bv8>) | TxEmpty | ShiftOut

  /** tx_buff_enq. A missing buffer is created and filled without looking at Space. */
  function TxEnqueue(s: Tx, data: seq<bv8>, heap: bool, memory: seq<bv8>): (r: Tx)
    requires s.buffer.Some? ==> RingOk(s.buffer.ring)
    requires s.buffer.NoRing? ==> |memory| == 256 && |data| <= 512
  {
    match s.buffer
    case NoRing =>
      if heap then s.(buffer := Some(Cpy(Fresh(memory), data)), ena := true, accepted := s.accepted + data)
      else s.(ena := true)
    case Some(ring) =>
      if |data| <= ring.space then
        s.(buffer := Some(Cpy(ring, data)), ena := true, accepted := s.accepted + data)
      else s.(ena := true)
  }

  /** The empty arm of the handler: tx_start_uart_buffer, with its uint8 and uint16 lengths. */
  function TxDrain(s: Tx): (r: Tx)
    requires s.buffer.Some? ==> 0 <= s.buffer.ring.outPos < |s.buffer.ring.buf|
  {
    var off := s.(ena := false);
    match s.buffer
    case NoRing => off
    case Some(ring) =>
      var remain := ToUint8(128 - |s.fifo|);
      var dataLen := ToUint16(|ring.buf| - ring.space);
      if dataLen > remain then
        var (bytes, ring') := Insert(ring, remain);
        off.(buffer := Some(ring'), fifo := s.fifo + bytes, ena := true)
      else
        var (bytes, ring') := Insert(ring, ToUint8(dataLen));
        off.(buffer := Some(ring'), fifo := s.fifo + bytes)
  }

  function TxStep(s: Tx, e: TxEvent): (r: Tx)
    requires TxOk(s) && TxFits(s, e)
  {
    match e
    case Enqueue(data, heap, memory) => TxEnqueue(s, data, heap, memory)
    case TxEmpty => if s.ena then TxDrain(s) else s
    case ShiftOut => if s.fifo == [] then s else s.(sent := s.sent + [s.fifo[0]], fifo := s.fifo[1..])
  }

  predicate TxOk(s: Tx) {
    |s.fifo| <= 128 && (s.buffer.Some? ==> RingOk(s.buffer.ring) && |s.buffer.ring.buf| == 256)
  }

  /** Only a lazy creation limits the caller: what it fills must fit the new buffer. */
  predicate TxFits(s: Tx, e: TxEvent) {
    e.Enqueue? && s.buffer.NoRing? ==> |e.memory| == 256 && |e.data| <= 256
  }

  function Queued(s: Tx): (q: seq<bv8>)
    requires TxOk(s)
  {
    if s.buffer.NoRing? then [] else Contents(s.buffer.ring)
  }

  /** The sending side between two steps: what was accepted is what was sent, what the
      FIFO holds and what the ring holds, in this order; a ring that holds something
      has its interrupt enabled. */
  ghost predicate TxInv(s: Tx) {
    && TxOk(s)
    && s.accepted == s.sent + s.fifo + Queued(s)
    && (Queued(s) != [] ==> s.ena)
  }

  lemma NarrowLengths(room: int, stored: int)
    requires 0 <= room <= 128 && 0 <= stored <= 256
    ensures ToUint8(room) == room && ToUint16(stored) == stored
    ensures stored <= room ==> ToUint8(stored) == stored
  {
  }

  /** The narrow lengths of a drain lose nothing. */
  lemma TxDrainIs(s: Tx, k: int)
    requires TxOk(s) && s.buffer.Some? && k == Min(Stored(s.buffer.ring), 128 - |s.fifo|)
    ensures k >= 0
    ensures TxDrain(s) == s.(buffer := Some(Insert(s.buffer.ring, k).1), fifo := s.fifo + Insert(s.buffer.ring, k).0,
                             ena := Stored(s.buffer.ring) > 128 - |s.fifo|)
  {
    NarrowLengths(128 - |s.fifo|, Stored(s.buffer.ring));
    if Stored(s.buffer.ring) > 128 - |s.fifo| {
      assert ToUint8(128 - |s.fifo|) == k;
    } else {
      assert ToUint8(ToUint16(Stored(s.buffer.ring))) == k;
    }
  }

  /** A drain moves the oldest bytes and never overfills the FIFO. */
  lemma TxDrainMoves(s: Tx)
    requires TxInv(s) && s.buffer.Some?
    ensures var q, room := Queued(s), 128 - |s.fifo|;
            var k, r := Min(|q|, room), TxDrain(s);
            && TxOk(r) && r.fifo == s.fifo + q[..k] && Queued(r) == q[k..] && |r.fifo| <= 128
            && r.sent == s.sent && r.accepted == s.accepted && (r.ena <==> |q| > room)
  {
    var ring := s.buffer.ring;
    var k := Min(Stored(ring), 128 - |s.fifo|);
    TxDrainIs(s, k);
    InsertTakesOldest(ring, k);
  }

  lemma TxEnqueueKeepsInv(s: Tx, data: seq<bv8>, heap: bool, memory: seq<bv8>)
    requires TxInv(s) && (s.buffer.NoRing? ==> |memory| == 256 && |data| <= 256)
    ensures TxInv(TxEnqueue(s, data, heap, memory))
  {
    Regroup(s.sent + s.fifo, Queued(s), data);
    if s.buffer.NoRing? {
      CpyAppends(Fresh(memory), data);
    } else if |data| <= s.buffer.ring.space {
      CpyAppends(s.buffer.ring, data);
    }
  }

  lemma TxDrainKeepsInv(s: Tx)
    requires TxInv(s)
    ensures TxInv(TxDrain(s))
  {
    if s.buffer.Some? {
      TxDrainMoves(s);
      var q := Queued(s);
      var k := Min(|q|, 128 - |s.fifo|);
      assert q == q[..k] + q[k..];
      Regroup(s.sent, s.fifo, q[..k]);
      Regroup(s.sent + s.fifo, q[..k], q[k..]);
    }
  }

  lemma TxStepKeepsInv(s: Tx, e: TxEvent)
    requires TxInv(s) && TxFits(s, e)
    ensures TxInv(TxStep(s, e))
  {
    match e
    case Enqueue(data, heap, memory) => TxEnqueueKeepsInv(s, data, heap, memory);
    case TxEmpty => TxDrainKeepsInv(s);
    case ShiftOut =>
      if s.fifo != [] {
        assert s.fifo == [s.fifo[0]] + s.fifo[1..];
        Regroup(s.sent, [s.fifo[0]], s.fifo[1..]);
      }
  }

  /** The runs a caller may cause: each lazy creation is given what fits. */
  ghost predicate TxAllowed(s: Tx, es: seq<TxEvent>)
    requires TxInv(s)
    decreases |es|
  {
    es == [] || (
      TxFits(s, es[0])
      && (TxStepKeepsInv(s, es[0]); TxAllowed(TxStep(s, es[0]), es[1..])))
  }

  /** Safety over every run. */
  function TxRun(s: Tx, es: seq<TxEvent>): (r: Tx)
    requires TxInv(s) && TxAllowed(s, es)
    ensures TxInv(r)
    decreases |es|
  {
    if es == [] then s
    else
      TxStepKeepsInv(s, es[0]);
      TxRun(TxStep(s, es[0]), es[1..])
  }

  lemma TxEveryRun(buffer: MaybeRing, es: seq<TxEvent>)
    requires buffer.Some? ==> exists m: seq<bv8> :: |m| == 256 && buffer.ring == Fresh(m)
    ensures TxInv(Tx(buffer, [], false, [], []))
    ensures TxAllowed(Tx(buffer, [], false, [], []), es) ==>
      var s := TxRun(Tx(buffer, [], false, [], []), es);
      && TxOk(s) && s.sent + s.fifo + Queued(s) == s.accepted
      && (Queued(s) != [] ==> s.ena)
  {
    var s0 := Tx(buffer, [], false, [], []);
    assert Queued(s0) == [];
    assert [] + [] + Queued(s0) == [];
    if TxAllowed(s0, es) {
      assert TxInv(TxRun(s0, es));
    }
  }

  // ----- what is accepted -----

  /** An enqueue takes its data in whole exactly when there is room for them, or when it
      creates the buffer; either way the empty interrupt is enabled behind it. */
  lemma TxEnqueueExactly(s: Tx, data: seq<bv8>, heap: bool, memory: seq<bv8>)
    requires TxInv(s) && (s.buffer.NoRing? ==> |memory| == 256 && |data| <= 256)
    ensures var r := TxEnqueue(s, data, heap, memory);
      && TxOk(r) && r.ena && r.sent == s.sent && r.fifo == s.fifo
      && (r.buffer.Some? <==> s.buffer.Some? || heap)
      && if |data| <= 256 - |Queued(s)| && (s.buffer.Some? || heap)
         then Queued(r) == Queued(s) + data && r.accepted == s.accepted + data
         else r.buffer == s.buffer && r.accepted == s.accepted
  {
    TxEnqueueKeepsInv(s, data, heap, memory);
    if s.buffer.NoRing? {
      CpyAppends(Fresh(memory), data);
      assert [] + data == data;
    } else if |data| <= s.buffer.ring.space {
      CpyAppends(s.buffer.ring, data);
    }
  }

  /** How much waits where: all that decides which enqueues find room. */
  datatype Levels = Levels(buffered: bool, queued: nat, fifo: nat, ena: bool)

  predicate FindsRoom(l: Levels, e: TxEvent) {
    e.Enqueue? && (l.buffered || e.heap) && l.queued + |e.data| <= 256
  }

  function NextLevels(l: Levels, e: TxEvent): (r: Levels)
    requires l.fifo <= 128
    ensures r.fifo <= 128
  {
    match e
    case Enqueue(data, heap, _) =>
      Levels(l.buffered || heap, if FindsRoom(l, e) then l.queued + |data| else l.queued, l.fifo, true)
    case TxEmpty =>
      if !l.ena then l
      else if l.queued > 128 - l.fifo then Levels(l.buffered, l.queued - (128 - l.fifo), 128, true)
      else Levels(l.buffered, 0, l.fifo + l.queued, false)
    case ShiftOut => if l.fifo == 0 then l else l.(fifo := l.fifo - 1)
  }

  /** The data of those enqueues of a run that find room, in order. */
  function Taken(l: Levels, es: seq<TxEvent>): (data: seq<bv8>)
    requires l.fifo <= 128
    decreases |es|
  {
    if es == [] then []
    else (if FindsRoom(l, es[0]) then es[0].data else []) + Taken(NextLevels(l, es[0]), es[1..])
  }

  function LevelsOf(s: Tx): (l: Levels)
    requires TxOk(s)
    ensures l.fifo <= 128
  {
    Levels(s.buffer.Some?, |Queued(s)|, |s.fifo|, s.ena)
  }

  /** Everything on its way: sent, in the FIFO, in the ring. */
  function OnItsWay(s: Tx): (q: seq<bv8>)
    requires TxOk(s)
  {
    s.sent + s.fifo + Queued(s)
  }

  lemma TxStepTakes(s: Tx, e: TxEvent)
    requires TxInv(s) && TxFits(s, e)
    ensures TxInv(TxStep(s, e)) && LevelsOf(TxStep(s, e)) == NextLevels(LevelsOf(s), e)
    ensures OnItsWay(TxStep(s, e)) == OnItsWay(s) + (if FindsRoom(LevelsOf(s), e) then e.data else [])
  {
    TxStepKeepsInv(s, e);
    assert s.accepted + [] == s.accepted;
    match e
    case Enqueue(data, heap, memory) => TxEnqueueExactly(s, data, heap, memory);
    case TxEmpty => if s.ena && s.buffer.Some? { TxDrainMoves(s); }
    case ShiftOut =>
  }

  /** Over every run, what was sent, stands in the FIFO and waits in the ring is what was
      on its way at the start and the data of those enqueues that found room, in order. */
  lemma {:induction false} TxRunTakes(s: Tx, es: seq<TxEvent>)
    requires TxInv(s) && TxAllowed(s, es)
    ensures OnItsWay(TxRun(s, es)) == OnItsWay(s) + Taken(LevelsOf(s), es)
    decreases |es|
  {
    if es == [] {
      assert OnItsWay(s) + [] == OnItsWay(s);
    } else {
      TxStepTakes(s, es[0]);
      TxRunTakes(TxStep(s, es[0]), es[1..]);
      Regroup(OnItsWay(s), if FindsRoom(LevelsOf(s), es[0]) then es[0].data else [],
              Taken(NextLevels(LevelsOf(s), es[0]), es[1..]));
    }
  }

  // ----- everything accepted gets out -----

  /** The hardware shifts its FIFO empty. */
  function ShiftAll(s: Tx): (r: Tx)
    requires TxOk(s)
    ensures TxOk(r)
    decreases |s.fifo|
  {
    if s.fifo == [] then s else ShiftAll(TxStep(s, ShiftOut))
  }

  lemma {:induction false} ShiftAllSends(s: Tx)
    requires TxInv(s)
    ensures TxInv(ShiftAll(s))
    ensures ShiftAll(s) == s.(sent := s.sent + s.fifo, fifo := [])
    decreases |s.fifo|
  {
    if s.fifo == [] {
      assert s.sent + s.fifo == s.sent;
    } else {
      ShiftOutKeepsInv(s);
      var t := TxStep(s, ShiftOut);
      ShiftAllSends(t);
      OneOver(s.sent, s.fifo);
    }
  }

  lemma OneOver(sent: seq<bv8>, fifo: seq<bv8>)
    requires fifo != []
    ensures sent + [fifo[0]] + fifo[1..] == sent + fifo
  {
  }

  lemma ShiftOutKeepsInv(s: Tx)
    requires TxInv(s) && s.fifo != []
    ensures var t := TxStep(s, ShiftOut);
      TxInv(t) && t == s.(sent := s.sent + [s.fifo[0]], fifo := s.fifo[1..])
  {
    TxStepKeepsInv(s, ShiftOut);
  }

  /** Progress: with the FIFO emptied between them, two rounds of shifting and an
      empty interrupt put everything accepted on the line. */
  lemma TxFlushes(s: Tx)
    requires TxInv(s)
    ensures TxInv(TxRound(s)) && TxInv(TxRound(TxRound(s)))
    ensures ShiftAll(TxRound(TxRound(s))).sent == s.accepted
  {
    TxRoundMoves(s);
    var r := TxRound(s);
    TxRoundMoves(r);
    var t := TxRound(r);
    ShiftAllSends(t);
    assert t.sent + t.fifo + [] == t.sent + t.fifo;
  }

  function TxRound(s: Tx): (r: Tx)
    requires TxOk(s)
  {
    TxStep(ShiftAll(s), TxEmpty)
  }

  lemma TxRoundMoves(s: Tx)
    requires TxInv(s)
    ensures TxInv(TxRound(s)) && TxRound(s).accepted == s.accepted
    ensures |Queued(TxRound(s))| == if |Queued(s)| <= 128 then 0 else |Queued(s)| - 128
  {
    ShiftAllSends(s);
    var t := ShiftAll(s);
    TxStepKeepsInv(t, TxEmpty);
    if t.ena && t.buffer.Some? { TxDrainMoves(t); }
  }

  /** From initialisation: two rounds behind any run, the line has carried exactly the data
      of those enqueues that found room. */
  lemma TxSendsTaken(buffer: MaybeRing, es: seq<TxEvent>)
    requires buffer.Some? ==> exists m: seq<bv8> :: |m| == 256 && buffer.ring == Fresh(m)
    ensures TxInv(Tx(buffer, [], false, [], []))
    ensures TxAllowed(Tx(buffer, [], false, [], []), es) ==>
      var s := TxRun(Tx(buffer, [], false, [], []), es);
      && TxInv(TxRound(s)) && TxInv(TxRound(TxRound(s)))
      && ShiftAll(TxRound(TxRound(s))).sent == Taken(Levels(buffer.Some?, 0, 0, false), es)
  {
    TxEveryRun(buffer, es);
    if TxAllowed(Tx(buffer, [], false, [], []), es) {
      TxSendsFrom(Tx(buffer, [], false, [], []), es);
    }
  }

  lemma TxSendsFrom(s: Tx, es: seq<TxEvent>)
    requires TxInv(s) && s.sent == s.fifo == Queued(s) == [] && TxAllowed(s, es)
    ensures var r := TxRun(s, es);
      && TxInv(TxRound(r)) && TxInv(TxRound(TxRound(r)))
      && ShiftAll(TxRound(TxRound(r))).sent == Taken(LevelsOf(s), es)
  {
    TxRunTakes(s, es);
    TxFlushes(TxRun(s, es));
    assert OnItsWay(s) == [];
    assert [] + Taken(LevelsOf(s), es) == Taken(LevelsOf(s), es);
  }

  // ----- the lazy creation -----

  /** What tx_start_uart_buffer would send of a freshly created and filled buffer,
      with as many empty interrupts as it takes: all that Space says is there. */
  function LazySends(memory: seq<bv8>, data: seq<bv8>): (r: seq<bv8>)
    requires |memory| == 256 && WriteFits(Fresh(memory), |data|)
  {
    var ring := Cpy(Fresh(memory), data);
    assert 0 <= ring.outPos < |ring.buf|;
    Fetch(ring, ToUint16(|ring.buf| - ring.space)).0
  }

  /** The copy into a fresh buffer stays inside it, and all of the data is sent. */
  predicate LazyDelivers(memory: seq<bv8>, data: seq<bv8>)
    requires |memory| == 256
  {
    WriteFits(Fresh(memory), |data|) && LazySends(memory, data) == data
  }

  /** An enqueue that creates the buffer delivers its data, whatever they are, exactly when
      they fit the buffer. Up to 512 bytes longer data overwrite their own beginning;
      beyond that the second copy leaves the buffer. */
  lemma LazyCreateExact(memory: seq<bv8>, n: nat)
    requires |memory| == 256 && n < 0x1_0000
    ensures (forall data: seq<bv8> | |data| == n :: LazyDelivers(memory, data)) <==> n <= 256
    ensures WriteFits(Fresh(memory), n) <==> n <= 512
  {
    if n <= 256 {
      forall data: seq<bv8> | |data| == n ensures LazyDelivers(memory, data) {
        LazyFits(memory, data);
      }
    } else {
      var data: seq<bv8> := seq(n, i => if i == 0 then 1 else 0);
      LazyOverwrites(memory, data);
      assert |data| == n && !LazyDelivers(memory, data);
    }
  }

  lemma LazyFits(memory: seq<bv8>, data: seq<bv8>)
    requires |memory| == 256 && |data| <= 256
    ensures LazySends(memory, data) == data
  {
    FillsEmpty(Fresh(memory), data);
  }

  lemma FillsEmpty(r: Ring, data: seq<bv8>)
    requires RingOk(r) && r.space == |r.buf| && |data| <= r.space
    ensures var r' := Cpy(r, data);
      RingOk(r') && Fetch(r', ToUint16(|r'.buf| - r'.space)).0 == data
  {
    CpyAppends(r, data);
    BehindNothing(Contents(r), data);
    FetchAll(Cpy(r, data));
  }

  lemma BehindNothing(none: seq<bv8>, data: seq<bv8>)
    requires |none| == 0
    ensures none + data == data
  {
  }

  lemma FetchAll(r: Ring)
    requires RingOk(r)
    ensures |r.buf| - r.space >= 0 && Fetch(r, ToUint16(|r.buf| - r.space)).0 == Contents(r)
  {
    FetchReads(r, Stored(r));
    assert Contents(r)[..Stored(r)] == Contents(r);
  }

  lemma LazyOverwrites(memory: seq<bv8>, data: seq<bv8>)
    requires |memory| == 256 && 256 < |data| && data[0] != data[256]
    ensures !LazyDelivers(memory, data)
  {
    LazyDeliversExactly(memory, data);
  }

  /** Longer data that fit twice into the buffer: the second part overwrites the first, and
      Space wraps, so as many bytes are sent as were given. */
  lemma LazyRing(memory: seq<bv8>, data: seq<bv8>)
    requires |memory| == 256 && 256 < |data| <= 512
    ensures var r := Cpy(Fresh(memory), data);
      && |r.buf| == 256 && r.outPos == 0 && r.space == 0x1_0000 - (|data| - 256)
      && 0 <= r.inPos < 256 && ToUint16(256 - r.space) == |data|
      && r.buf == data[256..] + data[|data| - 256..256]
  {
    var empty := Fresh(memory);
    assert PosMod(256, 256) == PosMod(0, 256) == 0;
    var first := CopyPart(empty, data[..256]);
    assert first.buf == data[..256];
    assert Cpy(empty, data) == CopyPart(first, data[256..]);
    assert data[..256][|data| - 256..] == data[|data| - 256..256];
    assert CopyPart(first, data[256..]).buf == data[256..] + data[..256][|data| - 256..];
  }

  /** Going round the buffer once, at most. */
  lemma {:induction false} FetchAround(r: Ring, len: nat)
    requires r.outPos == 0 < |r.buf| && len <= 2 * |r.buf|
    ensures Fetch(r, len).1 == (if len < |r.buf| then len else if len < 2 * |r.buf| then len - |r.buf| else 0)
    ensures Fetch(r, len).0 == if len <= |r.buf| then r.buf[..len] else r.buf + r.buf[..len - |r.buf|]
  {
    if len > 0 { FetchAround(r, len - 1); }
  }

  /** The data of a lazy creation are delivered exactly when they fit, or fit twice and
      repeat themselves where they overlap. */
  lemma LazyDeliversExactly(memory: seq<bv8>, data: seq<bv8>)
    requires |memory| == 256
    ensures LazyDelivers(memory, data)
       <==> |data| <= 256
            || (|data| <= 512 && data[..|data| - 256] == data[256..])
  {
    if |data| <= 256 {
      LazyFits(memory, data);
    } else if |data| <= 512 {
      LazySendsIs(memory, data);
      SentTwice(data[..|data| - 256], data[|data| - 256..256], data[256..]);
      assert data == data[..|data| - 256] + data[|data| - 256..256] + data[256..];
    }
  }

  lemma SentTwice(first: seq<bv8>, middle: seq<bv8>, last: seq<bv8>)
    requires |first| == |last|
    ensures (last + middle)[..|last|] == last
    ensures last + middle + last == first + middle + last <==> first == last
  {
    var n := |last|;
    assert (last + middle + last)[..n] == last && (first + middle + last)[..n] == first;
  }

  lemma LazySendsIs(memory: seq<bv8>, data: seq<bv8>)
    requires |memory| == 256 && 256 < |data| <= 512
    ensures LazySends(memory, data) == data[256..] + data[|data| - 256..256] + data[256..]
  {
    LazyRing(memory, data);
    FetchAround(Cpy(Fresh(memory), data), |data|);
    SentTwice(data[..|data| - 256], data[|data| - 256..256], data[256..]);
  }

  /** After such a creation the room test is blind: Space has wrapped, and it lets through
      up to that many bytes, of which more than 512 leave the buffer. */
  lemma LazyBlindsRoomTest(memory: seq<bv8>, data: seq<bv8>, more: nat)
    requires |memory| == 256 && 256 < |data| <= 512
    ensures var r := Cpy(Fresh(memory), data);
      r.space == 0x1_0000 - (|data| - 256) > 512 && (more > 512 ==> !WriteFits(r, more))
  {
    LazyRing(memory, data);
  }
}
