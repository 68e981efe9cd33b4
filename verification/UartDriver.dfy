/** The UART driver over heap buffers: each routine changes positions, bytes, FIFOs
    and interrupt-enable bits in place and is proved to be a step of UartProtocol. */
module UartDriver {
  import opened Arithmetic
  import opened UartRing
  import opened UartProtocol

  class UartBuffer {
    const pUartBuff: array<bv8>
    var pInPos: int
    var pOutPos: int
    var space: int

    ghost function View(): (r: Ring)
      reads this, pUartBuff
    {
      Ring(pUartBuff[..], pInPos, pOutPos, space)
    }

    /** Uart_Buf_Init: the allocated memory holds anything. */
    constructor (size: nat)
      requires 0 < size < 0x1_0000
      ensures fresh(pUartBuff) && pUartBuff.Length == size
      ensures View() == Fresh(pUartBuff[..])
    {
      pUartBuff := new bv8[size];
      pInPos, pOutPos, space := 0, 0, size;
    }

    /** os_memcpy into the buffer at pInPos, and the updates after it. */
    method CopyPart(d: seq<bv8>)
      requires pUartBuff.Length > 0 && 0 <= pInPos && pInPos + |d| <= pUartBuff.Length
      modifies this`pInPos, this`space, pUartBuff
      ensures View() == UartRing.CopyPart(old(View()), d)
    {
      forall k | 0 <= k < |d| {
        pUartBuff[pInPos + k] := d[k];
      }
      assert pUartBuff[..] == Splice(old(pUartBuff[..]), pInPos, d);
      pInPos := PosMod(pInPos + |d|, pUartBuff.Length);
      space := ToUint16(space - |d|);
    }

    /** Uart_Buf_Cpy. */
    method BufCpy(pdata: seq<bv8>)
      requires 0 <= pInPos < pUartBuff.Length && WriteFits(View(), |pdata|)
      modifies this`pInPos, this`space, pUartBuff
      ensures View() == Cpy(old(View()), pdata)
    {
      if |pdata| == 0 {
        return;
      }
      var tail := pUartBuff.Length - pInPos;
      if tail >= |pdata| {
        CopyPart(pdata);
      } else {
        assert PosMod(pUartBuff.Length, pUartBuff.Length) == PosMod(0, pUartBuff.Length) == 0;
        CopyPart(pdata[..tail]);
        CopyPart(pdata[tail..]);
      }
    }

    /** rx_buff_deq, up to its last test of Space. */
    method Dequeue(want: nat) returns (bytes: seq<bv8>)
      requires 0 <= pOutPos < pUartBuff.Length && space >= 0 && CopiesFit(View(), DeqLen(View(), want))
      modifies this`pOutPos, this`space
      ensures bytes == Deq(old(View()), want).0 && View() == Deq(old(View()), want).1
    {
      var bufLen := ToUint16(pUartBuff.Length - space);
      var len := if want > bufLen then bufLen else want;
      bytes := Take(len);
    }

    /** The three copy cases of rx_buff_deq. */
    method Take(len: nat) returns (bytes: seq<bv8>)
      requires 0 <= pOutPos < pUartBuff.Length && space >= 0 && CopiesFit(View(), len)
      modifies this`pOutPos, this`space
      ensures bytes == UartRing.Take(old(View()), len).0 && View() == UartRing.Take(old(View()), len).1
    {
      var tail := pUartBuff.Length - pOutPos;
      if pOutPos <= pInPos {
        bytes := pUartBuff[pOutPos..pOutPos + len];
        pOutPos := pOutPos + len;
        space := ToUint16(space + len);
      } else if len > tail {
        bytes := TakeAround(tail, len);
      } else {
        bytes := TakePart(len);
      }
    }

    /** The two copies of a read that goes round the end of the buffer. */
    method TakeAround(tail: nat, len: nat) returns (bytes: seq<bv8>)
      requires 0 <= pOutPos < pUartBuff.Length && tail == pUartBuff.Length - pOutPos
      requires tail <= len <= tail + pUartBuff.Length
      modifies this`pOutPos, this`space
      ensures bytes == View().buf[old(pOutPos)..] + View().buf[..len - tail]
      ensures pOutPos == PosMod(PosMod(old(pOutPos) + tail, pUartBuff.Length) + (len - tail), pUartBuff.Length)
      ensures space == ToUint16(ToUint16(old(space) + tail) + (len - tail))
    {
      assert PosMod(pUartBuff.Length, pUartBuff.Length) == PosMod(0, pUartBuff.Length) == 0;
      bytes := TakePart(tail);
      var more := TakePart(len - tail);
      bytes := bytes + more;
    }

    /** os_memcpy out of the buffer at pOutPos, and the updates after it. */
    method TakePart(len: nat) returns (part: seq<bv8>)
      requires 0 <= pOutPos < pUartBuff.Length && pOutPos + len <= pUartBuff.Length
      modifies this`pOutPos, this`space
      ensures part == pUartBuff[..][old(pOutPos)..old(pOutPos) + len]
      ensures pOutPos == PosMod(old(pOutPos) + len, pUartBuff.Length) && space == ToUint16(old(space) + len)
    {
      part := pUartBuff[pOutPos..pOutPos + len];
      pOutPos := PosMod(pOutPos + len, pUartBuff.Length);
      space := ToUint16(space + len);
    }

    /** The loop of Uart_rx_buff_enq over the bytes read from the FIFO, and its Space update. */
    method Enqueue(d: seq<bv8>)
      requires 0 <= pInPos < pUartBuff.Length
      modifies this`pInPos, this`space, pUartBuff
      ensures View() == Enq(old(View()), d)
    {
      var bufIdx := 0;
      while bufIdx < |d|
        invariant 0 <= bufIdx <= |d| && 0 <= pInPos < pUartBuff.Length
        invariant View() == Put(old(View()), d[..bufIdx])
      {
        bufIdx := bufIdx + 1;
        assert d[..bufIdx][..bufIdx - 1] == d[..bufIdx - 1];
        pUartBuff[pInPos] := d[bufIdx - 1];
        pInPos := pInPos + 1;
        if pInPos == pUartBuff.Length {
          pInPos := 0;
        }
      }
      assert d[..bufIdx] == d;
      space := ToUint16(space - |d|);
    }

    /** tx_fifo_insert: the bytes for the FIFO. */
    method FifoInsert(len: nat) returns (bytes: seq<bv8>)
      requires 0 <= pOutPos < pUartBuff.Length
      modifies this`pOutPos, this`space
      ensures bytes == Insert(old(View()), len).0 && View() == Insert(old(View()), len).1
    {
      bytes := [];
      ghost var r := View();
      for i := 0 to len
        invariant View() == r.(outPos := pOutPos) && 0 <= pOutPos < pUartBuff.Length
        invariant bytes == Fetch(r, i).0 && pOutPos == Fetch(r, i).1
      {
        bytes := bytes + [pUartBuff[pOutPos]];
        pOutPos := pOutPos + 1;
        if pOutPos == pUartBuff.Length {
          pOutPos := 0;
        }
      }
      pOutPos := PosMod(pOutPos, pUartBuff.Length);
      space := ToUint16(space + len);
    }
  }

  lemma DrainIgnoresEna(s: Tx)
    requires TxOk(s)
    ensures TxDrain(s.(ena := false)) == TxDrain(s)
  {
  }

  class Uart {
    var pRxBuffer: UartBuffer
    var pTxBuffer: UartBuffer?
    var rxFifo: seq<bv8>
    var txFifo: seq<bv8>
    var rxEna: bool
    var txEna: bool
    var pending: int
    ghost var received: seq<bv8>
    ghost var delivered: seq<bv8>
    ghost var sent: seq<bv8>
    ghost var accepted: seq<bv8>

    ghost function Repr(): (s: set<object>)
      reads this, pRxBuffer, pTxBuffer
    {
      {this, pRxBuffer, pRxBuffer.pUartBuff}
      + (if pTxBuffer == null then {} else {pTxBuffer, pTxBuffer.pUartBuff})
    }

    ghost function RxView(): (s: Rx)
      reads this, pRxBuffer, pRxBuffer.pUartBuff
    {
      Rx(pRxBuffer.View(), rxFifo, rxEna, pending, received, delivered)
    }

    ghost function TxView(): (s: Tx)
      reads this, pTxBuffer, if pTxBuffer == null then {} else {pTxBuffer.pUartBuff}
    {
      Tx(if pTxBuffer == null then NoRing else MaybeRing.Some(pTxBuffer.View()), txFifo, txEna, sent, accepted)
    }

    /** Both protocol invariants, and the two buffers are apart. */
    ghost predicate Valid()
      reads this, Repr()
    {
      && RxInv(RxView()) && TxInv(TxView())
      && (pTxBuffer != null ==> pTxBuffer != pRxBuffer && pTxBuffer.pUartBuff != pRxBuffer.pUartBuff)
    }

    /** uart_init with the buffers on; without heap for it there is no transmit buffer. */
    constructor (heap: bool)
      ensures Valid() && fresh(Repr())
      ensures RxView() == RxStart(pRxBuffer.pUartBuff[..])
      ensures heap <==> pTxBuffer != null
      ensures rxEna && !txEna && txFifo == [] && accepted == []
    {
      pRxBuffer := new UartBuffer(256);
      if heap { pTxBuffer := new UartBuffer(256); } else { pTxBuffer := null; }
      rxFifo, txFifo, rxEna, txEna, pending := [], [], true, false, 0;
      received, delivered, sent, accepted := [], [], [], [];
      new;
      assert Queued(TxView()) == [];
    }

    /** The FULL and TOUT arms of uart0_rx_intr_handler. */
    method RxInterrupt()
      requires Valid() && rxEna
      modifies this`rxEna, this`pending
      ensures Valid() && RxView() == RxStep(old(RxView()), RxIntr)
    {
      RxStepKeepsInv(RxView(), RxIntr);
      rxEna := false;
      if pending < 10 {
        pending := pending + 1;
      }
    }

    /** uart_recvTask on an event with signal 0. */
    method ReceiveTask()
      requires Valid() && pending > 0
      modifies this`rxFifo, this`rxEna, this`pending, pRxBuffer, pRxBuffer.pUartBuff
      ensures Valid() && RxView() == RxStep(old(RxView()), RecvTask)
      ensures TxView() == old(TxView())
    {
      RxStepKeepsInv(RxView(), RecvTask);
      pending := pending - 1;
      if |rxFifo| < pRxBuffer.space {
        pRxBuffer.Enqueue(rxFifo);
        rxFifo := [];
        if pRxBuffer.space >= 128 {
          rxEna := true;
        }
      }
    }

    /** rx_buff_deq. */
    method RxDequeue(want: nat) returns (bytes: seq<bv8>)
      requires Valid()
      modifies this`rxEna, this`delivered, pRxBuffer
      ensures Valid() && RxView() == RxStep(old(RxView()), UartProtocol.Dequeue(want))
      ensures delivered == old(delivered) + bytes && TxView() == old(TxView())
    {
      RxStepKeepsInv(RxView(), UartProtocol.Dequeue(want));
      DeqIsSafe(pRxBuffer.View(), want);
      bytes := pRxBuffer.Dequeue(want);
      delivered := delivered + bytes;
      if pRxBuffer.space >= 128 {
        rxEna := true;
      }
    }

    /** tx_buff_enq. What it writes into a lazily created buffer must stay inside it; the
        invariants survive if it also fits. */
    method TxEnqueue(pdata: seq<bv8>, heap: bool)
      requires Valid() && (pTxBuffer == null ==> |pdata| <= 512)
      modifies this`pTxBuffer, this`txEna, this`accepted
      modifies pTxBuffer, if pTxBuffer == null then {} else {pTxBuffer.pUartBuff}
      ensures RxView() == old(RxView())
      ensures old(pTxBuffer) != null || |pdata| <= 256 ==> Valid()
      ensures pTxBuffer == old(pTxBuffer) || (fresh(pTxBuffer) && fresh(pTxBuffer.pUartBuff))
      ensures exists memory: seq<bv8> ::
        |memory| == 256 && TxView() == UartProtocol.TxEnqueue(old(TxView()), pdata, heap, memory)
    {
      ghost var s := TxView();
      ghost var memory: seq<bv8> := seq(256, i => 0);
      txEna := false;
      if pTxBuffer == null {
        if heap {
          pTxBuffer := new UartBuffer(256);
          memory := pTxBuffer.pUartBuff[..];
          pTxBuffer.BufCpy(pdata);
          accepted := accepted + pdata;
        }
      } else {
        if |pdata| <= pTxBuffer.space {
          pTxBuffer.BufCpy(pdata);
          accepted := accepted + pdata;
        }
      }
      txEna := true;
      assert TxView() == UartProtocol.TxEnqueue(s, pdata, heap, memory);
      if s.buffer.Some? || |pdata| <= 256 { TxEnqueueKeepsInv(s, pdata, heap, memory); }
    }

    /** tx_start_uart_buffer, after the handler has cleared the enable bit. */
    method TxStartBuffer()
      requires TxOk(TxView()) && !txEna
      modifies this`txEna, this`txFifo, pTxBuffer
      ensures TxView() == TxDrain(old(TxView()))
    {
      var fifoRemain := ToUint8(128 - |txFifo|);
      if pTxBuffer != null {
        var dataLen := ToUint16(pTxBuffer.pUartBuff.Length - pTxBuffer.space);
        var len := if dataLen > fifoRemain then fifoRemain else ToUint8(dataLen);
        var bytes := pTxBuffer.FifoInsert(len);
        txFifo := txFifo + bytes;
        if dataLen > fifoRemain {
          txEna := true;
        }
      }
    }

    /** The empty arm of uart0_rx_intr_handler. */
    method TxEmptyInterrupt()
      requires Valid() && txEna
      modifies this`txEna, this`txFifo, pTxBuffer
      ensures Valid() && RxView() == old(RxView())
      ensures TxView() == TxStep(old(TxView()), TxEmpty)
    {
      ghost var s, rx := TxView(), RxView();
      TxDrainKeepsInv(s);
      DrainIgnoresEna(s);
      txEna := false;
      TxStartBuffer();
      assert RxView() == rx;
    }
  }
}
