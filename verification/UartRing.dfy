/** The ring buffer of the UART driver: the pointer arithmetic of its copy routines
    as functions on a ring, and proofs that on rings they are queue operations. */
module UartRing {
  import opened Arithmetic

  /** struct UartBuffer; the pointers are offsets from pUartBuff, and Space is a uint16. */
  datatype Ring = Ring(buf: seq<bv8>, inPos: int, outPos: int, space: int)

  // ----- the abstract queue -----

  /** The slot `k` places after offset `p`, going round once at most. */
  function Slot(p: int, k: int, n: int): (i: int) {
    if p + k < n then p + k else p + k - n
  }

  function Stored(r: Ring): (len: int) {
    |r.buf| - r.space
  }

  predicate RingOk(r: Ring) {
    && 0 < |r.buf| < 0x1_0000
    && 0 <= r.inPos < |r.buf| && 0 <= r.outPos < |r.buf| && 0 <= r.space <= |r.buf|
    && r.inPos == Slot(r.outPos, Stored(r), |r.buf|)
  }

  /** The bytes in the ring, oldest first. */
  function Contents(r: Ring): (q: seq<bv8>)
    requires RingOk(r)
    ensures |q| == Stored(r)
    ensures forall k {:trigger q[k]} | 0 <= k < |q| :: q[k] == r.buf[Slot(r.outPos, k, |r.buf|)]
  {
    seq(Stored(r), k requires 0 <= k < Stored(r) => r.buf[Slot(r.outPos, k, |r.buf|)])
  }

  lemma ContentsAre(r: Ring, q: seq<bv8>)
    requires RingOk(r) && |q| == Stored(r)
    requires forall k | 0 <= k < |q| :: q[k] == r.buf[Slot(r.outPos, k, |r.buf|)]
    ensures Contents(r) == q
  {
  }

  /** Uart_Buf_Init on memory with arbitrary contents. */
  function Fresh(memory: seq<bv8>): (r: Ring)
    requires 0 < |memory| < 0x1_0000
    ensures RingOk(r) && Contents(r) == []
  {
    Ring(memory, 0, 0, |memory|)
  }

  // ----- Uart_Buf_Cpy -----

  function Splice(b: seq<bv8>, i: int, d: seq<bv8>): (r: seq<bv8>)
    requires 0 <= i && i + |d| <= |b|
    ensures |r| == |b|
    ensures forall k | 0 <= k < |b| :: r[k] == if i <= k < i + |d| then d[k - i] else b[k]
  {
    b[..i] + d + b[i + |d|..]
  }

  /** One of the memory copies of Uart_Buf_Cpy, with the pointer and Space updates after it. */
  function CopyPart(r: Ring, d: seq<bv8>): (r': Ring)
    requires |r.buf| > 0 && 0 <= r.inPos && r.inPos + |d| <= |r.buf|
  {
    Ring(Splice(r.buf, r.inPos, d), PosMod(r.inPos + |d|, |r.buf|), r.outPos, ToUint16(r.space - |d|))
  }

  /** Both parts of a copy of `n` bytes stay inside the buffer. */
  predicate WriteFits(r: Ring, n: nat) {
    var tail := |r.buf| - r.inPos;
    n <= tail || n - tail <= |r.buf|
  }

  /** Uart_Buf_Cpy; the precondition is that its copies stay inside the buffer. */
  function Cpy(r: Ring, d: seq<bv8>): (r': Ring)
    requires 0 <= r.inPos < |r.buf| && WriteFits(r, |d|)
  {
    var tail := |r.buf| - r.inPos;
    if d == [] then r
    else if tail >= |d| then CopyPart(r, d)
    else
      assert PosMod(|r.buf|, |r.buf|) == PosMod(0, |r.buf|) == 0;
      CopyPart(CopyPart(r, d[..tail]), d[tail..])
  }

  lemma CopyPartAppends(r: Ring, d: seq<bv8>)
    requires RingOk(r) && |d| <= r.space && r.inPos + |d| <= |r.buf|
    ensures RingOk(CopyPart(r, d)) && Contents(CopyPart(r, d)) == Contents(r) + d
  {
    var r', n := CopyPart(r, d), |r.buf|;
    assert PosMod(n, n) == PosMod(0, n) == 0;
    var q := Contents(r) + d;
    forall k | 0 <= k < |q| ensures q[k] == r'.buf[Slot(r'.outPos, k, n)] {
      if k < |Contents(r)| { assert q[k] == Contents(r)[k]; }
    }
    ContentsAre(r', q);
  }

  /** With room for the data, copying appends it to the queue, round the end if need be. */
  lemma CpyAppends(r: Ring, d: seq<bv8>)
    requires RingOk(r) && |d| <= r.space
    ensures RingOk(Cpy(r, d)) && Contents(Cpy(r, d)) == Contents(r) + d
    ensures |Cpy(r, d).buf| == |r.buf|
  {
    var tail := |r.buf| - r.inPos;
    if d == [] {
      assert Contents(r) + d == Contents(r);
    } else if tail >= |d| {
      CopyPartAppends(r, d);
    } else {
      CopyPartAppends(r, d[..tail]);
      CopyPartAppends(CopyPart(r, d[..tail]), d[tail..]);
      assert d == d[..tail] + d[tail..];
      assert Contents(r) + d[..tail] + d[tail..] == Contents(r) + d;
    }
  }

  // ----- rx_buff_deq -----

  /** How many bytes rx_buff_deq hands over. */
  function DeqLen(r: Ring, want: int): (len: int) {
    Min(want, ToUint16(|r.buf| - r.space))
  }

  /** The copies stay inside the buffer. */
  predicate CopiesFit(r: Ring, len: int) {
    r.outPos + len <= (if r.outPos <= r.inPos then |r.buf| else 2 * |r.buf|)
  }

  /** rx_buff_deq of `len` bytes: what is copied out and the ring after it. */
  function Take(r: Ring, len: nat): (res: (seq<bv8>, Ring))
    requires 0 <= r.outPos < |r.buf| && r.space >= 0 && CopiesFit(r, len)
  {
    var n := |r.buf|;
    var tail := n - r.outPos;
    if r.outPos <= r.inPos then
      (r.buf[r.outPos..r.outPos + len], r.(outPos := r.outPos + len, space := ToUint16(r.space + len)))
    else if len > tail then
      (r.buf[r.outPos..] + r.buf[..len - tail],
       r.(outPos := PosMod(PosMod(r.outPos + tail, n) + (len - tail), n),
          space := ToUint16(ToUint16(r.space + tail) + (len - tail))))
    else
      (r.buf[r.outPos..r.outPos + len],
       r.(outPos := PosMod(r.outPos + len, n), space := ToUint16(r.space + len)))
  }

  function Deq(r: Ring, want: nat): (res: (seq<bv8>, Ring))
    requires 0 <= r.outPos < |r.buf| && r.space >= 0 && CopiesFit(r, DeqLen(r, want))
  {
    Take(r, DeqLen(r, want))
  }

  /** The oldest bytes, when they do not go round the end. */
  lemma OneSlice(r: Ring, len: nat)
    requires RingOk(r) && len <= Stored(r) && r.outPos + len <= |r.buf|
    ensures r.buf[r.outPos..r.outPos + len] == Contents(r)[..len]
  {
    var q := Contents(r);
    forall k | 0 <= k < len ensures r.buf[r.outPos..r.outPos + len][k] == q[k] {
    }
  }

  /** The oldest bytes, when they do. */
  lemma TwoSlices(r: Ring, len: nat)
    requires RingOk(r) && len <= Stored(r) && r.outPos + len > |r.buf|
    ensures r.buf[r.outPos..] + r.buf[..len - (|r.buf| - r.outPos)] == Contents(r)[..len]
  {
    var q, tail := Contents(r), |r.buf| - r.outPos;
    var two := r.buf[r.outPos..] + r.buf[..len - tail];
    forall k | 0 <= k < len ensures two[k] == q[k] {
      if k >= tail { assert two[k] == r.buf[k - tail]; }
    }
  }

  /** Advancing the read pointer by `len` drops the oldest `len` bytes. */
  lemma Advance(r: Ring, len: nat)
    requires RingOk(r) && len <= Stored(r) && (len < |r.buf| || r.space == 0)
    ensures var r' := r.(outPos := if len < |r.buf| then Slot(r.outPos, len, |r.buf|) else r.outPos,
                         space := r.space + len);
            RingOk(r') && Contents(r') == Contents(r)[len..]
  {
    var n := |r.buf|;
    var r' := r.(outPos := if len < n then Slot(r.outPos, len, n) else r.outPos, space := r.space + len);
    var rest := Contents(r)[len..];
    forall k | 0 <= k < |rest| ensures rest[k] == r'.buf[Slot(r'.outPos, k, n)] {
      assert rest[k] == Contents(r)[len + k];
    }
    ContentsAre(r', rest);
  }

  lemma DeqIsSafe(r: Ring, want: nat)
    requires RingOk(r) && r.space >= 1
    ensures var len := DeqLen(r, want);
            && 0 <= len == Min(want, Stored(r))
            && CopiesFit(r, len)
  {
  }

  /** On a ring that is not full, all three cases hand over the oldest bytes in order. */
  lemma DeqTakesOldest(r: Ring, want: nat)
    requires RingOk(r) && r.space >= 1
    ensures DeqLen(r, want) == Min(want, Stored(r))
    ensures CopiesFit(r, DeqLen(r, want))
    ensures var (bytes, r') := Deq(r, want);
            && RingOk(r') && |r'.buf| == |r.buf| && r'.space == r.space + |bytes|
            && bytes == Contents(r)[..Min(want, Stored(r))]
            && Contents(r') == Contents(r)[Min(want, Stored(r))..]
  {
    DeqIsSafe(r, want);
    DeqBytes(r, want);
    DeqRing(r, want);
    Advance(r, DeqLen(r, want));
  }

  lemma DeqBytes(r: Ring, want: nat)
    requires RingOk(r) && r.space >= 1
    ensures DeqLen(r, want) == Min(want, Stored(r))
    ensures CopiesFit(r, DeqLen(r, want))
    ensures Deq(r, want).0 == Contents(r)[..Min(want, Stored(r))]
  {
    DeqIsSafe(r, want);
    var n, len := |r.buf|, DeqLen(r, want);
    var tail := n - r.outPos;
    if r.outPos > r.inPos && len > tail {
      TwoSlices(r, len);
    } else {
      OneSlice(r, len);
    }
  }

  lemma DeqRing(r: Ring, want: nat)
    requires RingOk(r) && r.space >= 1
    ensures DeqLen(r, want) == Min(want, Stored(r))
    ensures CopiesFit(r, DeqLen(r, want))
    ensures Deq(r, want).1 == r.(outPos := Slot(r.outPos, DeqLen(r, want), |r.buf|), space := r.space + DeqLen(r, want))
  {
    DeqIsSafe(r, want);
    var n := |r.buf|;
    assert PosMod(n, n) == PosMod(0, n) == 0;
  }

  /** Why the receive ring must never fill: on a full ring that does not start at the
      buffer's first byte, a request for everything reads past the buffer's end. */
  lemma DeqOfFullOverruns(r: Ring, want: nat)
    requires RingOk(r) && r.space == 0 && r.outPos > 0 && want >= |r.buf|
    ensures !CopiesFit(r, DeqLen(r, want))
  {
  }

  // ----- Uart_rx_buff_enq -----

  /** The loop of Uart_rx_buff_enq: bytes stored one by one, Space untouched. */
  function Put(r: Ring, d: seq<bv8>): (r': Ring)
    requires 0 <= r.inPos < |r.buf|
    ensures |r'.buf| == |r.buf| && 0 <= r'.inPos < |r'.buf| && r'.outPos == r.outPos && r'.space == r.space
    decreases |d|
  {
    if d == [] then r
    else
      var m := |d| - 1;
      var p := Put(r, d[..m]);
      p.(buf := p.buf[p.inPos := d[m]], inPos := if p.inPos + 1 == |p.buf| then 0 else p.inPos + 1)
  }

  function Enq(r: Ring, d: seq<bv8>): (r': Ring)
    requires 0 <= r.inPos < |r.buf|
  {
    var p := Put(r, d);
    p.(space := ToUint16(p.space - |d|))
  }

  lemma {:induction false} PutFills(r: Ring, d: seq<bv8>)
    requires RingOk(r) && |d| <= r.space
    ensures var p := Put(r, d);
            && p.inPos == Slot(r.outPos, Stored(r) + |d|, |r.buf|)
            && (forall k | 0 <= k < Stored(r) :: p.buf[Slot(r.outPos, k, |r.buf|)] == Contents(r)[k])
            && (forall k | 0 <= k < |d| :: p.buf[Slot(r.outPos, Stored(r) + k, |r.buf|)] == d[k])
    decreases |d|
  {
    if d != [] {
      PutFills(r, d[..|d| - 1]);
    }
  }

  lemma EnqAppends(r: Ring, d: seq<bv8>)
    requires RingOk(r) && |d| <= r.space
    ensures RingOk(Enq(r, d)) && Contents(Enq(r, d)) == Contents(r) + d
    ensures Enq(r, d).space == r.space - |d| && |Enq(r, d).buf| == |r.buf|
  {
    PutFills(r, d);
    var q := Contents(r) + d;
    var r', n := Enq(r, d), |r.buf|;
    forall k | 0 <= k < |q| ensures q[k] == r'.buf[Slot(r'.outPos, k, n)] {
      if k >= Stored(r) { assert q[k] == d[k - Stored(r)]; }
    }
    ContentsAre(r', q);
  }

  // ----- tx_fifo_insert -----

  /** The loop of tx_fifo_insert: the bytes written to the FIFO, and the pointer after. */
  function Fetch(r: Ring, len: nat): (res: (seq<bv8>, int))
    requires 0 <= r.outPos < |r.buf|
    ensures |res.0| == len && 0 <= res.1 < |r.buf|
  {
    if len == 0 then ([], r.outPos)
    else
      var (bytes, p) := Fetch(r, len - 1);
      (bytes + [r.buf[p]], if p + 1 == |r.buf| then 0 else p + 1)
  }

  function Insert(r: Ring, len: nat): (res: (seq<bv8>, Ring))
    requires 0 <= r.outPos < |r.buf|
  {
    var (bytes, p) := Fetch(r, len);
    (bytes, r.(outPos := PosMod(p, |r.buf|), space := ToUint16(r.space + len)))
  }

  lemma {:induction false} FetchReads(r: Ring, len: nat)
    requires RingOk(r) && len <= Stored(r)
    ensures Fetch(r, len).0 == Contents(r)[..len]
    ensures Fetch(r, len).1 == if len < |r.buf| then Slot(r.outPos, len, |r.buf|) else r.outPos
  {
    if len > 0 {
      FetchReads(r, len - 1);
      assert Contents(r)[..len] == Contents(r)[..len - 1] + [Contents(r)[len - 1]];
    }
  }

  /** Draining takes the oldest bytes off the queue, also from a full ring. */
  lemma InsertTakesOldest(r: Ring, len: nat)
    requires RingOk(r) && len <= Stored(r)
    ensures var (bytes, r') := Insert(r, len);
            && RingOk(r') && |r'.buf| == |r.buf| && r'.space == r.space + len
            && bytes == Contents(r)[..len] && Contents(r') == Contents(r)[len..]
  {
    FetchReads(r, len);
    Advance(r, len);
  }
}
