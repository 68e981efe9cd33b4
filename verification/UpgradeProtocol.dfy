/** The local upgrade download: packets in, erase requests and flash writes out. Flash is
    erased ahead of every write, and the end is flagged exactly at the announced length. */
module UpgradeProtocol {
  import opened Arithmetic
  import opened TimerText

  /** What strstr sees of a packet: the characters in front of the first NUL. */
  function CString(data: string): (s: string)
    ensures |s| <= |data|
  {
    if data == "" || data[0] == '\0' then "" else [data[0]] + CString(data[1..])
  }

  function Find(data: string, pat: string): (r: int)
    ensures r == -1 || 0 <= r <= |CString(data)|
  {
    IndexOf(CString(data), pat, 0)
  }

  /** The test for a packet that carries the HTTP header. */
  predicate LooksLikeHeader(data: string) {
    Find(data, "\r\n\r\n") != -1 && Find(data, "Content-Length") != -1
  }

  /** The text in front of the first NUL holds this somewhere. */
  predicate Holds(data: string, pat: string) {
    exists i: nat | i <= |CString(data)| :: OccursAt(CString(data), pat, i)
  }

  /** A packet passes for a header exactly if it holds an empty line and the key, in
      whatever order. */
  lemma HeaderExactly(data: string)
    ensures LooksLikeHeader(data) <==> Holds(data, "\r\n\r\n") && Holds(data, "Content-Length")
  {
    FindsExactly(data, "\r\n\r\n");
    FindsExactly(data, "Content-Length");
  }

  lemma FindsExactly(data: string, pat: string)
    ensures Find(data, pat) != -1 <==> Holds(data, pat)
  {
    var c := CString(data);
    if Find(data, pat) != -1 {
      assert OccursAt(c, pat, Find(data, pat));
    } else {
      assert forall i: nat | 0 <= i < |c| + 1 :: !OccursAt(c, pat, i);
    }
  }

  datatype MaybeLength = NoLength | Length(value: int)

  /** The number behind "Content-Length: ", if there is one that ends its line. */
  function ContentLength(data: string): (m: MaybeLength) {
    var ptr := Find(data, "Content-Length: ");
    if ptr == -1 || ptr + 16 > |CString(data)| then NoLength
    else
      var end := IndexOf(CString(data), "\r\n", ptr + 16);
      if end == -1 then NoLength else Length(ToUint32(Atoi(CString(data)[ptr + 16..end])))
  }

  /** The number has room in the routine's buffer of 32 characters. */
  predicate NumberFits(data: string) {
    var ptr := Find(data, "Content-Length: ");
    ptr == -1 || ptr + 16 > |CString(data)| || IndexOf(CString(data), "\r\n", ptr + 16) < ptr + 16 + 32
  }

  function BodyOf(data: string): (b: string) {
    var ptr := Find(data, "\r\n\r\n");
    if 0 <= ptr && ptr + 4 <= |data| then data[ptr + 4..] else ""
  }

  /** A packet as the routine sees it: whether it would pass for a header, the length it
      would announce and the body it would carry then; and all of it, as plain data. */
  datatype Packet = Packet(header: bool, length: MaybeLength, body: string, data: string)

  function Parse(data: string): (p: Packet) {
    Packet(LooksLikeHeader(data), ContentLength(data), BodyOf(data), data)
  }

  /** A request to the flash: erase the next so many bytes, for so many bytes of image
      (0xFFFF stands for 64 KiB); or write behind the last write. */
  datatype Op = Erase(size: int, meant: int) | Write(bytes: string)

  datatype Download = Download(
    total: int,         // totallength
    sum: int,           // sumlength
    eraseLen: int,      // erase_length
    finished: nat,      // how often UPGRADE_FLAG_FINISH was set
    ops: seq<Op>)

  function Do(d: Download, op: Op): (r: Download) {
    d.(ops := d.ops + [op])
  }

  /** The erase request that starts a download of `sum` bytes. */
  function FirstErase(d: Download): (r: Download) {
    if d.sum == 0 then d
    else if d.sum >= 0x10000 then Do(d, Erase(0xFFFF, 0x10000)).(eraseLen := d.sum - 0x10000)
    else Do(d, Erase(d.sum, d.sum)).(eraseLen := 0)
  }

  /** The erase request of a later packet. */
  function NextErase(d: Download): (r: Download) {
    if d.eraseLen >= 0x10000 then Do(d, Erase(0xFFFF, 0x10000)).(eraseLen := d.eraseLen - 0x10000)
    else Do(d, Erase(d.eraseLen, d.eraseLen)).(eraseLen := 0)
  }

  /** The end test behind every write. */
  function Check(d: Download): (r: Download) {
    if d.total == d.sum then d.(finished := d.finished + 1, total := 0, sum := 0) else d
  }

  function Store(d: Download, body: string): (r: Download) {
    Check(Do(d.(total := ToUint32(d.total + |body|)), Write(body)))
  }

  /** local_upgrade_download. */
  function Receive(d: Download, p: Packet): (r: Download) {
    if d.total == 0 && p.header then
      if p.length == Length(0) then d.(sum := 0)
      else
        var d1 := if p.length.Length? then d.(sum := p.length.value) else d;
        Store(FirstErase(d1), p.body)
    else
      Store(NextErase(d), p.data)
  }

  function Run(d: Download, ps: seq<Packet>): (r: Download)
    decreases |ps|
  {
    if ps == [] then d else Receive(Run(d, ps[..|ps| - 1]), ps[|ps| - 1])
  }

  const IDLE: Download := Download(0, 0, 0, 0, [])

  // ----- what the flash has seen -----

  /** Erase requests take whole sectors of 4096 bytes, one behind the other. */
  function Sectors(size: int): (r: int) {
    (size + 4095) / 4096 * 4096
  }

  function Erased(ops: seq<Op>): (n: int)
    decreases |ops|
  {
    if ops == [] then 0
    else
      var last := ops[|ops| - 1];
      Erased(ops[..|ops| - 1]) + (if last.Erase? then Sectors(last.size) else 0)
  }

  /** The bytes of image that erase requests were made for. */
  function Requested(ops: seq<Op>): (n: int)
    decreases |ops|
  {
    if ops == [] then 0
    else
      var last := ops[|ops| - 1];
      Requested(ops[..|ops| - 1]) + (if last.Erase? then last.meant else 0)
  }

  function Written(ops: seq<Op>): (s: string)
    decreases |ops|
  {
    if ops == [] then ""
    else
      var last := ops[|ops| - 1];
      if last.Write? then Written(ops[..|ops| - 1]) + last.bytes else Written(ops[..|ops| - 1])
  }

  lemma OpsSnoc(ops: seq<Op>, op: Op)
    ensures Erased(ops + [op]) == Erased(ops) + (if op.Erase? then Sectors(op.size) else 0)
    ensures Requested(ops + [op]) == Requested(ops) + (if op.Erase? then op.meant else 0)
    ensures Written(ops + [op]) == if op.Write? then Written(ops) + op.bytes else Written(ops)
  {
    assert (ops + [op])[..|ops|] == ops;
  }

  /** At no moment has more been written than was erased before. */
  ghost predicate ErasedAhead(ops: seq<Op>) {
    forall n | 0 <= n <= |ops| :: |Written(ops[..n])| <= Erased(ops[..n])
  }

  lemma ErasedAheadSnoc(ops: seq<Op>, op: Op)
    requires ErasedAhead(ops) && |Written(ops + [op])| <= Erased(ops + [op])
    ensures ErasedAhead(ops + [op])
  {
    var all := ops + [op];
    forall n | 0 <= n <= |all| ensures |Written(all[..n])| <= Erased(all[..n]) {
      if n <= |ops| { assert all[..n] == ops[..n]; } else { assert all[..n] == all; }
    }
  }

  /** No more sectors are erased than what was asked for takes. */
  predicate JustErased(ops: seq<Op>) {
    Erased(ops) == Sectors(Requested(ops))
  }

  /** No request is for more than 64 KiB. */
  predicate SmallRequests(ops: seq<Op>) {
    forall i | 0 <= i < |ops| && ops[i].Erase? :: 0 <= ops[i].size <= 0xFFFF && 0 <= ops[i].meant <= 0x10000
  }

  lemma SectorsOf(size: int)
    ensures size <= Sectors(size) < size + 4096 && Sectors(size) % 4096 == 0
    ensures size % 4096 == 0 ==> Sectors(size) == size
  {
  }

  /** Behind whole sectors a request takes its own. */
  lemma SectorsBehind(before: int, size: int)
    requires before % 4096 == 0
    ensures Sectors(before + size) == before + Sectors(size)
  {
    assert before + size + 4095 == before / 4096 * 4096 + (size + 4095);
  }

  // ----- a download in progress -----

  /** `body` has arrived of `length` announced bytes, in `packets` packets. */
  ghost predicate InProgress(d: Download, length: int, body: string, packets: nat) {
    && 0 < length < 0x8000_0000 && d.sum == length && d.finished == 0
    && |body| < length && d.total == |body| <= 0xFFFF * packets
    && 0 <= d.eraseLen && Requested(d.ops) + d.eraseLen == length
    && Requested(d.ops) == Min(length, 0x10000 * packets) && SmallRequests(d.ops)
    && JustErased(d.ops)
    && Written(d.ops) == body && ErasedAhead(d.ops)
  }

  /** A download that is over: everything announced was written, nothing is left to
      erase, the end was flagged once and the counters are ready for another one. */
  ghost predicate Done(d: Download, length: int, body: string) {
    && d.total == d.sum == d.eraseLen == 0 && d.finished == 1
    && |body| == length && Written(d.ops) == body
    && Requested(d.ops) == length && SmallRequests(d.ops) && JustErased(d.ops) && ErasedAhead(d.ops)
  }

  /** A first packet with a header that announces `length`, and what follows the header. */
  predicate IsFirst(p: Packet, length: int) {
    p.header && p.length == Length(length) && 0 < length < 0x8000_0000 && |p.body| <= 0xFFFF
  }

  /** A request head as a browser sends it: the length on a line of its own, the first
      empty line at the end, no NUL. */
  ghost predicate IsHead(head: string, pre: string, length: nat, rest: string) {
    && head == pre + "Content-Length: " + (Decimal(length) + "\r\n" + rest) && '\0' !in head
    && IndexOf(pre + "Content-Length: ", "Content-Length: ", 0) == |pre|
    && IndexOf(pre + "Content-Length: ", "Content-Length", 0) != -1
    && |head| >= 4 && IndexOf(head, "\r\n\r\n", 0) == |head| - 4
  }

  lemma {:induction false} CStringBehind(head: string, body: string)
    requires '\0' !in head
    ensures CString(head + body) == head + CString(body)
  {
    if head == "" {
      assert head + body == body;
    } else {
      var tail, c := head[1..], CString(body);
      CStringBehind(tail, body);
      CStringSteps(head + body, tail + body);
      Regroup([head[0]], tail, c);
      assert [head[0]] + tail == head;
    }
  }

  lemma CStringSteps(data: string, tail: string)
    requires data != "" && data[0] != '\0' && data[1..] == tail
    ensures CString(data) == [data[0]] + CString(tail)
  {
  }

  /** A first occurrence stays the first one whatever follows. */
  lemma {:induction false} IndexOfBehind(s: string, more: string, pat: string, start: nat)
    requires start <= |s| && IndexOf(s, pat, start) != -1
    ensures IndexOf(s + more, pat, start) == IndexOf(s, pat, start)
    decreases |s| - start
  {
    if start + |pat| <= |s| { assert (s + more)[start..start + |pat|] == s[start..start + |pat|]; }
    if !OccursAt(s, pat, start) {
      IndexOfBehind(s, more, pat, start + 1);
    }
  }

  /** Such a head, with any body bytes behind it, is a first packet that announces the
      length and carries exactly those bytes. */
  lemma HeadIsRead(head: string, pre: string, length: nat, rest: string, body: string)
    requires IsHead(head, pre, length, rest) && 0 < length < 0x8000_0000 && |body| <= 0xFFFF
    ensures IsFirst(Parse(head + body), length) && Parse(head + body).body == body
  {
    var data, more := head + body, CString(body);
    CStringBehind(head, body);
    IndexOfBehind(head, more, "\r\n\r\n", 0);
    assert Find(data, "\r\n\r\n") == |head| - 4;
    assert BodyOf(data) == body;
    LengthOfHead(data, head, pre, length, rest, more);
  }

  lemma LengthOfHead(data: string, head: string, pre: string, length: nat, rest: string, more: string)
    requires CString(data) == head + more && length < 0x8000_0000
    requires IsHead(head, pre, length, rest)
    ensures Find(data, "Content-Length") != -1 && ContentLength(data) == Length(length)
  {
    var start, line := pre + "Content-Length: ", Decimal(length) + "\r\n";
    HeadRegroups(head, start, line, rest, more);
    KeyIsFound(pre, "Content-Length: ", "Content-Length", line + (rest + more));
    LengthOfLine(data, start, length, rest + more);
  }

  lemma LengthOfLine(data: string, start: string, length: nat, rest: string)
    requires CString(data) == start + (Decimal(length) + "\r\n" + rest) && length < 0x8000_0000
    requires |start| >= 16 && Find(data, "Content-Length: ") == |start| - 16
    ensures ContentLength(data) == Length(length)
  {
    SliceOfFour(start, Decimal(length), "\r\n", rest);
    NumberIsRead(CString(data), |start|, Decimal(length), "\r\n", length);
    LengthAt(data, |start|, length);
  }

  lemma HeadRegroups(head: string, start: string, line: string, rest: string, more: string)
    requires head == start + (line + rest)
    ensures head + more == start + (line + (rest + more))
  {
    Regroup(start, line + rest, more);
    Regroup(line, rest, more);
  }

  lemma LengthAt(data: string, from: nat, length: nat)
    requires 16 <= from <= |CString(data)| && Find(data, "Content-Length: ") == from - 16
    requires var c := CString(data); var end := IndexOf(c, "\r\n", from);
      end != -1 && Atoi(c[from..end]) == length < 0x8000_0000
    ensures ContentLength(data) == Length(length)
  {
  }

  lemma KeyIsFound(pre: string, key: string, word: string, line: string)
    requires IndexOf(pre + key, key, 0) == |pre| && IndexOf(pre + key, word, 0) != -1
    ensures IndexOf(pre + key + line, key, 0) == |pre| && IndexOf(pre + key + line, word, 0) != -1
  {
    IndexOfBehind(pre + key, line, key, 0);
    IndexOfBehind(pre + key, line, word, 0);
  }

  /** What stands in front of the next line end is the number. */
  lemma NumberIsRead(c: string, start: nat, digits: string, eol: string, n: nat)
    requires digits == Decimal(n) && eol == "\r\n" && start + |digits| + |eol| <= |c|
    requires c[start..start + |digits|] == digits && c[start + |digits|..start + |digits| + |eol|] == eol
    ensures var end := IndexOf(c, "\r\n", start);
      end != -1 && Atoi(c[start..end]) == n
  {
    AtoiOfDecimal(n);
    CutAt(c, start, digits, eol);
  }

  lemma CutAt(c: string, start: nat, line: string, eol: string)
    requires eol != "" && eol[0] !in line && start + |line| + |eol| <= |c|
    requires c[start..start + |line|] == line && c[start + |line|..start + |line| + |eol|] == eol
    ensures IndexOf(c, eol, start) == start + |line|
  {
    FirstBehind(c, eol, start, start + |line|);
  }

  lemma SliceOfFour(a: string, b: string, c: string, d: string)
    ensures var s := a + (b + c + d); var n := |a| + |b|;
      |s| >= n + |c| && s[|a|..n] == b && s[n..n + |c|] == c
  {
  }

  lemma FirstBehind(c: string, eol: string, start: nat, end: nat)
    requires start <= end <= |c| && eol != "" && eol[0] !in c[start..end] && OccursAt(c, eol, end)
    ensures IndexOf(c, eol, start) == end
  {
    forall i | start <= i < end ensures !OccursAt(c, eol, i) {
      assert c[start..end][i - start] == c[i];
      assert i + |eol| <= |c| ==> c[i..i + |eol|][0] == c[i];
    }
  }

  /** Between the erase request and the write of a packet: room was made for `body` and
      for one packet more. */
  ghost predicate RoomMade(d: Download, length: int, body: string, packets: nat) {
    && 0 < length < 0x8000_0000 && d.sum == length && d.finished == 0 && d.total == |body|
    && 0 <= d.eraseLen && Requested(d.ops) + d.eraseLen == length
    && Requested(d.ops) == Min(length, 0x10000 * packets) && SmallRequests(d.ops)
    && JustErased(d.ops)
    && Written(d.ops) == body && ErasedAhead(d.ops)
    && |body| <= 0xFFFF * (packets - 1)
  }

  lemma OneErase(e: Op)
    requires e.Erase? && e.size >= 0
    ensures Erased([e]) == Sectors(e.size) && Requested([e]) == e.meant
    ensures Written([e]) == "" && ErasedAhead([e])
  {
    var none: seq<Op> := [];
    assert none + [e] == [e];
    OpsSnoc(none, e);
    assert ErasedAhead(none);
    ErasedAheadSnoc(none, e);
  }

  lemma FirstEraseMakesRoom(length: int)
    requires 0 < length < 0x8000_0000
    ensures RoomMade(FirstErase(IDLE.(sum := length)), length, "", 1)
  {
    if length >= 0x10000 {
      AfterOneErase(length, Erase(0xFFFF, 0x10000));
    } else {
      AfterOneErase(length, Erase(length, length));
    }
  }

  lemma AfterOneErase(length: int, e: Op)
    requires 0 < length < 0x8000_0000 && e.Erase? && 0 <= e.size && Sectors(e.meant) == Sectors(e.size)
    requires e.size <= 0xFFFF && e.meant == Min(length, 0x10000)
    ensures RoomMade(Download(0, length, length - e.meant, 0, [e]), length, "", 1)
  {
    OneErase(e);
  }

  lemma NextEraseMakesRoom(d: Download, length: int, body: string, packets: nat)
    requires InProgress(d, length, body, packets)
    ensures RoomMade(NextErase(d), length, body, packets + 1)
  {
    var e := if d.eraseLen >= 0x10000 then Erase(0xFFFF, 0x10000) else Erase(d.eraseLen, d.eraseLen);
    assert NextErase(d) == Do(d, e).(eraseLen := d.eraseLen - e.meant);
    NextRequest(length, packets, Requested(d.ops), e);
    EraseKeepsOrder(d.ops, e);
    OneMoreErase(d.ops, e);
  }

  /** The request of one packet more: the next 64 KiB, or the rest. */
  lemma NextRequest(length: int, packets: nat, requested: int, e: Op)
    requires requested == Min(length, 0x10000 * packets) && e.Erase?
    requires e == if length - requested >= 0x10000 then Erase(0xFFFF, 0x10000)
                  else Erase(length - requested, length - requested)
    ensures requested + e.meant == Min(length, 0x10000 * (packets + 1))
    ensures 0 <= e.size <= 0xFFFF && 0 <= e.meant <= 0x10000 && Sectors(e.meant) == Sectors(e.size)
    ensures e.meant == 0 || requested % 4096 == 0
  {
    assert 0x10000 * packets == 4096 * (16 * packets);
  }

  /** A request for what still has to be erased. */
  lemma OneMoreErase(ops: seq<Op>, e: Op)
    requires JustErased(ops) && e.Erase? && Sectors(e.meant) == Sectors(e.size)
    requires e.meant == 0 || Requested(ops) % 4096 == 0
    ensures JustErased(ops + [e]) && Requested(ops + [e]) == Requested(ops) + e.meant
  {
    OpsSnoc(ops, e);
    if e.meant != 0 {
      SectorsOf(Requested(ops));
      SectorsBehind(Requested(ops), e.meant);
    }
  }

  lemma EraseKeepsOrder(ops: seq<Op>, e: Op)
    requires ErasedAhead(ops) && e.Erase? && e.size >= 0
    ensures ErasedAhead(ops + [e]) && Written(ops + [e]) == Written(ops)
  {
    OpsSnoc(ops, e);
    assert |Written(ops[..|ops|])| <= Erased(ops[..|ops|]) && ops[..|ops|] == ops;
    ErasedAheadSnoc(ops, e);
  }

  lemma StoreProgresses(d: Download, length: int, body: string, packets: nat, data: string)
    requires RoomMade(d, length, body, packets)
    requires |data| <= 0xFFFF && |body| + |data| <= length
    ensures |body| + |data| < length ==> InProgress(Store(d, data), length, body + data, packets)
    ensures |body| + |data| == length ==> Done(Store(d, data), length, body + data)
  {
    OpsSnoc(d.ops, Write(data));
    SectorsOf(Requested(d.ops));
    ErasedAheadSnoc(d.ops, Write(data));
  }

  /** The packet with the header, whose body brings no more than it announces. */
  lemma FirstPacket(p: Packet, length: int)
    requires IsFirst(p, length) && |p.body| <= length
    ensures |p.body| < length ==> InProgress(Receive(IDLE, p), length, p.body, 1)
    ensures |p.body| == length ==> Done(Receive(IDLE, p), length, p.body)
  {
    FirstEraseMakesRoom(length);
    var d := FirstErase(IDLE.(sum := length));
    assert Receive(IDLE, p) == Store(d, p.body);
    StoreProgresses(d, length, "", 1, p.body);
    assert "" + p.body == p.body;
  }

  /** A later packet that brings no more than what is missing. */
  lemma LaterPacket(d: Download, length: int, body: string, packets: nat, p: Packet)
    requires InProgress(d, length, body, packets)
    requires |p.data| <= 0xFFFF && |body| + |p.data| <= length
    requires d.total == 0 ==> !p.header
    ensures |body| + |p.data| < length ==> InProgress(Receive(d, p), length, body + p.data, packets + 1)
    ensures |body| + |p.data| == length ==> Done(Receive(d, p), length, body + p.data)
  {
    NextEraseMakesRoom(d, length, body, packets);
    StoreProgresses(NextErase(d), length, body, packets + 1, p.data);
  }

  function Data(ps: seq<Packet>): (s: string)
    decreases |ps|
  {
    if ps == [] then "" else Data(ps[..|ps| - 1]) + ps[|ps| - 1].data
  }

  lemma {:induction false} DataPrefix(ps: seq<Packet>, n: nat)
    requires n <= |ps|
    ensures |Data(ps[..n])| <= |Data(ps)|
    decreases |ps|
  {
    if n == |ps| { assert ps[..n] == ps; }
    else {
      DataPrefix(ps[..|ps| - 1], n);
      assert ps[..|ps| - 1][..n] == ps[..n];
    }
  }

  /** Later packets fit their length field, and are not taken for headers while nothing
      of the body has come. */
  ghost predicate PlainPackets(body0: string, ps: seq<Packet>) {
    forall n | 0 <= n < |ps| :: |ps[n].data| <= 0xFFFF && (body0 == "" && Data(ps[..n]) == "" ==> !ps[n].header)
  }

  lemma PlainPrefix(body0: string, ps: seq<Packet>, m: nat)
    requires PlainPackets(body0, ps) && m <= |ps|
    ensures PlainPackets(body0, ps[..m])
  {
    forall n | 0 <= n < m
      ensures |ps[..m][n].data| <= 0xFFFF && (body0 == "" && Data(ps[..m][..n]) == "" ==> !ps[..m][n].header)
    {
      assert ps[..m][..n] == ps[..n] && ps[..m][n] == ps[n];
    }
  }

  /** Every split of a body shorter than announced: what was passed on is the body in
      order, erasing stayed ahead, requests and rest add up, and the end is not flagged. */
  lemma {:induction false} EverySplitProgresses(first: Packet, length: int, ps: seq<Packet>)
    requires IsFirst(first, length) && PlainPackets(first.body, ps)
    requires |first.body| + |Data(ps)| < length
    ensures InProgress(Run(Receive(IDLE, first), ps), length, first.body + Data(ps), |ps| + 1)
    decreases |ps|
  {
    if ps == [] {
      FirstPacket(first, length);
      assert first.body + "" == first.body;
    } else {
      var m := |ps| - 1;
      PlainPrefix(first.body, ps, m);
      EverySplitProgresses(first, length, ps[..m]);
      NextOfSplit(first, length, ps);
    }
  }

  /** One more packet behind a split that has come that far. */
  lemma NextOfSplit(first: Packet, length: int, ps: seq<Packet>)
    requires ps != [] && PlainPackets(first.body, ps) && |first.body| + |Data(ps)| <= length
    requires var m := |ps| - 1;
             InProgress(Run(Receive(IDLE, first), ps[..m]), length, first.body + Data(ps[..m]), m + 1)
    ensures var d := Run(Receive(IDLE, first), ps);
      if |first.body| + |Data(ps)| < length then InProgress(d, length, first.body + Data(ps), |ps| + 1)
      else Done(d, length, first.body + Data(ps))
  {
    var m := |ps| - 1;
    DataSnoc(first.body, ps);
    RunSnoc(Receive(IDLE, first), ps);
    LaterPacket(Run(Receive(IDLE, first), ps[..m]), length, first.body + Data(ps[..m]), m + 1, ps[m]);
  }

  lemma DataSnoc(body: string, ps: seq<Packet>)
    requires ps != []
    ensures body + Data(ps) == body + Data(ps[..|ps| - 1]) + ps[|ps| - 1].data
  {
    Regroup(body, Data(ps[..|ps| - 1]), ps[|ps| - 1].data);
  }

  lemma RunSnoc(d: Download, ps: seq<Packet>)
    requires ps != []
    ensures Run(d, ps) == Receive(Run(d, ps[..|ps| - 1]), ps[|ps| - 1])
  {
  }

  /** Every split of a whole body whose last packet is not empty: at that packet the end
      is flagged, once, and at no earlier one. */
  lemma EverySplitFinishes(first: Packet, length: int, ps: seq<Packet>)
    requires IsFirst(first, length) && PlainPackets(first.body, ps)
    requires |first.body| + |Data(ps)| == length && (ps != [] ==> ps[|ps| - 1].data != "")
    ensures Done(Run(Receive(IDLE, first), ps), length, first.body + Data(ps))
    ensures forall n | 0 <= n < |ps| :: Run(Receive(IDLE, first), ps[..n]).finished == 0
  {
    if ps == [] {
      FirstPacket(first, length);
      assert first.body + "" == first.body;
    } else {
      var m := |ps| - 1;
      forall n | 0 <= n < |ps| ensures Run(Receive(IDLE, first), ps[..n]).finished == 0 {
        BeforeTheEnd(first, length, ps, n);
      }
      BeforeTheEnd(first, length, ps, m);
      NextOfSplit(first, length, ps);
    }
  }

  lemma BeforeTheEnd(first: Packet, length: int, ps: seq<Packet>, n: nat)
    requires IsFirst(first, length) && PlainPackets(first.body, ps) && n < |ps|
    requires |first.body| + |Data(ps)| == length && ps[|ps| - 1].data != ""
    ensures InProgress(Run(Receive(IDLE, first), ps[..n]), length, first.body + Data(ps[..n]), n + 1)
  {
    var m := |ps| - 1;
    DataPrefix(ps[..m], n);
    assert ps[..m][..n] == ps[..n];
    PlainPrefix(first.body, ps, n);
    EverySplitProgresses(first, length, ps[..n]);
  }

  // ----- any packets: exactly when the end is flagged -----

  /** Packets that are not taken for headers while the counter stands at 0. */
  ghost predicate Headless(t0: int, ps: seq<Packet>) {
    forall n | 0 <= n < |ps| :: t0 == 0 && Data(ps[..n]) == "" ==> !ps[n].header
  }

  /** Some packet ends where, counted from `t0`, exactly `length` bytes have come. */
  ghost predicate Hits(t0: int, length: int, ps: seq<Packet>) {
    exists n | 0 < n <= |ps| :: t0 + |Data(ps[..n])| == length
  }

  lemma HeadlessPrefix(t0: int, ps: seq<Packet>, m: nat)
    requires Headless(t0, ps) && m <= |ps|
    ensures Headless(t0, ps[..m])
  {
    forall n | 0 <= n < m ensures t0 == 0 && Data(ps[..m][..n]) == "" ==> !ps[..m][n].header {
      assert ps[..m][..n] == ps[..n] && ps[..m][n] == ps[n];
    }
  }

  lemma HitsSnoc(t0: int, length: int, ps: seq<Packet>)
    requires ps != []
    ensures Hits(t0, length, ps) <==> Hits(t0, length, ps[..|ps| - 1]) || t0 + |Data(ps)| == length
  {
    if t0 + |Data(ps)| == length { assert ps[..|ps|] == ps; }
    if Hits(t0, length, ps[..|ps| - 1]) { HitsLater(t0, length, ps); }
    if Hits(t0, length, ps) { HitsBefore(t0, length, ps); }
  }

  lemma HitsLater(t0: int, length: int, ps: seq<Packet>)
    requires ps != [] && Hits(t0, length, ps[..|ps| - 1])
    ensures Hits(t0, length, ps)
  {
    var q := ps[..|ps| - 1];
    var n :| 0 < n <= |q| && t0 + |Data(q[..n])| == length;
    assert q[..n] == ps[..n];
  }

  lemma HitsBefore(t0: int, length: int, ps: seq<Packet>)
    requires ps != [] && Hits(t0, length, ps)
    ensures Hits(t0, length, ps[..|ps| - 1]) || t0 + |Data(ps)| == length
  {
    var q := ps[..|ps| - 1];
    var n :| 0 < n <= |ps| && t0 + |Data(ps[..n])| == length;
    if n == |ps| { assert ps[..n] == ps; } else { assert q[..n] == ps[..n]; }
  }

  /** One packet that is no header moves the counter, and flags where the counters meet. */
  lemma PlainStep(d: Download, p: Packet)
    requires d.total == 0 ==> !p.header
    requires 0 <= d.total && d.total + |p.data| < 0x1_0000_0000
    ensures var r, total := Receive(d, p), d.total + |p.data|;
      if total == d.sum then r.finished == d.finished + 1
      else r.finished == d.finished && r.total == total && r.sum == d.sum
  {
  }

  lemma StepNeverUnflags(d: Download, p: Packet)
    ensures Receive(d, p).finished >= d.finished
  {
  }

  /** From any counters, over any run of such packets: as long as the counters have not
      met, they stand where the bytes put them; the end is flagged once they meet. */
  lemma {:induction false} FlagsWhereCountersMeet(d: Download, ps: seq<Packet>)
    requires 0 <= d.total && d.total + |Data(ps)| < 0x1_0000_0000 && Headless(d.total, ps)
    ensures Run(d, ps).finished >= d.finished
    ensures Run(d, ps).finished > d.finished <==> Hits(d.total, d.sum, ps)
    ensures !Hits(d.total, d.sum, ps) ==> Run(d, ps).total == d.total + |Data(ps)| && Run(d, ps).sum == d.sum
    decreases |ps|
  {
    if ps != [] {
      var m := |ps| - 1;
      DataPrefix(ps, m);
      HeadlessPrefix(d.total, ps, m);
      FlagsWhereCountersMeet(d, ps[..m]);
      HitsSnoc(d.total, d.sum, ps);
      MeetOrPass(d, ps);
    }
  }

  lemma MeetOrPass(d: Download, ps: seq<Packet>)
    requires ps != [] && 0 <= d.total && d.total + |Data(ps)| < 0x1_0000_0000 && Headless(d.total, ps)
    requires var q := ps[..|ps| - 1];
      && Run(d, q).finished >= d.finished
      && (Run(d, q).finished > d.finished <==> Hits(d.total, d.sum, q))
      && (!Hits(d.total, d.sum, q) ==> Run(d, q).total == d.total + |Data(q)| && Run(d, q).sum == d.sum)
    ensures Run(d, ps).finished >= d.finished
    ensures Run(d, ps).finished > d.finished
       <==> Hits(d.total, d.sum, ps[..|ps| - 1]) || d.total + |Data(ps)| == d.sum
    ensures !Hits(d.total, d.sum, ps[..|ps| - 1]) && d.total + |Data(ps)| != d.sum ==>
      Run(d, ps).total == d.total + |Data(ps)| && Run(d, ps).sum == d.sum
  {
    var q, p := ps[..|ps| - 1], ps[|ps| - 1];
    var r := Run(d, q);
    RunSnoc(d, ps);
    StepNeverUnflags(r, p);
    if !Hits(d.total, d.sum, q) {
      assert |Data(ps)| == |Data(q)| + |p.data|;
      PlainStep(r, p);
    }
  }

  lemma FirstCounts(p: Packet, length: int)
    requires IsFirst(p, length)
    ensures var d := Receive(IDLE, p);
      if |p.body| == length then d.finished == 1
      else d.total == |p.body| && d.sum == length && d.finished == 0
  {
  }

  lemma {:induction false} RunNeverUnflags(d: Download, ps: seq<Packet>)
    ensures Run(d, ps).finished >= d.finished
    decreases |ps|
  {
    if ps != [] {
      RunNeverUnflags(d, ps[..|ps| - 1]);
      StepNeverUnflags(Run(d, ps[..|ps| - 1]), ps[|ps| - 1]);
    }
  }

  /** Whatever a first packet announces and however many bytes follow, the end is flagged
      exactly when some packet ends where the announced length is reached. */
  lemma UploadFlagsExactly(first: Packet, length: int, ps: seq<Packet>)
    requires IsFirst(first, length) && PlainPackets(first.body, ps)
    requires |first.body| + |Data(ps)| < 0x1_0000_0000
    ensures Run(Receive(IDLE, first), ps).finished >= 1
       <==> exists n | 0 <= n <= |ps| :: |first.body| + |Data(ps[..n])| == length
  {
    var d := Receive(IDLE, first);
    FirstCounts(first, length);
    assert Data(ps[..0]) == "";
    if |first.body| == length {
      RunNeverUnflags(d, ps);
    } else {
      FlagsWhereCountersMeet(d, ps);
    }
  }

  /** A body that goes on past the announced length without a packet boundary there is
      never flagged, however many packets follow. */
  lemma OverrunNeverFlags(first: Packet, length: int, ps: seq<Packet>)
    requires IsFirst(first, length) && PlainPackets(first.body, ps)
    requires |first.body| + |Data(ps)| < 0x1_0000_0000
    requires forall n | 0 <= n <= |ps| :: |first.body| + |Data(ps[..n])| != length
    ensures Run(Receive(IDLE, first), ps).finished == 0
  {
    UploadFlagsExactly(first, length, ps);
    RunNeverUnflags(Receive(IDLE, first), ps);
  }

  /** A header that announces zero bytes is forgotten. One whose number cannot be read
      goes on with the length announced before: its body is written, and the end is flagged
      exactly if it is that long. */
  lemma OtherHeaders(d: Download, p: Packet)
    requires d.total == 0 && p.header && |p.body| <= 0xFFFF
    ensures p.length == Length(0) ==> Receive(d, p) == d.(sum := 0)
    ensures p.length == NoLength ==>
      var r := Receive(d, p);
      && Written(r.ops) == Written(d.ops) + p.body
      && (r.finished == d.finished + 1 <==> |p.body| == d.sum)
      && (|p.body| != d.sum ==> r.total == |p.body| && r.sum == d.sum && r.finished == d.finished)
  {
    if p.length == NoLength {
      EraseOnlyErases(d);
      FirstStored(FirstErase(d), p.body);
      assert Receive(d, p) == Store(FirstErase(d), p.body);
    }
  }

  lemma EraseOnlyErases(d: Download)
    ensures var r := FirstErase(d);
      Written(r.ops) == Written(d.ops) && r.total == d.total && r.sum == d.sum && r.finished == d.finished
  {
    OpsSnoc(d.ops, if d.sum >= 0x10000 then Erase(0xFFFF, 0x10000) else Erase(d.sum, d.sum));
  }

  lemma FirstStored(d: Download, body: string)
    requires d.total == 0 && |body| <= 0xFFFF
    ensures var r := Store(d, body);
      && Written(r.ops) == Written(d.ops) + body
      && (r.finished == d.finished + 1 <==> |body| == d.sum)
      && (|body| != d.sum ==> r.total == |body| && r.sum == d.sum && r.finished == d.finished)
  {
    OpsSnoc(d.ops, Write(body));
  }

  /** Without an upload announced, packets flag an end exactly when the first of them is
      empty. */
  lemma StrayPacketsFlagExactly(ps: seq<Packet>)
    requires PlainPackets("", ps) && |Data(ps)| < 0x1_0000_0000
    ensures Run(IDLE, ps).finished >= 1 <==> ps != [] && ps[0].data == ""
  {
    FlagsWhereCountersMeet(IDLE, ps);
    if ps != [] {
      assert Data(ps[..1]) == Data([]) + ps[0].data;
      forall n | 0 < n <= |ps| ensures |Data(ps[..n])| >= |ps[0].data| {
        DataPrefix(ps[..n], 1);
        assert ps[..n][..1] == ps[..1];
      }
      if ps[0].data == "" { assert 0 + |Data(ps[..1])| == 0; }
    }
  }
}
