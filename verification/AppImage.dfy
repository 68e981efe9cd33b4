/** The firmware image format: what the writer puts together, an independent reader, and
    the proof that the reader gets back what was written. */
module AppImage {
  import opened Arithmetic

  predicate IsBytes(s: seq<int>) {
    forall i | 0 <= i < |s| :: 0 <= s[i] < 256
  }

  predicate IsWord(n: int) {
    0 <= n < 0x1_0000_0000
  }

  // ----- words and padding -----

  /** struct.pack('<I', n). */
  function Le32(n: int): (b: seq<int>)
    requires IsWord(n)
    ensures |b| == 4 && IsBytes(b)
  {
    [n % 256, n / 256 % 256, n / 65536 % 256, n / 16777216]
  }

  function FromLe32(b: seq<int>): (n: int)
    requires |b| == 4
  {
    b[0] + 256 * b[1] + 65536 * b[2] + 16777216 * b[3]
  }

  lemma Le32RoundTrip(n: int)
    requires IsWord(n)
    ensures FromLe32(Le32(n)) == n
  {
    assert n / 256 / 256 == n / 65536 && n / 65536 / 256 == n / 16777216;
  }

  function Zeros(n: nat): (z: seq<int>)
    ensures |z| == n && forall i | 0 <= i < n :: z[i] == 0
  {
    seq(n, _ => 0)
  }

  /** (n + a - 1) & ~(a - 1) for a = 4 and a = 16. */
  function RoundUp4(n: int): (r: int) { (n + 3) / 4 * 4 }

  function RoundUp16(n: int): (r: int) { (n + 15) / 16 * 16 }

  /** Zeros behind the bytes, up to a multiple of four. */
  function Pad4(s: seq<int>): (r: seq<int>)
    decreases if |s| % 4 == 0 then 0 else 4 - |s| % 4
  {
    if |s| % 4 == 0 then s else Pad4(s + [0])
  }

  /** Zeros behind the bytes, up to a multiple of sixteen. */
  function Pad16(s: seq<int>): (r: seq<int>)
    decreases if |s| % 16 == 0 then 0 else 16 - |s| % 16
  {
    if |s| % 16 == 0 then s else Pad16(s + [0])
  }

  lemma Pad4Is(s: seq<int>)
    ensures |s| <= RoundUp4(|s|) == |Pad4(s)| && |Pad4(s)| % 4 == 0
    ensures Pad4(s) == s + Zeros(RoundUp4(|s|) - |s|)
  {
    NextFour(|s|);
    Pad4By(s, RoundUp4(|s|) - |s|);
  }

  lemma Pad16Is(s: seq<int>)
    ensures |s| <= RoundUp16(|s|) == |Pad16(s)| && |Pad16(s)| % 16 == 0
    ensures Pad16(s) == s + Zeros(RoundUp16(|s|) - |s|)
  {
    NextSixteen(|s|);
    Pad16By(s, RoundUp16(|s|) - |s|);
  }

  lemma NextFour(n: nat)
    ensures n <= RoundUp4(n) < n + 4 && RoundUp4(n) % 4 == 0
  {
  }

  lemma NextSixteen(n: nat)
    ensures n <= RoundUp16(n) < n + 16 && RoundUp16(n) % 16 == 0
  {
  }

  lemma {:induction false} Pad4By(s: seq<int>, k: nat)
    requires k < 4 && (|s| + k) % 4 == 0
    ensures Pad4(s) == s + Zeros(k)
    decreases k
  {
    if k == 0 {
      assert s + Zeros(0) == s;
    } else {
      Pad4By(s + [0], k - 1);
      OneZeroMore(s, k);
    }
  }

  lemma {:induction false} Pad16By(s: seq<int>, k: nat)
    requires k < 16 && (|s| + k) % 16 == 0
    ensures Pad16(s) == s + Zeros(k)
    decreases k
  {
    if k == 0 {
      assert s + Zeros(0) == s;
    } else {
      Pad16By(s + [0], k - 1);
      OneZeroMore(s, k);
    }
  }

  lemma OneZeroMore(s: seq<int>, k: nat)
    requires k > 0
    ensures s + [0] + Zeros(k - 1) == s + Zeros(k)
  {
  }

  // ----- the checksum -----

  /** Bitwise exclusive or. */
  function Xor(a: nat, b: nat): (r: nat)
    decreases a + b
  {
    if a == 0 && b == 0 then 0
    else 2 * Xor(a / 2, b / 2) + (if a % 2 == b % 2 then 0 else 1)
  }

  lemma {:induction false} XorZero(a: nat)
    ensures Xor(a, 0) == a
    decreases a
  {
    if a > 0 { XorZero(a / 2); }
  }

  lemma {:induction false} XorInjective(x: nat, a: nat, b: nat)
    requires Xor(x, a) == Xor(x, b)
    ensures a == b
    decreases x + a + b
  {
    if x + a + b > 0 {
      XorHalf(x, a);
      XorHalf(x, b);
      XorInjective(x / 2, a / 2, b / 2);
    }
  }

  lemma XorHalf(x: nat, a: nat)
    ensures Xor(x, a) / 2 == Xor(x / 2, a / 2)
    ensures Xor(x, a) % 2 == if x % 2 == a % 2 then 0 else 1
  {
  }

  /** The `i`-th binary digit. */
  function Bit(x: nat, i: nat): (b: int) {
    if i == 0 then x % 2 else Bit(x / 2, i - 1)
  }

  /** Bit by bit, one exactly where the two differ. */
  lemma {:induction false} XorBits(a: nat, b: nat, i: nat)
    ensures Bit(Xor(a, b), i) == if Bit(a, i) == Bit(b, i) then 0 else 1
    decreases i
  {
    XorHalf(a, b);
    if i > 0 { XorBits(a / 2, b / 2, i - 1); }
  }

  lemma {:induction false} XorInjectiveLeft(x: nat, y: nat, a: nat)
    requires Xor(x, a) == Xor(y, a)
    ensures x == y
    decreases x + y + a
  {
    if x + y + a > 0 {
      XorHalf(x, a);
      XorHalf(y, a);
      XorInjectiveLeft(x / 2, y / 2, a / 2);
    }
  }

  lemma {:induction false} XorByte(a: nat, b: nat, n: nat)
    requires a < Pow2(n) && b < Pow2(n)
    ensures Xor(a, b) < Pow2(n)
    decreases n
  {
    if n > 0 { XorByte(a / 2, b / 2, n - 1); }
  }

  function Pow2(n: nat): (r: nat) {
    if n == 0 then 1 else 2 * Pow2(n - 1)
  }

  /** The running checksum over some bytes. */
  function XorAll(chk: int, s: seq<int>): (r: int)
    requires chk >= 0 && IsBytes(s)
    ensures r >= 0
    decreases |s|
  {
    if s == [] then chk else Xor(XorAll(chk, s[..|s| - 1]), s[|s| - 1])
  }

  lemma {:induction false} XorAllSplits(chk: int, s: seq<int>, t: seq<int>)
    requires chk >= 0 && IsBytes(s) && IsBytes(t)
    ensures IsBytes(s + t) && XorAll(chk, s + t) == XorAll(XorAll(chk, s), t)
    decreases |t|
  {
    if t == [] {
      assert s + t == s;
    } else {
      var m := |t| - 1;
      assert IsBytes(t[..m]);
      XorAllSplits(chk, s, t[..m]);
      assert (s + t)[..|s + t| - 1] == s + t[..m] && (s + t)[|s + t| - 1] == t[m];
    }
  }

  lemma {:induction false} XorAllZeros(chk: int, n: nat)
    requires chk >= 0
    ensures XorAll(chk, Zeros(n)) == chk
  {
    if n > 0 {
      assert Zeros(n)[..n - 1] == Zeros(n - 1);
      XorAllZeros(chk, n - 1);
      XorZero(chk);
    }
  }

  /** Padding does not show in the checksum. */
  lemma XorAllPadded(chk: int, s: seq<int>)
    requires chk >= 0 && IsBytes(s)
    ensures IsBytes(Pad4(s)) && XorAll(chk, Pad4(s)) == XorAll(chk, s)
  {
    Pad4Is(s);
    XorAllSplits(chk, s, Zeros(RoundUp4(|s|) - |s|));
    XorAllZeros(XorAll(chk, s), RoundUp4(|s|) - |s|);
  }

  lemma {:induction false} XorAllByte(chk: int, s: seq<int>)
    requires 0 <= chk < 256 && IsBytes(s)
    ensures 0 <= XorAll(chk, s) < 256
    decreases |s|
  {
    if s != [] {
      XorAllByte(chk, s[..|s| - 1]);
      assert Pow2(8) == 256;
      XorByte(XorAll(chk, s[..|s| - 1]), s[|s| - 1], 8);
    }
  }

  /** The checksum catches every change of one byte. */
  lemma {:induction false} XorAllDetects(chk: int, s: seq<int>, i: nat, b: int)
    requires chk >= 0 && IsBytes(s) && i < |s| && 0 <= b < 256 && b != s[i]
    ensures IsBytes(s[i := b]) && XorAll(chk, s[i := b]) != XorAll(chk, s)
    decreases |s|
  {
    var m := |s| - 1;
    var t := s[i := b];
    if i == m {
      assert t[..m] == s[..m];
      if Xor(XorAll(chk, s[..m]), b) == Xor(XorAll(chk, s[..m]), s[m]) {
        XorInjective(XorAll(chk, s[..m]), b, s[m]);
      }
    } else {
      assert t[..m] == s[..m][i := b];
      XorAllDetects(chk, s[..m], i, b);
      if Xor(XorAll(chk, t[..m]), s[m]) == Xor(XorAll(chk, s[..m]), s[m]) {
        XorInjectiveLeft(XorAll(chk, t[..m]), XorAll(chk, s[..m]), s[m]);
      }
    }
  }

  // ----- what the writer puts together -----

  /** A section with its load address. */
  datatype Section = Section(addr: int, bytes: seq<int>)

  predicate SectionOk(s: Section) {
    IsWord(s.addr) && IsBytes(s.bytes) && |s.bytes| < 0xFFFF_FFF0
  }

  /** What combine_bin appends for a section that is not empty. */
  function Record(addr: int, padded: seq<int>): (r: seq<int>)
    requires IsWord(addr) && IsWord(|padded|)
    ensures |r| == 8 + |padded|
  {
    Le32(addr) + Le32(|padded|) + padded
  }

  function Checked(s: Section): (r: seq<int>)
    requires SectionOk(s)
  {
    Pad4Is(s.bytes);
    Record(s.addr, Pad4(s.bytes))
  }

  /** The eight header bytes. */
  function Header(magic: int, count: int, b2: int, b3: int, entry: int): (h: seq<int>)
    requires IsWord(entry)
    ensures |h| == 8
  {
    [magic, count, b2, b3] + Le32(entry)
  }

  /** The padding in front of the checksum, for a file of `size` bytes. */
  function TailPad(size: int): (n: int)
    ensures 1 <= n <= 16
  {
    16 - (size + 1) % 16
  }

  function AllBytes(ss: seq<Section>): (b: seq<int>)
  {
    if ss == [] then [] else ss[0].bytes + AllBytes(ss[1..])
  }

  predicate AllOk(ss: seq<Section>) {
    forall i | 0 <= i < |ss| :: SectionOk(ss[i])
  }

  /** The records of several sections: an empty section leaves none. */
  function Records(ss: seq<Section>): (r: seq<int>)
    requires AllOk(ss)
  {
    if ss == [] then []
    else if ss[0].bytes == [] then Records(ss[1..])
    else Checked(ss[0]) + Records(ss[1..])
  }

  lemma {:induction false} AllBytesOk(ss: seq<Section>)
    requires AllOk(ss)
    ensures IsBytes(AllBytes(ss))
  {
    if ss != [] { AllBytesOk(ss[1..]); }
  }

  /** Whatever comes behind a header, padding and checksum where the reader looks for them. */
  function Framed(b2: int, b3: int, entry: int, recs: seq<int>, pad: nat, chk: int): (img: seq<int>)
    requires IsWord(entry)
  {
    Header(0xE9, 3, b2, b3, entry) + (recs + Tail(pad, chk))
  }

  function Tail(pad: nat, chk: int): (t: seq<int>)
    ensures |t| == pad + 1
  {
    Zeros(pad) + [chk]
  }

  /** The flash part of an image, behind `before` bytes of file. */
  function FlashPart(before: int, b2: int, b3: int, entry: int, ss: seq<Section>): (r: seq<int>)
    requires IsWord(entry) && AllOk(ss)
  {
    AllBytesOk(ss);
    Framed(b2, b3, entry, Records(ss), TailPad(before + (8 + |Records(ss)|)), XorAll(0xEF, AllBytes(ss)))
  }

  /** The part in front of it for boot mode 2. */
  function IromPart(app: int, entry: int, irom: seq<int>): (r: seq<int>)
    requires IsWord(entry) && |irom| < 0xFFFF_FFF0
  {
    Pad16Is(irom);
    var h := Header(0xEA, 4, 0, app, entry);
    if irom == [] then h else h + Record(0, Pad16(irom))
  }

  // ----- an independent reader -----

  datatype Parsed<T> = Fail | Parsed(value: T)

  datatype Image = Image(b2: int, b3: int, entry: int, sections: seq<Section>)

  /** `n` sections off the front, and what is left. */
  function ReadSections(rest: seq<int>, n: nat): (r: Parsed<(seq<Section>, seq<int>)>)
    ensures r.Parsed? ==> |r.value.0| == n && |r.value.1| <= |rest|
    decreases n
  {
    if n == 0 then Parsed(([], rest))
    else if |rest| < 8 then Fail
    else
      var addr, len := FromLe32(rest[..4]), FromLe32(rest[4..8]);
      if len < 0 || |rest| - 8 < len then Fail
      else
        match ReadSections(rest[8 + len..], n - 1)
        case Fail => Fail
        case Parsed((ss, left)) => Parsed(([Section(addr, rest[8..8 + len])] + ss, left))
  }

  /** Magic, section count, entry point, sections; zeros up to the last byte of a line of
      16; there, the exclusive or of 0xEF and all section bytes; nothing behind it. */
  function Read(img: seq<int>): (r: Parsed<Image>)
    requires IsBytes(img)
  {
    if |img| < 8 || img[0] != 0xE9 then Fail
    else
      match ReadSections(img[8..], img[1])
      case Fail => Fail
      case Parsed((ss, left)) =>
        var pad := 15 - (|img| - |left|) % 16;
        if |left| != pad + 1 || left[..pad] != Zeros(pad) || !IsBytes(AllBytes(ss)) then Fail
        else if left[pad] != XorAll(0xEF, AllBytes(ss)) then Fail
        else Parsed(Image(img[2], img[3], FromLe32(img[4..8]), ss))
  }

  // ----- round trip -----

  function PaddedSections(ss: seq<Section>): (r: seq<Section>)
    ensures |r| == |ss|
  {
    if ss == [] then [] else [Section(ss[0].addr, Pad4(ss[0].bytes))] + PaddedSections(ss[1..])
  }

  predicate NoneEmpty(ss: seq<Section>) {
    forall i | 0 <= i < |ss| :: ss[i].bytes != []
  }

  /** A section in front of what reading the rest gives. */
  function Before(s: Section, r: Parsed<(seq<Section>, seq<int>)>): (t: Parsed<(seq<Section>, seq<int>)>) {
    match r
    case Fail => Fail
    case Parsed((ss, left)) => Parsed(([s] + ss, left))
  }

  lemma ReadsRecord(s: Section, rest: seq<int>, n: nat)
    requires SectionOk(s) && s.bytes != []
    ensures ReadSections(Checked(s) + rest, n + 1) == Before(Section(s.addr, Pad4(s.bytes)), ReadSections(rest, n))
  {
    var p := Pad4(s.bytes);
    Pad4Is(s.bytes);
    var all := Checked(s) + rest;
    assert all[..4] == Le32(s.addr) && all[4..8] == Le32(|p|);
    Le32RoundTrip(s.addr);
    Le32RoundTrip(|p|);
    assert all[8..8 + |p|] == p && all[8 + |p|..] == rest;
  }

  lemma {:induction false} ReadsRecords(ss: seq<Section>, rest: seq<int>)
    requires AllOk(ss) && NoneEmpty(ss)
    ensures ReadSections(Records(ss) + rest, |ss|) == Parsed((PaddedSections(ss), rest))
  {
    if ss == [] {
      assert Records(ss) + rest == rest;
    } else {
      ReadsRecords(ss[1..], rest);
      ReadsRecord(ss[0], Records(ss[1..]) + rest, |ss[1..]|);
      Regroup(Checked(ss[0]), Records(ss[1..]), rest);
    }
  }

  lemma {:induction false} PaddedChecksum(ss: seq<Section>, chk: int)
    requires AllOk(ss) && chk >= 0
    ensures IsBytes(AllBytes(ss)) && IsBytes(AllBytes(PaddedSections(ss)))
    ensures XorAll(chk, AllBytes(PaddedSections(ss))) == XorAll(chk, AllBytes(ss))
    decreases |ss|
  {
    AllBytesOk(ss);
    if ss != [] {
      var p, rest := Pad4(ss[0].bytes), ss[1..];
      assert PaddedSections(ss)[1..] == PaddedSections(rest);
      XorAllPadded(chk, ss[0].bytes);
      AllBytesOk(rest);
      PaddedChecksum(rest, XorAll(chk, ss[0].bytes));
      XorAllSplits(chk, ss[0].bytes, AllBytes(rest));
      XorAllSplits(chk, p, AllBytes(PaddedSections(rest)));
    }
  }

  lemma CheckedAligned(s: Section)
    requires SectionOk(s)
    ensures |Checked(s)| % 4 == 0 && IsBytes(Checked(s))
    ensures |Checked(s)| == 8 + |Pad4(s.bytes)|
  {
    Pad4Is(s.bytes);
    XorAllPadded(0, s.bytes);
    BytesOfThree(Le32(s.addr), Le32(|Pad4(s.bytes)|), Pad4(s.bytes));
    EightMore(|Pad4(s.bytes)|);
  }

  lemma BytesOfThree(a: seq<int>, b: seq<int>, c: seq<int>)
    requires IsBytes(a) && IsBytes(b) && IsBytes(c)
    ensures IsBytes(a + b + c)
  {
  }

  lemma EightMore(n: int)
    requires n % 4 == 0
    ensures (8 + n) % 4 == 0
  {
  }

  lemma JoinBytes(s: seq<int>, t: seq<int>)
    requires IsBytes(s) && IsBytes(t) && |s| % 4 == 0 && |t| % 4 == 0
    ensures IsBytes(s + t) && |s + t| % 4 == 0
  {
  }

  lemma {:induction false} RecordsAligned(ss: seq<Section>)
    requires AllOk(ss)
    ensures |Records(ss)| % 4 == 0 && IsBytes(Records(ss))
  {
    if ss != [] {
      RecordsAligned(ss[1..]);
      if ss[0].bytes != [] {
        CheckedAligned(ss[0]);
        JoinBytes(Checked(ss[0]), Records(ss[1..]));
      }
    }
  }

  /** The reader's verdict once the sections are read. */
  lemma Accepts(img: seq<int>, ss: seq<Section>, pad: nat, chk: int)
    requires IsBytes(img) && |img| >= 8 && img[0] == 0xE9
    requires ReadSections(img[8..], img[1]) == Parsed((ss, Tail(pad, chk)))
    requires pad == 15 - (|img| - pad - 1) % 16
    requires IsBytes(AllBytes(ss)) && chk == XorAll(0xEF, AllBytes(ss))
    ensures Read(img) == Parsed(Image(img[2], img[3], FromLe32(img[4..8]), ss))
  {
    var tail := Tail(pad, chk);
    assert tail[..pad] == Zeros(pad) && tail[pad] == chk;
  }

  lemma TailPadAligns(before: int, size: int)
    requires before % 16 == 0 && size % 4 == 0
    ensures TailPad(before + size) == 15 - size % 16
    ensures (before + size + TailPad(before + size) + 1) % 16 == 0
  {
    var q, r := before / 16 + size / 16, size % 16;
    assert r <= 12;
    Mod16(before + size + 1, q, r + 1);
    Mod16(before + size + TailPad(before + size) + 1, q + 1, 0);
  }

  lemma Mod16(x: int, q: int, r: int)
    requires x == 16 * q + r && 0 <= r < 16
    ensures x % 16 == r
  {
  }

  lemma FramedIsBytes(b2: int, b3: int, entry: int, recs: seq<int>, pad: nat, chk: int)
    requires 0 <= b2 < 256 && 0 <= b3 < 256 && IsWord(entry) && IsBytes(recs) && 0 <= chk < 256
    ensures IsBytes(Framed(b2, b3, entry, recs, pad, chk))
  {
  }

  lemma ReadsFramed(b2: int, b3: int, entry: int, recs: seq<int>, ps: seq<Section>, pad: nat, chk: int)
    requires 0 <= b2 < 256 && 0 <= b3 < 256 && IsWord(entry) && IsBytes(recs) && 0 <= chk < 256
    requires pad == 15 - (8 + |recs|) % 16
    requires |ps| == 3 && ReadSections(recs + Tail(pad, chk), |ps|) == Parsed((ps, Tail(pad, chk)))
    requires IsBytes(AllBytes(ps)) && chk == XorAll(0xEF, AllBytes(ps))
    ensures IsBytes(Framed(b2, b3, entry, recs, pad, chk))
    ensures Read(Framed(b2, b3, entry, recs, pad, chk)) == Parsed(Image(b2, b3, entry, ps))
  {
    var img := Framed(b2, b3, entry, recs, pad, chk);
    FramedIsBytes(b2, b3, entry, recs, pad, chk);
    Le32RoundTrip(entry);
    assert img[8..] == recs + Tail(pad, chk);
    assert img[4..8] == Le32(entry);
    Accepts(img, ps, pad, chk);
  }

  /** The file up to the checksum is a whole number of lines of 16. */
  lemma FlashPartFillsLines(before: int, b2: int, b3: int, entry: int, ss: seq<Section>)
    requires before % 16 == 0 && IsWord(entry) && AllOk(ss)
    ensures (before + |FlashPart(before, b2, b3, entry, ss)|) % 16 == 0
  {
    RecordsAligned(ss);
    TailPadAligns(before, 8 + |Records(ss)|);
  }

  /** What the reader will need to know about the parts of a flash part. */
  lemma FlashPartParts(before: int, b2: int, b3: int, entry: int, ss: seq<Section>)
      returns (recs: seq<int>, pad: nat, chk: int)
    requires before % 16 == 0 && IsWord(entry) && AllOk(ss) && NoneEmpty(ss)
    ensures recs == Records(ss) && FlashPart(before, b2, b3, entry, ss) == Framed(b2, b3, entry, recs, pad, chk)
    ensures IsBytes(recs) && 0 <= chk < 256 && pad == 15 - (8 + |recs|) % 16
    ensures ReadSections(recs + Tail(pad, chk), |ss|) == Parsed((PaddedSections(ss), Tail(pad, chk)))
    ensures IsBytes(AllBytes(PaddedSections(ss))) && chk == XorAll(0xEF, AllBytes(PaddedSections(ss)))
  {
    recs := Records(ss);
    RecordsAligned(ss);
    PaddedChecksum(ss, 0xEF);
    chk := XorAll(0xEF, AllBytes(ss));
    XorAllByte(0xEF, AllBytes(ss));
    TailPadAligns(before, 8 + |recs|);
    pad := TailPad(before + (8 + |recs|));
    ReadsRecords(ss, Tail(pad, chk));
  }

  /** The reader gets back the header fields, every start address and every section,
      zero-padded to a multiple of four, from a flash part at any 16-aligned place. */
  lemma ReaderRoundTrip(before: int, b2: int, b3: int, entry: int, ss: seq<Section>)
    requires before >= 0 && before % 16 == 0 && 0 <= b2 < 256 && 0 <= b3 < 256 && IsWord(entry)
    requires |ss| == 3 && AllOk(ss) && NoneEmpty(ss)
    ensures IsBytes(FlashPart(before, b2, b3, entry, ss))
    ensures Read(FlashPart(before, b2, b3, entry, ss)) == Parsed(Image(b2, b3, entry, PaddedSections(ss)))
  {
    var recs, pad, chk := FlashPartParts(before, b2, b3, entry, ss);
    ReadsFramed(b2, b3, entry, recs, PaddedSections(ss), pad, chk);
  }

  /** The reader gets them back from exactly the 16-aligned places: elsewhere the padding
      does not end where it looks for the checksum. */
  lemma ReadBackExactly(before: int, b2: int, b3: int, entry: int, ss: seq<Section>)
    requires before >= 0 && 0 <= b2 < 256 && 0 <= b3 < 256 && IsWord(entry)
    requires |ss| == 3 && AllOk(ss) && NoneEmpty(ss)
    ensures IsBytes(FlashPart(before, b2, b3, entry, ss))
    ensures Read(FlashPart(before, b2, b3, entry, ss)).Parsed? <==> before % 16 == 0
  {
    if before % 16 == 0 {
      ReaderRoundTrip(before, b2, b3, entry, ss);
    } else {
      var recs, pad, chk := PartsElsewhere(before, b2, b3, entry, ss);
      ReadsElsewhere(b2, b3, entry, recs, PaddedSections(ss), pad, chk);
    }
  }

  lemma PartsElsewhere(before: int, b2: int, b3: int, entry: int, ss: seq<Section>)
      returns (recs: seq<int>, pad: nat, chk: int)
    requires before >= 0 && before % 16 != 0 && IsWord(entry) && AllOk(ss) && NoneEmpty(ss)
    ensures FlashPart(before, b2, b3, entry, ss) == Framed(b2, b3, entry, recs, pad, chk)
    ensures IsBytes(recs) && 0 <= chk < 256 && pad != 15 - (8 + |recs|) % 16
    ensures ReadSections(recs + Tail(pad, chk), |ss|) == Parsed((PaddedSections(ss), Tail(pad, chk)))
  {
    recs := Records(ss);
    RecordsAligned(ss);
    AllBytesOk(ss);
    XorAllByte(0xEF, AllBytes(ss));
    chk := XorAll(0xEF, AllBytes(ss));
    pad := TailPad(before + (8 + |recs|));
    PadElsewhere(before, |recs|);
    ReadsRecords(ss, Tail(pad, chk));
  }

  lemma PadElsewhere(before: int, size: int)
    requires before >= 0 && before % 16 != 0 && size >= 0 && size % 4 == 0
    ensures TailPad(before + (8 + size)) != 15 - (8 + size) % 16
  {
    var x := 8 + size;
    var q, r := OneOfFour(x);
    if TailPad(before + x) == 15 - r {
      assert (before + x + 1) % 16 == r + 1;
      SameRemainder(before, x + 1, r + 1);
    }
  }

  lemma SameRemainder(a: int, b: int, r: int)
    requires (a + b) % 16 == r && b % 16 == r
    ensures a % 16 == 0
  {
    var p, q := (a + b) / 16, b / 16;
    Mod16(a, p - q, 0);
  }

  lemma ReadsElsewhere(b2: int, b3: int, entry: int, recs: seq<int>, ps: seq<Section>, pad: nat, chk: int)
    requires 0 <= b2 < 256 && 0 <= b3 < 256 && IsWord(entry) && IsBytes(recs) && 0 <= chk < 256
    requires pad != 15 - (8 + |recs|) % 16
    requires |ps| == 3 && ReadSections(recs + Tail(pad, chk), |ps|) == Parsed((ps, Tail(pad, chk)))
    ensures IsBytes(Framed(b2, b3, entry, recs, pad, chk))
    ensures Read(Framed(b2, b3, entry, recs, pad, chk)) == Fail
  {
    var img := Framed(b2, b3, entry, recs, pad, chk);
    FramedIsBytes(b2, b3, entry, recs, pad, chk);
    assert img[8..] == recs + Tail(pad, chk);
    RejectsPad(img, ps, pad, chk);
  }

  lemma RejectsPad(img: seq<int>, ps: seq<Section>, pad: nat, chk: int)
    requires IsBytes(img) && |img| >= 8 && img[0] == 0xE9
    requires ReadSections(img[8..], img[1]) == Parsed((ps, Tail(pad, chk)))
    requires pad != 15 - (|img| - pad - 1) % 16
    ensures Read(img) == Fail
  {
  }

  // ----- empty sections -----

  /** How many records the writer leaves: an empty section is left out. */
  function Written(ss: seq<Section>): (n: nat) {
    if ss == [] then 0 else (if ss[0].bytes == [] then 0 else 1) + Written(ss[1..])
  }

  /** The section count in the header, always 3, tells the truth exactly when no section
      is empty. */
  lemma {:induction false} WrittenAtMost(ss: seq<Section>)
    ensures Written(ss) <= |ss| && (Written(ss) == |ss| <==> NoneEmpty(ss))
  {
    if ss != [] {
      WrittenAtMost(ss[1..]);
      assert NoneEmpty(ss) <==> ss[0].bytes != [] && NoneEmpty(ss[1..]);
    }
  }

  /** The sections that are not empty, in order. */
  function Kept(ss: seq<Section>): (r: seq<Section>) {
    if ss == [] then []
    else if ss[0].bytes == [] then Kept(ss[1..])
    else [ss[0]] + Kept(ss[1..])
  }

  /** The bytes of all sections with their padding. */
  function PaddedSize(ss: seq<Section>): (n: int) {
    if ss == [] then 0 else |Pad4(ss[0].bytes)| + PaddedSize(ss[1..])
  }

  /** Empty sections leave no trace in the file. */
  lemma {:induction false} KeptIs(ss: seq<Section>)
    requires AllOk(ss)
    ensures AllOk(Kept(ss)) && NoneEmpty(Kept(ss)) && |Kept(ss)| == Written(ss)
    ensures Records(Kept(ss)) == Records(ss) && AllBytes(Kept(ss)) == AllBytes(ss)
    ensures |Records(ss)| == 8 * Written(ss) + PaddedSize(ss)
  {
    if ss != [] {
      KeptIs(ss[1..]);
      Pad4Is(ss[0].bytes);
      if ss[0].bytes != [] { assert Kept(ss)[1..] == Kept(ss[1..]); }
      else { assert Pad4(ss[0].bytes) == []; }
    }
  }

  /** Reading `m` sections more. */
  function Onward(ps: seq<Section>, r: Parsed<(seq<Section>, seq<int>)>): (t: Parsed<(seq<Section>, seq<int>)>) {
    match r
    case Fail => Fail
    case Parsed((ss, left)) => Parsed((ps + ss, left))
  }

  lemma {:induction false} ReadsOnward(rest: seq<int>, n: nat, m: nat, ps: seq<Section>, left: seq<int>)
    requires ReadSections(rest, n) == Parsed((ps, left))
    ensures ReadSections(rest, n + m) == Onward(ps, ReadSections(left, m))
  {
    if n == 0 {
      assert ps == [];
      OnwardNothing(ReadSections(left, m));
    } else {
      var s, tail := FirstOfMany(rest, n - 1, ps, left);
      ReadsOnward(tail, n - 1, m, ps[1..], left);
      SameFirst(rest, n - 1 + m, s, tail);
      OnwardJoins(s, ps[1..], ReadSections(left, m));
    }
  }

  lemma FirstOfMany(rest: seq<int>, n: nat, ps: seq<Section>, left: seq<int>) returns (s: Section, tail: seq<int>)
    requires ReadSections(rest, n + 1) == Parsed((ps, left))
    ensures |ps| == n + 1 && ps == [s] + ps[1..] && Opens(rest, s, tail)
    ensures ReadSections(tail, n) == Parsed((ps[1..], left))
  {
    var len := FromLe32(rest[4..8]);
    s, tail := Section(FromLe32(rest[..4]), rest[8..8 + len]), rest[8 + len..];
    var qs := ReadSections(tail, n).value.0;
    assert ps == [s] + qs && ([s] + qs)[1..] == qs;
  }

  /** A section can be read off the front. */
  predicate Opens(rest: seq<int>, s: Section, tail: seq<int>) {
    && |rest| >= 8
    && var len := FromLe32(rest[4..8]);
      0 <= len <= |rest| - 8 && s == Section(FromLe32(rest[..4]), rest[8..8 + len]) && tail == rest[8 + len..]
  }

  lemma SameFirst(rest: seq<int>, m: nat, s: Section, tail: seq<int>)
    requires Opens(rest, s, tail)
    ensures ReadSections(rest, m + 1) == Before(s, ReadSections(tail, m))
  {
  }

  lemma OnwardNothing(r: Parsed<(seq<Section>, seq<int>)>)
    ensures Onward([], r) == r
  {
    if r.Parsed? { assert [] + r.value.0 == r.value.0; }
  }

  lemma OnwardJoins(s: Section, ps: seq<Section>, r: Parsed<(seq<Section>, seq<int>)>)
    ensures Before(s, Onward(ps, r)) == Onward([s] + ps, r)
  {
    if r.Parsed? { assert [s] + (ps + r.value.0) == [s] + ps + r.value.0; }
  }

  /** Eight zeros of padding read as a section at address 0 without bytes. */
  lemma PhantomRead(pad: nat, chk: int, n: nat)
    requires pad >= 8
    ensures ReadSections(Tail(pad, chk), n + 1) == Before(Section(0, []), ReadSections(Tail(pad - 8, chk), n))
  {
    PhantomOpens(pad, chk);
    SameFirst(Tail(pad, chk), n, Section(0, []), Tail(pad - 8, chk));
  }

  lemma PhantomOpens(pad: nat, chk: int)
    requires pad >= 8
    ensures Opens(Tail(pad, chk), Section(0, []), Tail(pad - 8, chk))
  {
    var tail := Tail(pad, chk);
    assert tail[..4] == tail[4..8] == [0, 0, 0, 0];
    assert tail[8..] == Tail(pad - 8, chk) && tail[8..8 + 0] == [];
  }

  /** Less than eight zeros and the checksum are no section, or leave no checksum. */
  lemma ShortTailRead(pad: nat, chk: int, n: nat)
    requires pad < 8 && 0 <= chk < 256
    ensures NoTail(ReadSections(Tail(pad, chk), n + 1))
  {
    var tail := Tail(pad, chk);
    if pad == 7 {
      assert tail[4..8] == [0, 0, 0, chk];
      if chk == 0 { assert tail[8..] == []; }
    }
  }

  predicate NoTail(r: Parsed<(seq<Section>, seq<int>)>) {
    r.Parsed? ==> r.value.1 == []
  }

  /** One section more out of the padding: there are exactly the phantom and the rest of
      the padding if there are eight zeros. Two more are never there. */
  lemma TailRead(pad: nat, chk: int, m: nat)
    requires pad <= 15 && 0 <= chk < 256 && m > 0
    ensures pad >= 8 && m == 1 ==>
      ReadSections(Tail(pad, chk), m) == Parsed(([Section(0, [])], Tail(pad - 8, chk)))
    ensures pad < 8 || m > 1 ==> NoTail(ReadSections(Tail(pad, chk), m))
  {
    if pad < 8 {
      ShortTailRead(pad, chk, m - 1);
    } else {
      PhantomRead(pad, chk, m - 1);
      assert [Section(0, [])] + [] == [Section(0, [])];
      if m > 1 { ShortTailRead(pad - 8, chk, m - 2); }
    }
  }

  /** The reader's verdict without anything left behind the sections. */
  lemma Rejects(img: seq<int>)
    requires IsBytes(img) && |img| >= 8 && img[0] == 0xE9 && NoTail(ReadSections(img[8..], img[1]))
    ensures Read(img) == Fail
  {
  }

  lemma {:induction false} AllBytesPhantom(ps: seq<Section>)
    ensures AllBytes(ps + [Section(0, [])]) == AllBytes(ps)
  {
    if ps == [] {
      assert ps + [Section(0, [])] == [Section(0, [])];
    } else {
      AllBytesPhantom(ps[1..]);
      assert (ps + [Section(0, [])])[1..] == ps[1..] + [Section(0, [])];
    }
  }

  /** The reader on two sections and padding with eight zeros or more. */
  lemma AcceptsPhantom(img: seq<int>, ps: seq<Section>, pad: nat, chk: int)
    requires IsBytes(img) && |img| >= 8 && img[0] == 0xE9 && 8 <= pad <= 15
    requires ReadSections(img[8..], img[1]) == Parsed((ps + [Section(0, [])], Tail(pad - 8, chk)))
    requires pad == 15 - (|img| - pad - 1) % 16
    requires IsBytes(AllBytes(ps)) && chk == XorAll(0xEF, AllBytes(ps))
    ensures Read(img) == Parsed(Image(img[2], img[3], FromLe32(img[4..8]), ps + [Section(0, [])]))
  {
    AllBytesPhantom(ps);
    var q := (|img| - pad - 1) / 16;
    Mod16(|img| - (pad - 8) - 1, q, (15 - pad) + 8);
    Accepts(img, ps + [Section(0, [])], pad - 8, chk);
  }

  /** What becomes of a framed image with fewer than three records. */
  lemma ReadsFewer(b2: int, b3: int, entry: int, recs: seq<int>, ps: seq<Section>, pad: nat, chk: int)
    requires 0 <= b2 < 256 && 0 <= b3 < 256 && IsWord(entry) && IsBytes(recs) && 0 <= chk < 256
    requires pad == 15 - (8 + |recs|) % 16
    requires |ps| < 3 && ReadSections(recs + Tail(pad, chk), |ps|) == Parsed((ps, Tail(pad, chk)))
    requires IsBytes(AllBytes(ps)) && chk == XorAll(0xEF, AllBytes(ps))
    ensures IsBytes(Framed(b2, b3, entry, recs, pad, chk))
    ensures Read(Framed(b2, b3, entry, recs, pad, chk))
         == if |ps| == 2 && pad >= 8 then Parsed(Image(b2, b3, entry, ps + [Section(0, [])])) else Fail
  {
    var img := Framed(b2, b3, entry, recs, pad, chk);
    FramedIsBytes(b2, b3, entry, recs, pad, chk);
    Le32RoundTrip(entry);
    assert img[8..] == recs + Tail(pad, chk) && img[4..8] == Le32(entry);
    ReadsOnward(recs + Tail(pad, chk), |ps|, 3 - |ps|, ps, Tail(pad, chk));
    TailRead(pad, chk, 3 - |ps|);
    if |ps| == 2 && pad >= 8 {
      AcceptsPhantom(img, ps, pad, chk);
    } else {
      Rejects(img);
    }
  }

  /** Two sections that, padded, leave eight zeros or more in front of the checksum. */
  predicate LeavesPhantom(ss: seq<Section>) {
    Written(ss) == 2 && (PaddedSize(ss) % 16 == 8 || PaddedSize(ss) % 16 == 12)
  }

  /** What the reader makes of any three sections: all of them if none is empty; with one
      empty section, if the padding is long enough, the other two and a third one at
      address 0; nothing in all other cases. */
  lemma ReaderOnAnySections(before: int, b2: int, b3: int, entry: int, ss: seq<Section>)
    requires before >= 0 && before % 16 == 0 && 0 <= b2 < 256 && 0 <= b3 < 256 && IsWord(entry)
    requires |ss| == 3 && AllOk(ss)
    ensures IsBytes(FlashPart(before, b2, b3, entry, ss))
    ensures Read(FlashPart(before, b2, b3, entry, ss)) ==
      if NoneEmpty(ss) then Parsed(Image(b2, b3, entry, PaddedSections(ss)))
      else if LeavesPhantom(ss) then Parsed(Image(b2, b3, entry, PaddedSections(Kept(ss)) + [Section(0, [])]))
      else Fail
  {
    WrittenAtMost(ss);
    KeptIs(ss);
    if NoneEmpty(ss) {
      ReaderRoundTrip(before, b2, b3, entry, ss);
    } else {
      OnlyKeptCount(before, b2, b3, entry, ss);
      var pad := ReaderOnFewer(before, b2, b3, entry, Kept(ss));
      PhantomExactly(ss, |Records(ss)|, pad);
    }
  }

  lemma OnlyKeptCount(before: int, b2: int, b3: int, entry: int, ss: seq<Section>)
    requires IsWord(entry) && AllOk(ss)
    ensures AllOk(Kept(ss)) && FlashPart(before, b2, b3, entry, ss) == FlashPart(before, b2, b3, entry, Kept(ss))
  {
    KeptIs(ss);
    AllBytesOk(ss);
  }

  lemma ReaderOnFewer(before: int, b2: int, b3: int, entry: int, ss: seq<Section>) returns (pad: nat)
    requires before >= 0 && before % 16 == 0 && 0 <= b2 < 256 && 0 <= b3 < 256 && IsWord(entry)
    requires |ss| < 3 && AllOk(ss) && NoneEmpty(ss)
    ensures pad == 15 - (8 + |Records(ss)|) % 16 && IsBytes(FlashPart(before, b2, b3, entry, ss))
    ensures Read(FlashPart(before, b2, b3, entry, ss)) ==
      if |ss| == 2 && pad >= 8 then Parsed(Image(b2, b3, entry, PaddedSections(ss) + [Section(0, [])])) else Fail
  {
    var recs, p, chk := FlashPartParts(before, b2, b3, entry, ss);
    pad := p;
    ReadsFewer(b2, b3, entry, recs, PaddedSections(ss), pad, chk);
  }

  lemma PhantomExactly(ss: seq<Section>, size: int, pad: nat)
    requires AllOk(ss) && size == |Records(ss)| && pad == 15 - (8 + size) % 16
    ensures LeavesPhantom(ss) <==> Written(ss) == 2 && pad >= 8
  {
    KeptIs(ss);
    RecordsAligned(ss);
    if Written(ss) == 2 {
      FourOfSixteen(PaddedSize(ss));
      LongPadding(PaddedSize(ss), pad);
    }
  }

  lemma FourOfSixteen(size: int)
    requires (16 + size) % 4 == 0
    ensures size % 4 == 0
  {
  }

  lemma LongPadding(size: int, pad: int)
    requires size % 4 == 0 && pad == 15 - (8 + (16 + size)) % 16
    ensures pad >= 8 <==> size % 16 == 8 || size % 16 == 12
  {
    var q, r := OneOfFour(size);
    if r < 8 { Mod16(8 + (16 + size), q + 1, r + 8); } else { Mod16(8 + (16 + size), q + 2, r - 8); }
  }

  lemma OneOfFour(size: int) returns (q: int, r: int)
    requires size % 4 == 0
    ensures size == 16 * q + r && size % 16 == r && (r == 0 || r == 4 || r == 8 || r == 12)
  {
    q, r := size / 16, size % 16;
    assert size == 4 * (size / 4);
  }

  /** An image is readable exactly when no section is empty, or one is and the other two,
      padded, come to 8 or 12 modulo 16. */
  lemma ReadableExactly(before: int, b2: int, b3: int, entry: int, ss: seq<Section>)
    requires before >= 0 && before % 16 == 0 && 0 <= b2 < 256 && 0 <= b3 < 256 && IsWord(entry)
    requires |ss| == 3 && AllOk(ss)
    ensures IsBytes(FlashPart(before, b2, b3, entry, ss))
    ensures Read(FlashPart(before, b2, b3, entry, ss)).Parsed? <==> NoneEmpty(ss) || LeavesPhantom(ss)
  {
    ReaderOnAnySections(before, b2, b3, entry, ss);
  }

  /** The sections read are those written exactly when none is empty, or the last one is,
      its address is 0, and the padding happens to supply it. */
  lemma RoundTripExactly(before: int, b2: int, b3: int, entry: int, ss: seq<Section>)
    requires before >= 0 && before % 16 == 0 && 0 <= b2 < 256 && 0 <= b3 < 256 && IsWord(entry)
    requires |ss| == 3 && AllOk(ss)
    ensures IsBytes(FlashPart(before, b2, b3, entry, ss))
    ensures Read(FlashPart(before, b2, b3, entry, ss)) == Parsed(Image(b2, b3, entry, PaddedSections(ss)))
       <==> NoneEmpty(ss) || (LeavesPhantom(ss) && ss[2] == Section(0, []))
  {
    ReaderOnAnySections(before, b2, b3, entry, ss);
    WrittenAtMost(ss);
    if !NoneEmpty(ss) && LeavesPhantom(ss) { PhantomIsThird(ss); }
  }

  lemma PhantomIsThird(ss: seq<Section>)
    requires |ss| == 3 && Written(ss) == 2
    ensures PaddedSections(Kept(ss)) + [Section(0, [])] == PaddedSections(ss) <==> ss[2] == Section(0, [])
  {
    Pad4Is(ss[2].bytes);
    var ps := PaddedSections(ss);
    PaddedAt(ss, 2);
    KeptLength(ss);
    if ss[2].bytes != [] {
      assert (PaddedSections(Kept(ss)) + [Section(0, [])])[2].bytes == [];
    } else {
      WrittenAtMost(ss[..2]);
      WrittenSnoc(ss[..2], ss[2]);
      assert ss == ss[..2] + [ss[2]];
      PaddedSnoc(ss[..2], ss[2]);
    }
  }

  lemma {:induction false} KeptLength(ss: seq<Section>)
    ensures |Kept(ss)| == Written(ss)
  {
    if ss != [] { KeptLength(ss[1..]); }
  }

  lemma {:induction false} WrittenSnoc(ss: seq<Section>, s: Section)
    ensures Written(ss + [s]) == Written(ss) + Written([s])
  {
    if ss == [] {
      assert ss + [s] == [s];
    } else {
      WrittenSnoc(ss[1..], s);
      assert (ss + [s])[1..] == ss[1..] + [s];
    }
  }

  lemma {:induction false} PaddedSnoc(ss: seq<Section>, s: Section)
    requires NoneEmpty(ss) && s.bytes == []
    ensures PaddedSections(ss + [s]) == PaddedSections(ss) + [Section(s.addr, [])]
    ensures Kept(ss + [s]) == ss
  {
    var all := ss + [s];
    if ss == [] {
      assert all == [s];
    } else {
      var rest := ss[1..];
      PaddedSnoc(rest, s);
      assert all[0] == ss[0] && all[1..] == rest + [s];
      Regroup([Section(ss[0].addr, Pad4(ss[0].bytes))], PaddedSections(rest), [Section(s.addr, [])]);
      assert [ss[0]] + rest == ss;
    }
  }

  lemma {:induction false} PaddedAt(ss: seq<Section>, i: nat)
    requires i < |ss|
    ensures PaddedSections(ss)[i] == Section(ss[i].addr, Pad4(ss[i].bytes))
  {
    if i > 0 { PaddedAt(ss[1..], i - 1); }
  }

  /** Behind the irom part the flash part is 16-aligned exactly when there is irom text. */
  lemma IromAlignsExactly(app: int, entry: int, irom: seq<int>)
    requires IsWord(entry) && |irom| < 0xFFFF_FFF0
    ensures |IromPart(app, entry, irom)| % 16 == 0 <==> irom != []
  {
    Pad16Is(irom);
    if irom == [] {
      assert |IromPart(app, entry, irom)| == 8;
    } else {
      assert |IromPart(app, entry, irom)| == 16 + |Pad16(irom)|;
      Mod16(16 + |Pad16(irom)|, 1 + |Pad16(irom)| / 16, 0);
    }
  }
}
