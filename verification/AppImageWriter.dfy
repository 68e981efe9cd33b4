/** gen_appbin: the image file grows by appends while the checksum and the block count
    run along, and ends up as AppImage describes it. */
module AppImageWriter {
  import opened AppImage

  class Writer {
    var file: seq<int>     // the destination file
    var chkSum: int        // chk_sum
    var blocks: nat

    /** A new destination file; chk_sum starts at CHECKSUM_INIT. */
    constructor ()
      ensures file == [] && chkSum == 0xEF && blocks == 0
    {
      file, chkSum, blocks := [], 0xEF, 0;
    }

    /** write_file. */
    method WriteFile(data: seq<int>)
      modifies this`file
      ensures file == old(file) + data
    {
      file := file + data;
    }

    /** The checksum loops of combine_bin. */
    method AddToChecksum(data: seq<int>)
      requires chkSum >= 0 && IsBytes(data)
      modifies this`chkSum
      ensures chkSum == XorAll(old(chkSum), data)
    {
      for loop := 0 to |data|
        invariant chkSum >= 0 && chkSum == XorAll(old(chkSum), data[..loop])
      {
        assert data[..loop + 1][..loop] == data[..loop];
        chkSum := Xor(chkSum, data[loop]);
      }
      assert data[..|data|] == data;
    }

    /** Bytes of a section, or padding, with the checksum running along if asked for. */
    method WriteChecked(data: seq<int>, needChk: bool)
      requires chkSum >= 0 && IsBytes(data)
      modifies this`file, this`chkSum
      ensures file == old(file) + data
      ensures chkSum == if needChk then XorAll(old(chkSum), data) else old(chkSum)
    {
      WriteFile(data);
      if needChk {
        AddToChecksum(data);
      }
    }

    /** combine_bin. */
    method CombineBin(section: seq<int>, start: int, needChk: bool)
      requires IsWord(start) && IsBytes(section) && |section| < 0xFFFF_FFF0 && chkSum >= 0
      modifies this
      ensures section == [] ==> file == old(file) && chkSum == old(chkSum) && blocks == old(blocks)
      ensures section != [] ==>
        var padded := if needChk then Pad4(section) else Pad16(section);
        IsWord(|padded|) && file == old(file) + Record(start, padded)
      ensures section != [] ==> blocks == old(blocks) + 1
      ensures section != [] ==> chkSum == if needChk then XorAll(old(chkSum), section) else old(chkSum)
    {
      if |section| != 0 {
        Pad4Is(section);
        Pad16Is(section);
        var tmpLen := if needChk then RoundUp4(|section|) else RoundUp16(|section|);
        ghost var padded := if needChk then Pad4(section) else Pad16(section);
        WriteFile(Le32(start) + Le32(tmpLen));
        WriteChecked(section, needChk);
        tmpLen := tmpLen - |section|;
        assert padded == section + Zeros(tmpLen);
        if tmpLen != 0 {
          XorAllZeros(chkSum, tmpLen);
          WriteChecked(Zeros(tmpLen), needChk);
        }
        blocks := blocks + 1;
      }
    }

    /** With `i` of the sections combined, the rest would complete `all`, `sum` and `count`. */
    ghost predicate Combined(ss: seq<Section>, i: nat, all: seq<int>, sum: int, count: nat)
      requires i <= |ss| && AllOk(ss)
      reads this
    {
      && chkSum >= 0 && blocks + Written(ss[i..]) == count && file + Records(ss[i..]) == all
      && IsBytes(AllBytes(ss[i..])) && XorAll(chkSum, AllBytes(ss[i..])) == sum
    }

    /** combine_bin for the next section of an image. */
    method CombineNext(ss: seq<Section>, i: nat, ghost all: seq<int>, ghost sum: int, ghost count: nat)
      requires i < |ss| && AllOk(ss) && Combined(ss, i, all, sum, count)
      modifies this
      ensures Combined(ss, i + 1, all, sum, count)
    {
      assert ss[i..][1..] == ss[i + 1..] && ss[i..][0] == ss[i];
      AllBytesOk(ss[i + 1..]);
      XorAllSplits(chkSum, ss[i].bytes, AllBytes(ss[i + 1..]));
      CombineBin(ss[i].bytes, ss[i].addr, true);
    }

    /** Padding and checksum behind the sections. */
    method Finish()
      requires 0 <= chkSum < 256
      modifies this`file
      ensures file == old(file) + Tail(TailPad(|old(file)|), chkSum)
    {
      var sumSize := |file| + 1;
      sumSize := 16 - sumSize % 16;
      if sumSize != 0 {
        WriteFile(Zeros(sumSize));
      }
      WriteFile([chkSum % 256]);
    }

    /** The irom part of boot mode 2. */
    method WriteIrom(app: int, entry: int, irom: seq<int>)
      requires IsWord(entry) && IsBytes(irom) && |irom| < 0xFFFF_FFF0 && chkSum >= 0
      modifies this
      ensures file == old(file) + IromPart(app, entry, irom) && chkSum == old(chkSum)
      ensures blocks == old(blocks) + (if irom == [] then 0 else 1)
    {
      WriteFile(Header(0xEA, 4, 0, app, entry));
      CombineBin(irom, 0, false);
      Pad16Is(irom);
    }

    /** The three combine_bin calls of the flash part. */
    method WriteSections(ss: seq<Section>)
      requires chkSum == 0xEF && |ss| == 3 && AllOk(ss) && IsBytes(AllBytes(ss))
      modifies this
      ensures file == old(file) + Records(ss) && chkSum == XorAll(0xEF, AllBytes(ss))
      ensures blocks == old(blocks) + Written(ss)
    {
      assert ss[0..] == ss;
      ghost var all, sum, count := file + Records(ss), XorAll(0xEF, AllBytes(ss)), blocks + Written(ss);
      CombineNext(ss, 0, all, sum, count);
      CombineNext(ss, 1, all, sum, count);
      CombineNext(ss, 2, all, sum, count);
      assert ss[3..] == [] && file + [] == file;
    }

    /** The flash part: header, the three sections, padding and checksum. */
    method WriteFlash(b2: int, b3: int, entry: int, ss: seq<Section>)
      requires chkSum == 0xEF && IsWord(entry) && |ss| == 3 && AllOk(ss)
      modifies this
      ensures file == old(file) + FlashPart(|old(file)|, b2, b3, entry, ss)
      ensures blocks == old(blocks) + Written(ss)
    {
      FlashJoins(file, b2, b3, entry, ss);
      WriteFile(Header(0xE9, 3, b2, b3, entry));
      WriteSections(ss);
      Finish();
    }

    /** gen_appbin up to the checksum, on a new file. */
    method GenAppbin(bootMode: char, b2: int, b3: int, app: int, entry: int, irom: seq<int>, ss: seq<Section>)
      requires file == [] && chkSum == 0xEF && blocks == 0
      requires IsWord(entry) && IsBytes(irom) && |irom| < 0xFFFF_FFF0 && |ss| == 3 && AllOk(ss)
      modifies this
      ensures file == FullImage(bootMode, b2, b3, app, entry, irom, ss)
      ensures blocks == Written(ss) + (if bootMode == '2' && irom != [] then 1 else 0)
    {
      ghost var front := if bootMode == '2' then IromPart(app, entry, irom) else [];
      if bootMode == '2' {
        WriteIrom(app, entry, irom);
      }
      assert file == front;
      if bootMode == '1' {
        WriteFlash(0, app, entry, ss);
      } else {
        WriteFlash(b2, b3, entry, ss);
      }
    }
  }

  /** The whole file up to the checksum, in the three boot modes. */
  function FullImage(bootMode: char, b2: int, b3: int, app: int, entry: int,
                     irom: seq<int>, ss: seq<Section>): (f: seq<int>)
    requires IsWord(entry) && |irom| < 0xFFFF_FFF0 && AllOk(ss)
  {
    var front := if bootMode == '2' then IromPart(app, entry, irom) else [];
    front + if bootMode == '1' then FlashPart(|front|, 0, app, entry, ss) else FlashPart(|front|, b2, b3, entry, ss)
  }

  /** A reader of the first `at` bytes of a file in boot mode 2: the header with the magic
      0xEA, and, if there is irom text, one record at address 0 of as many bytes as the next
      multiple of 16, which are the text and zeros behind it. */
  predicate CarriesIrom(f: seq<int>, at: nat, app: int, entry: int, irom: seq<int>) {
    && 8 <= at <= |f|
    && f[0] == 0xEA && f[1] == 4 && f[2] == 0 && f[3] == app && FromLe32(f[4..8]) == entry
    && if irom == [] then at == 8 else
         && |irom| <= at - 16 < |irom| + 16 && at % 16 == 0
         && FromLe32(f[8..12]) == 0 && FromLe32(f[12..16]) == at - 16
         && f[16..16 + |irom|] == irom && forall k | 16 + |irom| <= k < at :: f[k] == 0
  }

  lemma IromIsCarried(app: int, entry: int, irom: seq<int>, flash: seq<int>)
    requires IsWord(entry) && |irom| < 0xFFFF_FFF0
    ensures CarriesIrom(IromPart(app, entry, irom) + flash, |IromPart(app, entry, irom)|, app, entry, irom)
  {
    Le32RoundTrip(entry);
    var h := Header(0xEA, 4, 0, app, entry);
    assert h[4..8] == Le32(entry);
    assert (IromPart(app, entry, irom) + flash)[..8] == h;
    HeaderRead(IromPart(app, entry, irom) + flash, h);
    if irom != [] { IromRecordRead(app, entry, irom, flash); }
  }

  lemma HeaderRead(f: seq<int>, h: seq<int>)
    requires |f| >= 8 && f[..8] == h
    ensures f[4..8] == h[4..8] && f[0] == h[0] && f[1] == h[1] && f[2] == h[2] && f[3] == h[3]
  {
  }

  lemma IromRecordRead(app: int, entry: int, irom: seq<int>, flash: seq<int>)
    requires IsWord(entry) && 0 < |irom| < 0xFFFF_FFF0
    ensures var f, at := IromPart(app, entry, irom) + flash, |IromPart(app, entry, irom)|;
      && |irom| <= at - 16 < |irom| + 16 && at % 16 == 0
      && FromLe32(f[8..12]) == 0 && FromLe32(f[12..16]) == at - 16
      && f[16..16 + |irom|] == irom && forall k | 16 + |irom| <= k < at :: f[k] == 0
  {
    Pad16Is(irom);
    NextSixteen(|irom|);
    var n := RoundUp16(|irom|);
    Le32RoundTrip(0);
    Le32RoundTrip(n);
    FiveParts(Header(0xEA, 4, 0, app, entry), Le32(0), Le32(n), irom, Zeros(n - |irom|), flash);
  }

  lemma FiveParts(h: seq<int>, addr: seq<int>, len: seq<int>, text: seq<int>, zeros: seq<int>, rest: seq<int>)
    requires |h| == 8 && |addr| == |len| == 4 && forall k | 0 <= k < |zeros| :: zeros[k] == 0
    ensures var f, n := h + (addr + len + (text + zeros)) + rest, 16 + |text|;
      && f[8..12] == addr && f[12..16] == len && f[16..n] == text
      && forall k | n <= k < n + |zeros| :: f[k] == 0
  {
    var f := h + (addr + len + (text + zeros)) + rest;
    assert f == h + addr + len + text + zeros + rest;
  }

  /** What GenAppbin writes can be read back. In boot mode 2 the file begins with the irom
      text; in every mode the flash part starts at a 16-aligned place, and the reader gets
      the entry point and the padded sections. */
  lemma FullImageReads(bootMode: char, b2: int, b3: int, app: int, entry: int, irom: seq<int>, ss: seq<Section>)
      returns (at: nat)
    requires 0 <= b2 < 256 && 0 <= b3 < 256 && 0 <= app < 256 && IsWord(entry) && |irom| < 0xFFFF_FFF0
    requires |ss| == 3 && AllOk(ss) && NoneEmpty(ss) && (bootMode == '2' ==> irom != [])
    ensures var f := FullImage(bootMode, b2, b3, app, entry, irom, ss);
      && (if bootMode == '2' then CarriesIrom(f, at, app, entry, irom) else at == 0)
      && at <= |f| && at % 16 == 0 && IsBytes(f[at..])
      && Read(f[at..]) == Parsed(Image(if bootMode == '1' then 0 else b2, if bootMode == '1' then app else b3,
                                       entry, PaddedSections(ss)))
  {
    var front := if bootMode == '2' then IromPart(app, entry, irom) else [];
    at := |front|;
    IromAlignsExactly(app, entry, irom);
    var c2, c3 := if bootMode == '1' then 0 else b2, if bootMode == '1' then app else b3;
    ReaderRoundTrip(at, c2, c3, entry, ss);
    var flash := FlashPart(at, c2, c3, entry, ss);
    Behind(front, flash);
    IromIsCarried(app, entry, irom, flash);
  }

  /** In boot mode 2 the file begins with the irom text, and the flash part behind it is
      read back exactly when there is some. */
  lemma BehindIromExactly(b2: int, b3: int, app: int, entry: int, irom: seq<int>, ss: seq<Section>)
      returns (at: nat)
    requires 0 <= b2 < 256 && 0 <= b3 < 256 && IsWord(entry) && |irom| < 0xFFFF_FFF0
    requires |ss| == 3 && AllOk(ss) && NoneEmpty(ss)
    ensures var f := FullImage('2', b2, b3, app, entry, irom, ss);
      CarriesIrom(f, at, app, entry, irom) && IsBytes(f[at..]) && (Read(f[at..]).Parsed? <==> irom != [])
  {
    var front := IromPart(app, entry, irom);
    at := |front|;
    IromAlignsExactly(app, entry, irom);
    ReadBackExactly(at, b2, b3, entry, ss);
    Behind(front, FlashPart(at, b2, b3, entry, ss));
    IromIsCarried(app, entry, irom, FlashPart(at, b2, b3, entry, ss));
  }

  lemma Behind(front: seq<int>, flash: seq<int>)
    ensures (front + flash)[|front|..] == flash
  {
  }

  /** The appends in their order make up the flash part. */
  lemma FlashJoins(front: seq<int>, b2: int, b3: int, entry: int, ss: seq<Section>)
    requires IsWord(entry) && AllOk(ss)
    ensures IsBytes(AllBytes(ss)) && 0 <= XorAll(0xEF, AllBytes(ss)) < 256
    ensures var body := front + Header(0xE9, 3, b2, b3, entry) + Records(ss);
      body + Tail(TailPad(|body|), XorAll(0xEF, AllBytes(ss))) == front + FlashPart(|front|, b2, b3, entry, ss)
  {
    AllBytesOk(ss);
    XorAllByte(0xEF, AllBytes(ss));
    var h, recs := Header(0xE9, 3, b2, b3, entry), Records(ss);
    FrameJoins(front, h, recs, Tail(TailPad(|front| + (8 + |recs|)), XorAll(0xEF, AllBytes(ss))));
  }

  lemma FrameJoins(front: seq<int>, h: seq<int>, recs: seq<int>, tail: seq<int>)
    ensures front + h + recs + tail == front + (h + (recs + tail))
  {
  }

  /** The last byte of the file is 0xEF exclusive-or all section bytes. */
  lemma FlashPartEnds(before: int, b2: int, b3: int, entry: int, ss: seq<Section>)
    requires IsWord(entry) && AllOk(ss)
    ensures var img := FlashPart(before, b2, b3, entry, ss);
      |img| > 0 && IsBytes(AllBytes(ss)) && img[|img| - 1] == XorAll(0xEF, AllBytes(ss))
  {
    AllBytesOk(ss);
  }
}
