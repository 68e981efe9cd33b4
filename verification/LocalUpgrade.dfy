/** The download routine with its static counters. */
module LocalUpgrade {
  import opened Arithmetic
  import opened TimerText
  import opened UpgradeProtocol

  class LocalUpgrade {
    var totallength: int
    var sumlength: int
    var eraseLength: int
    var finished: nat              // how often UPGRADE_FLAG_FINISH was set
    ghost var flash: seq<Op>       // the calls of the flash library, in order

    constructor ()
      ensures Abs() == IDLE
    {
      totallength, sumlength, eraseLength, finished, flash := 0, 0, 0, 0, [];
    }

    ghost function Abs(): (d: Download)
      reads this
    {
      Download(totallength, sumlength, eraseLength, finished, flash)
    }

    /** system_upgrade_erase_flash, called for `meant` bytes of image. */
    method EraseFlash(size: int, ghost meant: int)
      modifies this`flash
      ensures flash == old(flash) + [Erase(size, meant)]
    {
      flash := flash + [Erase(size, meant)];
    }

    /** system_upgrade. */
    method WriteFlash(bytes: string)
      modifies this`flash
      ensures flash == old(flash) + [Write(bytes)]
    {
      flash := flash + [Write(bytes)];
    }

    /** The search for "Content-Length: ": the number is read if its line ends. */
    method ReadLength(pusrdata: string) returns (stop: bool)
      requires NumberFits(pusrdata)
      modifies this`sumlength
      ensures stop <==> ContentLength(pusrdata) == Length(0)
      ensures sumlength == if ContentLength(pusrdata).Length? then ContentLength(pusrdata).value else old(sumlength)
    {
      var s := CString(pusrdata);
      var ptr := IndexOf(s, "Content-Length: ", 0);
      if ptr != -1 {
        ptr := ptr + 16;
        var ptmp2 := IndexOf(s, "\r\n", ptr);
        if ptmp2 != -1 {
          var lengthbuffer := s[ptr..ptmp2];
          sumlength := ToUint32(Atoi(lengthbuffer));
          if sumlength == 0 {
            return true;
          }
        }
      }
      return false;
    }

    /** The erase request of the packet with the header. */
    method EraseFirst()
      modifies this`eraseLength, this`flash
      ensures Abs() == FirstErase(old(Abs()))
    {
      if sumlength != 0 {
        if sumlength >= 0x10000 {
          EraseFlash(0xFFFF, 0x10000);
          eraseLength := sumlength - 0x10000;
        } else {
          EraseFlash(sumlength, sumlength);
          eraseLength := 0;
        }
      }
    }

    /** The erase request of every other packet. */
    method EraseNext()
      modifies this`eraseLength, this`flash
      ensures Abs() == NextErase(old(Abs()))
    {
      if eraseLength >= 0x10000 {
        EraseFlash(0xFFFF, 0x10000);
        eraseLength := eraseLength - 0x10000;
      } else {
        EraseFlash(eraseLength, eraseLength);
        eraseLength := 0;
      }
    }

    /** The end test behind every write. */
    method CheckEnd()
      modifies this`totallength, this`sumlength, this`finished
      ensures Abs() == Check(old(Abs()))
    {
      if totallength == sumlength {
        finished := finished + 1;
        totallength := 0;
        sumlength := 0;
      }
    }

    /** The arm for a packet with a header. */
    method FirstPacket(pusrdata: string) returns (stop: bool)
      requires |pusrdata| <= 0xFFFF && NumberFits(pusrdata) && LooksLikeHeader(pusrdata)
      requires totallength == 0
      modifies this
      ensures if stop then Abs() == Receive(old(Abs()), Parse(pusrdata))
        else Check(Abs()) == Receive(old(Abs()), Parse(pusrdata))
    {
      stop := ReadLength(pusrdata);
      if !stop {
        EraseFirst();
        var length := |pusrdata|;
        var ptr := Find(pusrdata, "\r\n\r\n");
        length := length - ptr;
        length := length - 4;
        totallength := ToUint32(totallength + length);
        WriteFlash(pusrdata[ptr + 4..]);
      }
    }

    /** local_upgrade_download. */
    method UpgradeDownload(pusrdata: string)
      requires |pusrdata| <= 0xFFFF && NumberFits(pusrdata)
      modifies this
      ensures Abs() == Receive(old(Abs()), Parse(pusrdata))
    {
      if totallength == 0 && Find(pusrdata, "\r\n\r\n") != -1 && Find(pusrdata, "Content-Length") != -1 {
        var stop := FirstPacket(pusrdata);
        if stop {
          return;
        }
      } else {
        totallength := ToUint32(totallength + |pusrdata|);
        EraseNext();
        WriteFlash(pusrdata);
      }
      CheckEnd();
    }
  }
}
