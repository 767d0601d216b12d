/** The globals of main.cpp and the state changes made to them: the
    connection slot ws_fd and the semaphore that wakes the reader
    (MyDoWSUpgrade, one pass of InputTask), the label table dipStates
    (DoSwitches), and one pass of the reporting loop in UserMain. */
module Server {
  import opened Wrappers
  import opened CStrings
  import opened Switches
  import Report
  import Slot

  /** DIP_STATE_BUF_SIZE: bytes per row of dipStates. */
  const DipStateBufSize: nat := 8

  /** A set bit means the switch is off (main.cpp's DoSwitches). */
  function Label(sw: bv8, i: nat): string
    requires i < NumSwitches
  {
    if BitSet(sw, i) then "Off" else "On"
  }

  function Labels(sw: bv8): seq<string> {
    seq(NumSwitches, i requires 0 <= i < NumSwitches => Label(sw, i))
  }

  /** Both labels and their NUL fit a row, so strncpy always terminates the
      row and the row reads back as the label. */
  lemma LabelFits(sw: bv8, i: nat)
    requires i < NumSwitches
    ensures |Label(sw, i)| + 1 <= DipStateBufSize
    ensures NUL in Strncpy(Label(sw, i), DipStateBufSize)
    ensures CString(Strncpy(Label(sw, i), DipStateBufSize)) == Some(Label(sw, i))
  {
    StrncpyReadsBack(Label(sw, i), DipStateBufSize);
  }

  /** Field dipK of the report built from mask sw says "Off" exactly when bit
      K-1 of sw is set. */
  lemma ReportOfMask(sw: bv8, k: nat)
    requires 1 <= k <= NumSwitches
    ensures Report.Lookup(Report.Build(Labels(sw)).fields, Report.DipKey(k)) ==
      Some(if BitSet(sw, k - 1) then "Off" else "On")
  {
    Report.BuildLookup(Labels(sw), k);
  }

  /** End to end: field dipK of a report says "Off" exactly when the reading
      of A/D channel PinNumber[K-1] is above the threshold. */
  lemma ReportOfReadings(readings: seq<Word>, k: nat)
    requires |readings| == NumSwitches && 1 <= k <= NumSwitches
    ensures Report.Lookup(Report.Build(Labels(SwitchMask(readings))).fields, Report.DipKey(k)) ==
      Some(if readings[PinNumber[k - 1]] as int > Threshold then "Off" else "On")
  {
    ReportOfMask(SwitchMask(readings), k);
  }

  /** With every bit clear all eight switches read "On". */
  lemma AllOnReport()
    ensures Report.Build(Labels(0)) == Report.SwitchesReport("dipSwitches", [
      Report.Field("dip1", "On"), Report.Field("dip2", "On"),
      Report.Field("dip3", "On"), Report.Field("dip4", "On"),
      Report.Field("dip5", "On"), Report.Field("dip6", "On"),
      Report.Field("dip7", "On"), Report.Field("dip8", "On")])
  {
    forall i | 0 <= i < NumSwitches ensures !BitSet(0, i) {
      SingleBit(0, i);
    }
    assert Labels(0) == ["On", "On", "On", "On", "On", "On", "On", "On"];
    Report.BuildInOrder(Labels(0));
  }

  /** What one pass of InputTask's loop did. */
  datatype ReaderAction =
    | Closed(fd: int)    // error readiness: the descriptor was closed
    | Drained(fd: int)   // data readiness: the input was read and flushed
    | Woke               // in OSSemPend: a post was taken, the pend returns
    | Blocked            // in OSSemPend: no post pending, the task waits

  class DipSwitchDemo {
    /** ws_fd: the one WebSocket descriptor, -1 when there is none. */
    var wsFd: int
    /** Posts of SockReadySem not yet taken by the reader. */
    var readySignals: nat
    /** The reader is blocked inside OSSemPend, waiting for a post. */
    var readerWaiting: bool
    /** dipStates[NUM_SWITCHES][DIP_STATE_BUF_SIZE] */
    const dipStates: array2<char>

    ghost predicate Shaped()
    {
      dipStates.Length0 == NumSwitches && dipStates.Length1 == DipStateBufSize
    }

    /** Row i of dipStates as a byte sequence. */
    function Row(i: nat): (row: seq<char>)
      reads dipStates
      requires Shaped() && i < NumSwitches
      ensures |row| == DipStateBufSize
    {
      [dipStates[i, 0], dipStates[i, 1], dipStates[i, 2], dipStates[i, 3],
       dipStates[i, 4], dipStates[i, 5], dipStates[i, 6], dipStates[i, 7]]
    }

    /** Every row is a terminated C string. */
    ghost predicate Valid()
      reads dipStates
    {
      Shaped() && forall i :: 0 <= i < NumSwitches ==> NUL in Row(i)
    }

    /** The C string in row i. */
    function DipState(i: nat): string
      reads dipStates
      requires Valid() && i < NumSwitches
    {
      CString(Row(i)).value
    }

    /** The eight C strings of the table, in switch order. */
    function DipStates(): seq<string>
      reads dipStates
      requires Valid()
    {
      seq(NumSwitches, i requires 0 <= i < NumSwitches && Valid() reads dipStates => DipState(i))
    }

    /** The slot is served by the reader and the reporter. */
    predicate ShouldReport()
      reads this
    {
      Slot.Active(wsFd)
    }

    /** Program start: ws_fd = -1, the semaphore initialised to 0, the
        zero-filled global table (every row the empty string). */
    constructor ()
      ensures wsFd == -1 && readySignals == 0 && !readerWaiting
      ensures Valid() && fresh(dipStates)
      ensures forall i :: 0 <= i < NumSwitches ==> DipState(i) == ""
    {
      wsFd := -1;
      readySignals := 0;
      readerWaiting := false;
      dipStates := new char[NumSwitches, DipStateBufSize]((i, k) => NUL);
      new;
      forall i | 0 <= i < NumSwitches ensures NUL in Row(i) && Row(i)[0] == NUL {
        assert Row(i)[0] == NUL;
      }
    }

    /** memset(dipStates, 0, NUM_SWITCHES * DIP_STATE_BUF_SIZE) */
    method Memset()
      requires Shaped()
      modifies dipStates
      ensures forall i, k :: 0 <= i < NumSwitches && 0 <= k < DipStateBufSize ==> dipStates[i, k] == NUL
    {
      for i := 0 to NumSwitches
        invariant forall r, k :: 0 <= r < i && 0 <= k < DipStateBufSize ==> dipStates[r, k] == NUL
      {
        for k := 0 to DipStateBufSize
          invariant forall r, c :: 0 <= r < i && 0 <= c < DipStateBufSize ==> dipStates[r, c] == NUL
          invariant forall c :: 0 <= c < k ==> dipStates[i, c] == NUL
        {
          dipStates[i, k] := NUL;
        }
      }
    }

    /** strncpy(dipStates[i], src, DIP_STATE_BUF_SIZE): copies src and pads
        the rest of the row with NUL; no other row changes. */
    method CopyRow(i: nat, src: string)
      requires Shaped() && i < NumSwitches && NUL !in src
      modifies dipStates
      ensures Row(i) == Strncpy(src, DipStateBufSize)
      ensures forall r, k :: 0 <= r < NumSwitches && r != i && 0 <= k < DipStateBufSize ==>
        dipStates[r, k] == old(dipStates[r, k])
    {
      for k := 0 to DipStateBufSize
        invariant forall c :: 0 <= c < k ==> dipStates[i, c] == if c < |src| then src[c] else NUL
        invariant forall r, c :: 0 <= r < NumSwitches && r != i && 0 <= c < DipStateBufSize ==>
          dipStates[r, c] == old(dipStates[r, c])
      {
        dipStates[i, k] := if k < |src| then src[k] else NUL;
      }
      assert Row(i) == Strncpy(src, DipStateBufSize);
    }

    /** DoSwitches for switch mask sw (from ReadSwitch, or from the board's
        digital DIP switch read on other platforms): every row is rewritten,
        row i holding "Off" when bit i is set and "On" otherwise, so nothing
        of the previous table survives. */
    method DoSwitches(sw: bv8)
      requires Shaped()
      modifies dipStates
      ensures Valid()
      ensures forall i :: 0 <= i < NumSwitches ==> Row(i) == Strncpy(Label(sw, i), DipStateBufSize)
      ensures DipStates() == Labels(sw)
    {
      Memset();
      for i := 0 to NumSwitches
        invariant forall r, k :: 0 <= r < i && 0 <= k < DipStateBufSize ==>
          dipStates[r, k] == Strncpy(Label(sw, r), DipStateBufSize)[k]
      {
        CopyRow(i, if sw & (0x01 << i) != 0 then "Off" else "On");
      }
      forall i | 0 <= i < NumSwitches
        ensures Labels(sw)[i] == Label(sw, i)
        ensures NUL !in Labels(sw)[i] && |Labels(sw)[i]| < DipStateBufSize
      {
        LabelFits(sw, i);
      }
      TableReadsBack(Labels(sw));
    }

    /** A table whose row i is the strncpy of labels[i], each label fitting
        a row with its NUL, is valid and reads back as exactly those labels. */
    lemma TableReadsBack(labels: seq<string>)
      requires Shaped() && |labels| == NumSwitches
      requires forall i :: 0 <= i < NumSwitches ==> NUL !in labels[i] && |labels[i]| < DipStateBufSize
      requires forall r, k :: 0 <= r < NumSwitches && 0 <= k < DipStateBufSize ==>
        dipStates[r, k] == Strncpy(labels[r], DipStateBufSize)[k]
      ensures Valid()
      ensures forall i :: 0 <= i < NumSwitches ==> Row(i) == Strncpy(labels[i], DipStateBufSize)
      ensures DipStates() == labels
    {
      forall i | 0 <= i < NumSwitches
        ensures Row(i) == Strncpy(labels[i], DipStateBufSize)
        ensures NUL in Row(i) && CString(Row(i)) == Some(labels[i])
      {
        RowReadsBack(i, labels[i]);
      }
      assert Valid();
      forall i | 0 <= i < NumSwitches ensures DipState(i) == labels[i] {
      }
      assert DipStates() == labels;
    }

    /** A row written by strncpy from a label that fits reads back as it. */
    lemma RowReadsBack(i: nat, src: string)
      requires Shaped() && i < NumSwitches
      requires NUL !in src && |src| < DipStateBufSize
      requires forall k :: 0 <= k < DipStateBufSize ==> dipStates[i, k] == Strncpy(src, DipStateBufSize)[k]
      ensures Row(i) == Strncpy(src, DipStateBufSize)
      ensures NUL in Row(i) && CString(Row(i)) == Some(src)
    {
      assert Row(i) == Strncpy(src, DipStateBufSize);
      StrncpyReadsBack(src, DipStateBufSize);
    }

    /** SendSwitchesReport: the "dipSwitches" object with dip1..dip8 added
        in order, dipK carrying row K-1 of dipStates. Printing it to
        ReportBuffer and writing it to the socket are not modelled. */
    method SendSwitchesReport() returns (report: Report.SwitchesReport)
      requires Valid()
      ensures report == Report.Build(DipStates())
    {
      var states := DipStates();
      var fields: seq<Report.Field> := [];
      fields := fields + [Report.Field("dip1", states[0])];
      fields := fields + [Report.Field("dip2", states[1])];
      fields := fields + [Report.Field("dip3", states[2])];
      fields := fields + [Report.Field("dip4", states[3])];
      fields := fields + [Report.Field("dip5", states[4])];
      fields := fields + [Report.Field("dip6", states[5])];
      fields := fields + [Report.Field("dip7", states[6])];
      fields := fields + [Report.Field("dip8", states[7])];
      assert fields == [
        Report.Field("dip1", states[0]), Report.Field("dip2", states[1]),
        Report.Field("dip3", states[2]), Report.Field("dip4", states[3]),
        Report.Field("dip5", states[4]), Report.Field("dip6", states[5]),
        Report.Field("dip7", states[6]), Report.Field("dip8", states[7])];
      report := Report.SwitchesReport("dipSwitches", fields);
      Report.BuildInOrder(states);
    }

    /** MyDoWSUpgrade(url) where upgradeRv stands for what WSUpgrade returns
        when it is called. A request is upgraded (returns 2) only when the URL
        matches, the slot is free and the handshake succeeds; then the slot
        holds the new descriptor and the reader is signalled. Otherwise it
        returns 0 and leaves the slot alone; it answers not-found exactly
        when the URL does not match or the slot is not free. */
    method MyDoWSUpgrade(url: string, upgradeRv: int) returns (ret: int, notFound: bool)
      modifies this`wsFd, this`readySignals
      ensures ret == 2 <==> Slot.UrlMatches(url) && old(wsFd) < 0 && upgradeRv >= 0
      ensures ret == 2 ==> wsFd == upgradeRv && readySignals == old(readySignals) + 1
      ensures ret != 2 ==> ret == 0 && wsFd == old(wsFd) && readySignals == old(readySignals)
      ensures notFound <==> !(Slot.UrlMatches(url) && old(wsFd) < 0)
      ensures wsFd == Slot.Upgrade(old(wsFd), url, upgradeRv).fd
      ensures ret == Slot.ReturnCode(Slot.Upgrade(old(wsFd), url, upgradeRv).reply)
    {
      notFound := false;
      if Slot.UrlMatches(url) {
        if wsFd < 0 {
          var rv := upgradeRv;
          if rv >= 0 {
            wsFd := rv;
            readySignals := readySignals + 1;
            return 2, notFound;
          } else {
            return 0, notFound;
          }
        }
      }
      notFound := true;
      return 0, notFound;
    }

    /** One pass of InputTask's loop. A reader blocked in OSSemPend first
        finishes that pend: it takes a post if one is pending and returns to
        the top of the loop, or goes on waiting. Otherwise, while ws_fd > 0 it
        waits in select(); errorReady says whether the error set came back
        holding ws_fd, in which case the descriptor is closed and the slot
        reset to -1; otherwise input was ready and is read and flushed. While
        ws_fd <= 0 it pends on the semaphore: it takes a post if there is one,
        and otherwise blocks. */
    method InputTaskStep(errorReady: bool) returns (action: ReaderAction)
      modifies this`wsFd, this`readySignals, this`readerWaiting
      ensures old(readerWaiting) && old(readySignals) > 0 ==>
        action == Woke && wsFd == old(wsFd) && readySignals == old(readySignals) - 1 && !readerWaiting
      ensures old(readerWaiting) && old(readySignals) == 0 ==>
        action == Blocked && wsFd == old(wsFd) && readySignals == 0 && readerWaiting
      ensures !old(readerWaiting) && old(wsFd) > 0 && errorReady ==>
        action == Closed(old(wsFd)) && wsFd == -1 && readySignals == old(readySignals) && !readerWaiting
      ensures !old(readerWaiting) && old(wsFd) > 0 && !errorReady ==>
        action == Drained(old(wsFd)) && wsFd == old(wsFd) && readySignals == old(readySignals) && !readerWaiting
      ensures !old(readerWaiting) && old(wsFd) <= 0 && old(readySignals) > 0 ==>
        action == Woke && wsFd == old(wsFd) && readySignals == old(readySignals) - 1 && !readerWaiting
      ensures !old(readerWaiting) && old(wsFd) <= 0 && old(readySignals) == 0 ==>
        action == Blocked && wsFd == old(wsFd) && readySignals == 0 && readerWaiting
      ensures !old(readerWaiting) && errorReady ==> wsFd == Slot.Step(old(wsFd), Slot.SocketError)
    {
      if readerWaiting {
        if readySignals > 0 {
          readySignals := readySignals - 1;
          readerWaiting := false;
          action := Woke;
        } else {
          action := Blocked;
        }
      } else if wsFd > 0 {
        if errorReady {
          action := Closed(wsFd);
          wsFd := -1;
        } else {
          action := Drained(wsFd);
        }
      } else if readySignals > 0 {
        readySignals := readySignals - 1;
        action := Woke;
      } else {
        readerWaiting := true;
        action := Blocked;
      }
    }

    /** One pass of UserMain's loop: while the slot is active, sample the
        switches, refresh dipStates and produce the report; otherwise sleep
        (no report, nothing changes). readings[c] is A/D channel c. */
    method UserMainStep(readings: array<Word>) returns (report: Option<Report.SwitchesReport>)
      requires Shaped() && readings.Length == NumSwitches
      modifies dipStates
      ensures report.Some? <==> ShouldReport()
      ensures ShouldReport() ==> Valid() && DipStates() == Labels(SwitchMask(readings[..]))
      ensures ShouldReport() ==> report == Some(Report.Build(Labels(SwitchMask(readings[..]))))
      ensures !ShouldReport() ==> unchanged(dipStates)
    {
      if wsFd > 0 {
        var sw := ReadSwitch(readings);
        DoSwitches(sw);
        var r := SendSwitchesReport();
        report := Some(r);
      } else {
        report := None;
      }
    }
  }
}
