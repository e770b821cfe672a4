/** The `Mouse` driver of the absolute_mouse package: one 6-byte report
    buffer changed in place, each change followed by a send. Buttons keep the
    position bytes; a move writes only the axes it is given, sends the
    position first and then the wheel steps. */
module AbsoluteMousePackage {
  import opened Wrappers
  import opened Hid

  /** The report after `move` has written the axes it was given. */
  function Positioned(r: Report, x: Option<int>, y: Option<int>): (r': Report)
    requires |r| == REPORT_LENGTH
    ensures |r'| == REPORT_LENGTH
    ensures X(r') == (if x.Some? then LimitCoord(x.value) else X(r))
    ensures Y(r') == (if y.Some? then LimitCoord(y.value) else Y(r))
    ensures r'[0] == r[0] && r'[5] == r[5]
    ensures x.None? ==> r'[1] == r[1] && r'[2] == r[2]
    ensures y.None? ==> r'[3] == r[3] && r'[4] == r[4]
  {
    var rx := if x.Some? then SetX(r, LimitCoord(x.value)) else r;
    assert Y(rx) == Y(r) by { assert rx[3] == r[3] && rx[4] == r[4]; }
    if y.Some? then
      var ry := SetY(rx, LimitCoord(y.value));
      assert X(ry) == X(rx) by { assert ry[1] == rx[1] && ry[2] == rx[2]; }
      ry
    else rx
  }

  class Mouse {
    /** The device `find_device` returned when the mouse was created. */
    const device: Device
    /** `self.report`: [buttons, x_lo, x_hi, y_lo, y_hi, wheel]. */
    const report: array<Byte>
    /** Every report handed to `send_report`, oldest first. */
    ghost var sent: seq<Report>

    ghost predicate Valid()
      reads this, report
    {
      report.Length == REPORT_LENGTH && WellFormed(report[..]) &&
      forall i :: 0 <= i < |sent| ==> WellFormed(sent[i])
    }

    constructor (device: Device)
      ensures Valid() && fresh(report)
      ensures this.device == device
      ensures report[..] == ZeroReport && sent == []
    {
      this.device := device;
      report := new Byte[REPORT_LENGTH](_ => 0);
      sent := [];
      new;
      assert report[..] == ZeroReport;
    }

    /** Send the current buffer: one snapshot is added to the log. */
    method SendReport()
      requires Valid()
      modifies `sent
      ensures Valid()
      ensures sent == old(sent) + [report[..]]
    {
      sent := sent + [report[..]];
    }

    method Press(buttons: Byte)
      requires Valid()
      modifies `sent, report
      ensures Valid()
      ensures report[..] == old(report[..])[0 := old(report[0]) | buttons]
      ensures sent == old(sent) + [report[..]]
    {
      report[0] := report[0] | buttons;
      SendReport();
    }

    method Release(buttons: Byte)
      requires Valid()
      modifies `sent, report
      ensures Valid()
      ensures report[..] == old(report[..])[0 := old(report[0]) & !buttons]
      ensures sent == old(sent) + [report[..]]
    {
      report[0] := report[0] & !buttons;
      SendReport();
    }

    method ReleaseAll()
      requires Valid()
      modifies `sent, report
      ensures Valid()
      ensures report[..] == old(report[..])[0 := 0]
      ensures sent == old(sent) + [report[..]]
    {
      report[0] := 0;
      SendReport();
    }

    /** A press report followed by a release report; the position and wheel
        bytes are those from before the click in both. */
    method Click(buttons: Byte)
      requires Valid()
      modifies `sent, report
      ensures Valid()
      ensures report[..] == old(report[..])[0 := old(report[0]) & !buttons]
      ensures sent == old(sent) + [old(report[..])[0 := old(report[0]) | buttons], report[..]]
    {
      ghost var before := report[..];
      Press(buttons);
      Release(buttons);
      ReleaseAfterPress(before[0], buttons);
      assert report[..] == before[0 := before[0] & !buttons];
    }

    /** `move(x, y, wheel)`: write the given axes and send one report if at
        least one was given; then send one report per wheel step, byte 5
        keeping the last step afterwards. */
    method Move(x: Option<int>, y: Option<int>, wheel: int)
      requires Valid()
      modifies `sent, report
      ensures Valid()
      ensures var moved := Positioned(old(report[..]), x, y);
        sent == old(sent) + (if x.Some? || y.Some? then [moved] else [])
                          + WheelReports(moved, WheelChunks(wheel)) &&
        report[..] == AfterWheel(moved, WheelChunks(wheel))
    {
      // Coordinates
      WritePosition(x, y);
      if x.Some? || y.Some? {
        SendReport();
      }
      // Wheel
      SendWheel(wheel);
    }

    /** The coordinate half of `move`: bytes 1-4 for the axes given. */
    method WritePosition(x: Option<int>, y: Option<int>)
      requires Valid()
      modifies report
      ensures Valid()
      ensures report[..] == Positioned(old(report[..]), x, y)
    {
      ghost var start := report[..];
      if x.Some? {
        var cx := LimitCoord(x.value);
        report[1], report[2] := LowByte(cx), HighByte(cx);
        assert report[..] == SetX(start, cx);
      }
      ghost var mid := report[..];
      if y.Some? {
        var cy := LimitCoord(y.value);
        report[3], report[4] := LowByte(cy), HighByte(cy);
        assert report[..] == SetY(mid, cy);
      }
    }

    /** One wheel step: byte 5 := the step, then a send. */
    method SendStep(ghost base: Report, partial: int)
      requires Valid() && -MAX_WHEEL_STEP <= partial <= MAX_WHEEL_STEP
      requires |base| == REPORT_LENGTH && report[..][..5] == base[..5]
      modifies `sent, report
      ensures Valid()
      ensures report[..] == SetWheel(base, partial)
      ensures sent == old(sent) + [report[..]]
    {
      report[5] := WheelByte(partial);
      assert report[..] == SetWheel(base, partial);
      SendReport();
    }

    /** The wheel half of `move`: `while wheel != 0`, one report per step. */
    method SendWheel(wheel: int)
      requires Valid()
      modifies `sent, report
      ensures Valid()
      ensures sent == old(sent) + WheelReports(old(report[..]), WheelChunks(wheel))
      ensures report[..] == AfterWheel(old(report[..]), WheelChunks(wheel))
    {
      ghost var base := report[..];
      var w := wheel;
      ghost var done: seq<int> := [];
      while w != 0
        invariant WheelChunks(wheel) == done + WheelChunks(w)
        invariant forall i :: 0 <= i < |done| ==> -MAX_WHEEL_STEP <= done[i] <= MAX_WHEEL_STEP
        invariant report[..] == AfterWheel(base, done)
        invariant sent == old(sent) + WheelReports(base, done)
        invariant Valid()
        decreases if w < 0 then -w else w
      {
        var partial := Limit(w);
        WheelStep(wheel, done, w, base);
        SendStep(base, partial);
        done := done + [partial];
        w := w - partial;
      }
      assert done + WheelChunks(w) == done;
    }
  }
}
