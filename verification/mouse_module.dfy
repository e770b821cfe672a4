/** The single-file `AbsoluteMouse` driver: the same report buffer, but
    every button report goes through `_send_no_move`, which zeroes the
    position bytes first, and `move_to` sends its wheel steps before the
    one coordinate report it always sends. */
module AbsoluteMouseModule {
  import opened Wrappers
  import opened Hid

  /** What `find_device` accepts: one device object (anything with
      `send_report`) or a list of them. */
  datatype Devices = Single(device: Device) | List(devices: seq<Device>)

  function AsList(devices: Devices): seq<Device> {
    match devices
    case Single(d) => [d]
    case List(ds) => ds
  }

  /** `find_device`: a single device is searched as a one-element list; the
      first device matching both usage fields, else None. */
  function FindDevice(devices: Devices, usagePage: int, usage: int): (r: Option<Device>)
    ensures devices.Single? ==>
      r == if Matches(devices.device, usagePage, usage) then Some(devices.device) else None
    ensures r.None? <==> forall i :: 0 <= i < |AsList(devices)| ==> !Matches(AsList(devices)[i], usagePage, usage)
    ensures r.Some? ==> exists i :: FirstMatchAt(AsList(devices), usagePage, usage, i) && r.value == AsList(devices)[i]
  {
    FindMatchingDevice(AsList(devices), usagePage, usage)
  }

  /** The report `_send_no_move` sends: position bytes 1-4 zeroed. */
  function NoMove(r: Report): (r': Report)
    requires |r| == REPORT_LENGTH
    ensures WellFormed(r')
    ensures X(r') == 0 && Y(r') == 0
    ensures r'[0] == r[0] && r'[5] == r[5]
  {
    r[1 := 0][2 := 0][3 := 0][4 := 0]
  }

  class AbsoluteMouse {
    const device: Device
    /** `self.report`: [buttons, x_lo, x_hi, y_lo, y_hi, wheel]. */
    const report: array<Byte>
    /** Every report handed to `send_report`, oldest first. */
    ghost var sent: seq<Report>

    ghost predicate Valid()
      reads this, report
    {
      report.Length == REPORT_LENGTH && WellFormed(report[..]) &&
      forall i :: 0 <= i < |sent| ==> WellFormed(sent[i])
    }

    /** Finds the mouse and sends one empty report to probe it. Without a
        matching device that probe fails, so a mouse always has one. */
    constructor (devices: Devices)
      requires FindDevice(devices, GENERIC_DESKTOP_PAGE, MOUSE_USAGE).Some?
      ensures Valid() && fresh(report)
      ensures device == FindDevice(devices, GENERIC_DESKTOP_PAGE, MOUSE_USAGE).value
      ensures report[..] == ZeroReport && sent == [ZeroReport]
    {
      device := FindDevice(devices, GENERIC_DESKTOP_PAGE, MOUSE_USAGE).value;
      report := new Byte[REPORT_LENGTH](_ => 0);
      sent := [];
      new;
      assert report[..] == ZeroReport;
      SendNoMove();
    }

    method SendReport()
      requires Valid()
      modifies `sent
      ensures Valid()
      ensures sent == old(sent) + [report[..]]
    {
      sent := sent + [report[..]];
    }

    /** `_send_no_move`: zero the position and send; buttons and wheel kept. */
    method SendNoMove()
      requires Valid()
      modifies `sent, report
      ensures Valid()
      ensures report[..] == NoMove(old(report[..]))
      ensures sent == old(sent) + [report[..]]
    {
      report[1] := 0;
      report[2] := 0;
      report[3] := 0;
      report[4] := 0;
      SendReport();
    }

    method Press(buttons: Byte)
      requires Valid()
      modifies `sent, report
      ensures Valid()
      ensures report[..] == NoMove(old(report[..]))[0 := old(report[0]) | buttons]
      ensures sent == old(sent) + [report[..]]
    {
      report[0] := report[0] | buttons;
      SendNoMove();
    }

    method Release(buttons: Byte)
      requires Valid()
      modifies `sent, report
      ensures Valid()
      ensures report[..] == NoMove(old(report[..]))[0 := old(report[0]) & !buttons]
      ensures sent == old(sent) + [report[..]]
    {
      report[0] := report[0] & !buttons;
      SendNoMove();
    }

    method ReleaseAll()
      requires Valid()
      modifies `sent, report
      ensures Valid()
      ensures report[..] == NoMove(old(report[..]))[0 := 0]
      ensures sent == old(sent) + [report[..]]
    {
      report[0] := 0;
      SendNoMove();
    }

    /** A press report then a release report, both at position (0, 0). */
    method Click(buttons: Byte)
      requires Valid()
      modifies `sent, report
      ensures Valid()
      ensures report[..] == NoMove(old(report[..]))[0 := old(report[0]) & !buttons]
      ensures sent == old(sent) + [NoMove(old(report[..]))[0 := old(report[0]) | buttons], report[..]]
    {
      ghost var before := report[..];
      Press(buttons);
      ghost var pressed := report[..];
      Release(buttons);
      ReleaseAfterPress(before[0], buttons);
      assert NoMove(pressed) == pressed;
      assert report[..] == pressed[0 := before[0] & !buttons];
    }

    /** `move_to(x, y, wheel)`: the wheel steps first, then exactly one
        report with both coordinates clamped; byte 0 is never touched and
        byte 5 keeps its old value when `wheel` is 0. */
    method MoveTo(x: int, y: int, wheel: int)
      requires Valid()
      modifies `sent, report
      ensures Valid()
      ensures var afterWheel := AfterWheel(old(report[..]), WheelChunks(wheel));
        report[..] == Placed(afterWheel, x, y) &&
        sent == old(sent) + WheelReports(old(report[..]), WheelChunks(wheel)) + [report[..]]
    {
      // Wheel
      SendWheel(wheel);
      // Coordinates
      var cx := LimitCoord(x);
      var cy := LimitCoord(y);
      ghost var mid := report[..];
      report[1] := LowByte(cx);
      report[2] := HighByte(cx);
      report[3] := LowByte(cy);
      report[4] := HighByte(cy);
      assert report[..] == SetY(SetX(mid, cx), cy);
      SendReport();
    }

    /** One wheel step: byte 5 := the step, then a send. */
    method SendStep(ghost base: Report, partial: int)
      requires Valid() && -MAX_WHEEL_STEP <= partial <= MAX_WHEEL_STEP
      requires |base| == REPORT_LENGTH && report[..][..5] == base[..5]
      modifies `sent, report
      ensures Valid()
      ensures report[..] == SetWheel(base, partial)
      ensures sent == old(sent) + [report[..]]
    {
      report[5] := WheelByte(partial);
      assert report[..] == SetWheel(base, partial);
      SendReport();
    }

    /** The wheel loop of `move_to`: one report per step. */
    method SendWheel(wheel: int)
      requires Valid()
      modifies `sent, report
      ensures Valid()
      ensures sent == old(sent) + WheelReports(old(report[..]), WheelChunks(wheel))
      ensures report[..] == AfterWheel(old(report[..]), WheelChunks(wheel))
    {
      ghost var base := report[..];
      var w := wheel;
      ghost var done: seq<int> := [];
      while w != 0
        invariant WheelChunks(wheel) == done + WheelChunks(w)
        invariant forall i :: 0 <= i < |done| ==> -MAX_WHEEL_STEP <= done[i] <= MAX_WHEEL_STEP
        invariant report[..] == AfterWheel(base, done)
        invariant sent == old(sent) + WheelReports(base, done)
        invariant Valid()
        decreases if w < 0 then -w else w
      {
        var partial := Limit(w);
        WheelStep(wheel, done, w, base);
        SendStep(base, partial);
        done := done + [partial];
        w := w - partial;
      }
      assert done + WheelChunks(w) == done;
    }
  }
}
