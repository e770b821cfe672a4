/** The firmware's own simplified mouse: pixel coordinates are scaled to the
    absolute range, every move sends one report that also clears the buttons
    and the wheel, and a left click is a press report and a release report at
    the current position. When no mouse device was found nothing is sent. */
module Firmware {
  import opened Wrappers
  import opened Hid

  const SCREEN_WIDTH: int := 2560
  const SCREEN_HEIGHT: int := 1440

  function Abs(n: int): nat {
    if n < 0 then -n else n
  }

  // Facts about multiplication and division that the solver does not find alone.

  lemma MulPositive(a: int, b: int)
    requires 0 < a && 0 < b
    ensures 0 < a * b
  {
  }

  lemma MulCancelLe(q: int, c: int, s: int)
    requires 0 < s && q * s <= c * s
    ensures q <= c
  {
    if q > c {
      MulPositive(q - c, s);
    }
  }

  lemma MulCancelLt(q: int, c: int, s: int)
    requires 0 < s && q * s < c * s
    ensures q < c
  {
    if q >= c {
      if q > c {
        MulPositive(q - c, s);
      }
    }
  }

  lemma DivBounds(n: int, m: int)
    requires 0 <= n && 0 < m
    ensures 0 <= n / m
    ensures (n / m) * m <= n < (n / m + 1) * m
  {
    var q, r := n / m, n % m;
    assert n == q * m + r && 0 <= r < m;
    assert (q + 1) * m == q * m + m;
    if q < 0 {
      MulPositive(-q, m);
    }
  }

  /** Python's `int()` of the exact quotient a / b: truncation toward zero. */
  function TruncDiv(a: int, b: int): (q: int)
    requires b != 0
    ensures Abs(q) * Abs(b) <= Abs(a) < (Abs(q) + 1) * Abs(b)
    ensures 0 <= a && 0 < b ==> q == a / b
    ensures a <= 0 && 0 < b ==> q <= 0
    ensures q == 0 || (0 < q <==> (0 < a) == (0 < b))
  {
    DivBounds(Abs(a), Abs(b));
    if (a >= 0) == (b > 0) then Abs(a) / Abs(b) else -(Abs(a) / Abs(b))
  }

  /** One axis of `pixel_to_absolute`: `int(pixel / size * 32767)`, clamped. */
  function ScaleToAbsolute(pixel: int, size: int): (a: int)
    requires size != 0
    ensures 0 <= a <= MAX_COORD
  {
    LimitCoord(TruncDiv(pixel * MAX_COORD, size))
  }

  /** `pixel_to_absolute`: each axis scaled by its own screen dimension. */
  function PixelToAbsolute(pixelX: int, pixelY: int, screenWidth: int, screenHeight: int): (r: (int, int))
    requires screenWidth != 0 && screenHeight != 0
    ensures 0 <= r.0 <= MAX_COORD && 0 <= r.1 <= MAX_COORD
    ensures r.0 == ScaleToAbsolute(pixelX, screenWidth) && r.1 == ScaleToAbsolute(pixelY, screenHeight)
  {
    (ScaleToAbsolute(pixelX, screenWidth), ScaleToAbsolute(pixelY, screenHeight))
  }

  /** On the screen the result is the largest a with a * size <= pixel * 32767:
      the exact quotient rounded down, not to the nearest. */
  lemma ScaleIsFloor(pixel: int, size: int)
    requires 0 < size && 0 <= pixel <= size
    ensures var a := ScaleToAbsolute(pixel, size);
      a * size <= pixel * MAX_COORD < (a + 1) * size
  {
    var n := pixel * MAX_COORD;
    assert n <= MAX_COORD * size;
    var q := n / size;
    DivBounds(n, size);
    MulCancelLe(q, MAX_COORD, size);
    assert TruncDiv(n, size) == q;
  }

  lemma DivMonotonic(a: int, b: int, d: int)
    requires 0 <= a <= b && 0 < d
    ensures a / d <= b / d
  {
    DivBounds(a, d);
    DivBounds(b, d);
    MulCancelLt(a / d, b / d + 1, d);
  }

  /** Moving right on the screen never moves left in the absolute range. */
  lemma ScaleMonotonic(pixel1: int, pixel2: int, size: int)
    requires 0 < size && pixel1 <= pixel2
    ensures ScaleToAbsolute(pixel1, size) <= ScaleToAbsolute(pixel2, size)
  {
    if pixel1 >= 0 {
      DivMonotonic(pixel1 * MAX_COORD, pixel2 * MAX_COORD, size);
    }
  }

  lemma DivExact(k: int, m: int)
    requires 0 <= k && 0 < m
    ensures (k * m) / m == k
  {
    DivBounds(k * m, m);
    MulCancelLe((k * m) / m, k, m);
    assert k * m < ((k * m) / m + 1) * m;
    MulCancelLt(k, (k * m) / m + 1, m);
  }

  /** `pixel_to_absolute` is non-decreasing in each coordinate separately. */
  lemma PixelToAbsoluteMonotonic(x1: int, y1: int, x2: int, y2: int, width: int, height: int)
    requires 0 < width && 0 < height && x1 <= x2 && y1 <= y2
    ensures PixelToAbsolute(x1, y1, width, height).0 <= PixelToAbsolute(x2, y2, width, height).0
    ensures PixelToAbsolute(x1, y1, width, height).1 <= PixelToAbsolute(x2, y2, width, height).1
  {
    ScaleMonotonic(x1, x2, width);
    ScaleMonotonic(y1, y2, height);
  }

  /** The top-left pixel maps to (0, 0) and the pixel (width, height) to
      (32767, 32767); every pixel at or beyond the edge maps to 32767. */
  lemma PixelToAbsoluteCorners(pixelX: int, pixelY: int, width: int, height: int)
    requires 0 < width && 0 < height
    ensures PixelToAbsolute(0, 0, width, height) == (0, 0)
    ensures PixelToAbsolute(width, height, width, height) == (MAX_COORD, MAX_COORD)
    ensures pixelX >= width ==> PixelToAbsolute(pixelX, pixelY, width, height).0 == MAX_COORD
    ensures pixelY >= height ==> PixelToAbsolute(pixelX, pixelY, width, height).1 == MAX_COORD
  {
    DivExact(MAX_COORD, width);
    DivExact(MAX_COORD, height);
    if pixelX >= width {
      ScaleMonotonic(width, pixelX, width);
    }
    if pixelY >= height {
      ScaleMonotonic(height, pixelY, height);
    }
  }

  /** One pixel right of the origin on the default screen lands on 12, not on
      the nearest value 13 (32767 / 2560 = 12.8): the scaling truncates. */
  lemma PixelToAbsoluteTruncates()
    ensures PixelToAbsolute(1, 1, SCREEN_WIDTH, SCREEN_HEIGHT) == (12, 22)
  {
  }

  /** The report `move_to` sends: no buttons, no wheel, the clamped position. */
  function MoveReport(x: int, y: int): (r: Report)
    ensures WellFormed(r)
    ensures r[0] == 0 && r[5] == 0
    ensures X(r) == LimitCoord(x) && Y(r) == LimitCoord(y)
  {
    Placed(ZeroReport, x, y)
  }

  class AbsoluteMouse {
    /** `self._mouse_device`; None when `find_device` found no mouse. */
    const device: Option<Device>
    /** `self.report`: [buttons, x_lo, x_hi, y_lo, y_hi, wheel]. */
    const report: array<Byte>
    /** Every report handed to `send_report`, oldest first. */
    ghost var sent: seq<Report>

    ghost predicate Valid()
      reads this, report
    {
      report.Length == REPORT_LENGTH && WellFormed(report[..]) &&
      forall i :: 0 <= i < |sent| ==> WellFormed(sent[i])
    }

    /** Finds the mouse among `devices` and, when there is one, sends an
        empty report to probe it. */
    constructor (devices: seq<Device>)
      ensures Valid() && fresh(report)
      ensures device == FindMatchingDevice(devices, GENERIC_DESKTOP_PAGE, MOUSE_USAGE)
      ensures report[..] == ZeroReport
      ensures sent == if device.Some? then [ZeroReport] else []
    {
      device := FindMatchingDevice(devices, GENERIC_DESKTOP_PAGE, MOUSE_USAGE);
      report := new Byte[REPORT_LENGTH](_ => 0);
      sent := [];
      new;
      assert report[..] == ZeroReport;
      if device.Some? {
        SendReport();
      }
    }

    /** `_send_report`: sends the buffer only when a device was found. */
    method SendReport()
      requires Valid()
      modifies `sent
      ensures Valid()
      ensures sent == if device.Some? then old(sent) + [report[..]] else old(sent)
    {
      if device.Some? {
        sent := sent + [report[..]];
      }
    }

    /** `move_to`: one report at the clamped position that also releases
        every button and clears the wheel. */
    method MoveTo(x: int, y: int)
      requires Valid()
      modifies `sent, report
      ensures Valid()
      ensures device.None? ==> report[..] == old(report[..]) && sent == old(sent)
      ensures device.Some? ==> report[..] == MoveReport(x, y) && sent == old(sent) + [report[..]]
    {
      if device.None? {
        return;
      }
      var cx := LimitCoord(x);
      var cy := LimitCoord(y);
      report[0] := 0;
      report[1] := LowByte(cx);
      report[2] := HighByte(cx);
      report[3] := LowByte(cy);
      report[4] := HighByte(cy);
      report[5] := 0;
      assert report[..] == SetY(SetX(ZeroReport, cx), cy);
      SendReport();
    }

    /** `move_to_pixel`: a move to the pixel scaled for the configured screen. */
    method MoveToPixel(pixelX: int, pixelY: int)
      requires Valid()
      modifies `sent, report
      ensures Valid()
      ensures var a := PixelToAbsolute(pixelX, pixelY, SCREEN_WIDTH, SCREEN_HEIGHT);
        (device.None? ==> report[..] == old(report[..]) && sent == old(sent)) &&
        (device.Some? ==> report[..] == MoveReport(a.0, a.1) && sent == old(sent) + [report[..]])
    {
      var a := PixelToAbsolute(pixelX, pixelY, SCREEN_WIDTH, SCREEN_HEIGHT);
      MoveTo(a.0, a.1);
    }

    /** `left_click`: byte 0 := LEFT and send, then byte 0 := 0 and send;
        the position and wheel bytes stay as they were. */
    method LeftClick()
      requires Valid()
      modifies `sent, report
      ensures Valid()
      ensures device.None? ==> report[..] == old(report[..]) && sent == old(sent)
      ensures device.Some? ==>
        report[..] == old(report[..])[0 := 0] &&
        sent == old(sent) + [old(report[..])[0 := LEFT_BUTTON], report[..]]
    {
      if device.None? {
        return;
      }
      report[0] := LEFT_BUTTON;
      SendReport();
      report[0] := 0;
      SendReport();
    }

    /** `click_at_pixel`: the move report, the press and the release, all three
        at the scaled position; the release report equals the move report. */
    method ClickAtPixel(pixelX: int, pixelY: int)
      requires Valid()
      modifies `sent, report
      ensures Valid()
      ensures device.None? ==> report[..] == old(report[..]) && sent == old(sent)
      ensures var a := PixelToAbsolute(pixelX, pixelY, SCREEN_WIDTH, SCREEN_HEIGHT);
        var m := MoveReport(a.0, a.1);
        device.Some? ==> report[..] == m && sent == old(sent) + [m, m[0 := LEFT_BUTTON], m]
    {
      MoveToPixel(pixelX, pixelY);
      ghost var moved := report[..];
      LeftClick();
      assert device.Some? ==> moved[0 := 0] == moved;
    }
  }
}
