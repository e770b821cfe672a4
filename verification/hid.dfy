/** The absolute-mouse HID report that all three mouse drivers share:
    six bytes [buttons, x_lo, x_hi, y_lo, y_hi, wheel], the position as
    little-endian unsigned 16-bit values in 0..32767 and the wheel as a
    signed byte. Also the clamping helpers, the wheel decomposition and the
    device lookup the drivers have in common. */
module Hid {
  import opened Wrappers

  type Byte = bv8

  /** A snapshot of the report buffer. */
  type Report = seq<Byte>

  const REPORT_LENGTH: nat := 6
  const LEFT_BUTTON: Byte := 1
  const RIGHT_BUTTON: Byte := 2
  const MIDDLE_BUTTON: Byte := 4
  const MAX_COORD: int := 32767
  const MAX_WHEEL_STEP: int := 127

  /** HID usage page "Generic Desktop" and usage "Mouse". */
  const GENERIC_DESKTOP_PAGE: int := 0x01
  const MOUSE_USAGE: int := 0x02

  /** The buffer as `bytearray(6)` creates it. */
  const ZeroReport: Report := [0, 0, 0, 0, 0, 0]

  // ---------------------------------------------------------------------
  // Reading a report

  function Le16(lo: Byte, hi: Byte): int {
    lo as int + 256 * hi as int
  }

  /** Two's-complement reading of one byte, as a host reads the wheel field. */
  function SignedByte(b: Byte): int {
    if b < 128 then b as int else b as int - 256
  }

  function X(r: Report): int
    requires |r| == REPORT_LENGTH
  {
    Le16(r[1], r[2])
  }

  function Y(r: Report): int
    requires |r| == REPORT_LENGTH
  {
    Le16(r[3], r[4])
  }

  function Wheel(r: Report): int
    requires |r| == REPORT_LENGTH
  {
    SignedByte(r[5])
  }

  /** A report whose position lies in the absolute range 0..32767: both
      high bytes are below 0x80. */
  predicate WellFormed(r: Report) {
    |r| == REPORT_LENGTH && r[2] < 0x80 && r[4] < 0x80
  }

  lemma WellFormedRange(r: Report)
    requires |r| == REPORT_LENGTH
    ensures WellFormed(r) <==> X(r) <= MAX_COORD && Y(r) <= MAX_COORD
  {
  }

  // ---------------------------------------------------------------------
  // The clamping helpers `_limit_coord` and `_limit`

  /** `_limit_coord`: clamp a coordinate to the absolute range. */
  function LimitCoord(coord: int): (r: int)
    ensures 0 <= r <= MAX_COORD
    ensures 0 <= coord <= MAX_COORD ==> r == coord
    ensures coord < 0 ==> r == 0
    ensures coord > MAX_COORD ==> r == MAX_COORD
  {
    if coord < 0 then 0 else if coord > MAX_COORD then MAX_COORD else coord
  }

  /** `_limit`: clamp a wheel amount to what one report can carry. */
  function Limit(dist: int): (r: int)
    ensures -MAX_WHEEL_STEP <= r <= MAX_WHEEL_STEP
    ensures -MAX_WHEEL_STEP <= dist <= MAX_WHEEL_STEP ==> r == dist
    ensures dist > MAX_WHEEL_STEP ==> r == MAX_WHEEL_STEP
    ensures dist < -MAX_WHEEL_STEP ==> r == -MAX_WHEEL_STEP
  {
    if dist < -MAX_WHEEL_STEP then -MAX_WHEEL_STEP
    else if dist > MAX_WHEEL_STEP then MAX_WHEEL_STEP
    else dist
  }

  /** Releasing the buttons just pressed clears them and leaves the other
      buttons as they were before the press. */
  lemma ReleaseAfterPress(old0: Byte, buttons: Byte)
    ensures (old0 | buttons) & !buttons == old0 & !buttons
  {
  }

  // ---------------------------------------------------------------------
  // Writing a report

  /** The byte holding a value in 0..255, built from its bits. */
  function ToByte(n: int): (b: Byte)
    requires 0 <= n < 256
    ensures b as int == n
  {
    if n == 0 then 0 else (ToByte(n / 2) << 1) | (if n % 2 == 1 then 1 else 0)
  }

  /** Low byte of a 16-bit value, as `struct.pack("<H", v)[0]`. */
  function LowByte(v: int): (b: Byte)
    requires 0 <= v < 0x1_0000
    ensures b as int == v % 256
  {
    ToByte(v % 256)
  }

  /** High byte of a 16-bit value, as `struct.pack("<H", v)[1]`. */
  function HighByte(v: int): (b: Byte)
    requires 0 <= v < 0x1_0000
    ensures b as int == v / 256
  {
    ToByte(v / 256)
  }

  /** `c & 0xFF`: the two's-complement byte of a wheel step. */
  function WheelByte(c: int): (b: Byte)
    ensures -128 <= c < 128 ==> SignedByte(b) == c
    ensures b as int == c % 256
  {
    ToByte(c % 256)
  }

  /** Bytes 1-2 := v little-endian. */
  function SetX(r: Report, v: int): (r': Report)
    requires |r| == REPORT_LENGTH && 0 <= v <= MAX_COORD
    ensures |r'| == REPORT_LENGTH && X(r') == v && r'[2] < 0x80
    ensures r'[0] == r[0] && r'[3] == r[3] && r'[4] == r[4] && r'[5] == r[5]
  {
    r[1 := LowByte(v)][2 := HighByte(v)]
  }

  /** Bytes 3-4 := v little-endian. */
  function SetY(r: Report, v: int): (r': Report)
    requires |r| == REPORT_LENGTH && 0 <= v <= MAX_COORD
    ensures |r'| == REPORT_LENGTH && Y(r') == v && r'[4] < 0x80
    ensures r'[0] == r[0] && r'[1] == r[1] && r'[2] == r[2] && r'[5] == r[5]
  {
    r[3 := LowByte(v)][4 := HighByte(v)]
  }

  /** Byte 5 := the two's-complement byte of one wheel step. */
  function SetWheel(r: Report, c: int): (r': Report)
    requires |r| == REPORT_LENGTH && -MAX_WHEEL_STEP <= c <= MAX_WHEEL_STEP
    ensures |r'| == REPORT_LENGTH && Wheel(r') == c
    ensures r'[..5] == r[..5]
  {
    r[5 := WheelByte(c)]
  }

  /** The two bytes written for a position decode back to it. */
  lemma Le16RoundTrip(v: int)
    requires 0 <= v < 0x1_0000
    ensures Le16(LowByte(v), HighByte(v)) == v
    ensures LowByte(v) as int == v % 256 && HighByte(v) as int == v / 256
  {
  }

  /** Both axes clamped and written: bytes 1-4 := x, y little-endian. */
  function Placed(r: Report, x: int, y: int): (r': Report)
    requires |r| == REPORT_LENGTH
    ensures WellFormed(r')
    ensures X(r') == LimitCoord(x) && Y(r') == LimitCoord(y)
    ensures r'[0] == r[0] && r'[5] == r[5]
  {
    var rx := SetX(r, LimitCoord(x));
    var ry := SetY(rx, LimitCoord(y));
    assert X(ry) == X(rx) by { assert ry[1] == rx[1] && ry[2] == rx[2]; }
    ry
  }

  // ---------------------------------------------------------------------
  // The wheel loop: `while wheel != 0: partial = _limit(wheel); ...; wheel -= partial`

  /** The sequence of wheel steps the loop sends for a requested amount. */
  function WheelChunks(wheel: int): (chunks: seq<int>)
    ensures forall i :: 0 <= i < |chunks| ==> -MAX_WHEEL_STEP <= chunks[i] <= MAX_WHEEL_STEP && chunks[i] != 0
    decreases if wheel < 0 then -wheel else wheel
  {
    if wheel == 0 then []
    else [Limit(wheel)] + WheelChunks(wheel - Limit(wheel))
  }

  function Sum(s: seq<int>): int {
    if s == [] then 0 else s[0] + Sum(s[1..])
  }

  /** The steps add up to the requested amount: nothing is lost or added. */
  lemma {:induction false} WheelChunksSum(wheel: int)
    ensures Sum(WheelChunks(wheel)) == wheel
    decreases if wheel < 0 then -wheel else wheel
  {
    if wheel != 0 {
      WheelChunksSum(wheel - Limit(wheel));
      var cs := WheelChunks(wheel);
      assert cs[1..] == WheelChunks(wheel - Limit(wheel));
    }
  }

  /** The loop sends ceil(|wheel| / 127) reports. */
  lemma {:induction false} WheelChunksCount(wheel: int)
    ensures |WheelChunks(wheel)| == ((if wheel < 0 then -wheel else wheel) + MAX_WHEEL_STEP - 1) / MAX_WHEEL_STEP
    decreases if wheel < 0 then -wheel else wheel
  {
    if wheel != 0 {
      WheelChunksCount(wheel - Limit(wheel));
    }
  }

  /** Every step but the last is a full step of 127 in the wheel's direction. */
  lemma {:induction false} WheelChunksFullSteps(wheel: int)
    ensures forall i :: 0 <= i < |WheelChunks(wheel)| - 1 ==>
      WheelChunks(wheel)[i] == (if wheel > 0 then MAX_WHEEL_STEP else -MAX_WHEEL_STEP)
    decreases if wheel < 0 then -wheel else wheel
  {
    if wheel != 0 {
      var rest := wheel - Limit(wheel);
      WheelChunksFullSteps(rest);
      if rest != 0 {
        assert (rest > 0) == (wheel > 0);
        assert Limit(wheel) == (if wheel > 0 then MAX_WHEEL_STEP else -MAX_WHEEL_STEP);
      }
    }
  }

  /** The reports the wheel loop sends when its other bytes are `base`. */
  function WheelReports(base: Report, chunks: seq<int>): (reports: seq<Report>)
    requires |base| == REPORT_LENGTH
    requires forall i :: 0 <= i < |chunks| ==> -MAX_WHEEL_STEP <= chunks[i] <= MAX_WHEEL_STEP
    ensures |reports| == |chunks|
    ensures forall i :: 0 <= i < |chunks| ==>
      |reports[i]| == REPORT_LENGTH && reports[i][..5] == base[..5] && Wheel(reports[i]) == chunks[i]
  {
    if chunks == [] then []
    else WheelReports(base, chunks[..|chunks| - 1]) + [SetWheel(base, chunks[|chunks| - 1])]
  }

  /** The buffer after the wheel loop: byte 5 keeps the last step sent. */
  function AfterWheel(base: Report, chunks: seq<int>): (r: Report)
    requires |base| == REPORT_LENGTH
    requires forall i :: 0 <= i < |chunks| ==> -MAX_WHEEL_STEP <= chunks[i] <= MAX_WHEEL_STEP
    ensures |r| == REPORT_LENGTH && r[..5] == base[..5]
    ensures chunks == [] ==> r == base
    ensures chunks != [] ==> Wheel(r) == chunks[|chunks| - 1]
  {
    if chunks == [] then base else SetWheel(base, chunks[|chunks| - 1])
  }

  /** One turn of the wheel loop: the step it sends is the next chunk, the
      log grows by that step's report and the buffer becomes that report. */
  lemma WheelStep(wheel: int, done: seq<int>, w: int, base: Report)
    requires WellFormed(base) && w != 0
    requires WheelChunks(wheel) == done + WheelChunks(w)
    requires forall i :: 0 <= i < |done| ==> -MAX_WHEEL_STEP <= done[i] <= MAX_WHEEL_STEP
    ensures var done' := done + [Limit(w)];
      WheelChunks(wheel) == done' + WheelChunks(w - Limit(w)) &&
      (forall i :: 0 <= i < |done'| ==> -MAX_WHEEL_STEP <= done'[i] <= MAX_WHEEL_STEP) &&
      WheelReports(base, done') == WheelReports(base, done) + [SetWheel(base, Limit(w))] &&
      AfterWheel(base, done') == SetWheel(base, Limit(w)) &&
      WellFormed(SetWheel(base, Limit(w)))
  {
    var done' := done + [Limit(w)];
    assert done'[..|done|] == done && done'[|done|] == Limit(w);
    assert WheelChunks(w) == [Limit(w)] + WheelChunks(w - Limit(w));
    WheelReportsWellFormed(base, done');
  }

  /** Wheel reports keep the position, so they are well formed when the base is. */
  lemma WheelReportsWellFormed(base: Report, chunks: seq<int>)
    requires WellFormed(base)
    requires forall i :: 0 <= i < |chunks| ==> -MAX_WHEEL_STEP <= chunks[i] <= MAX_WHEEL_STEP
    ensures forall i :: 0 <= i < |chunks| ==> WellFormed(WheelReports(base, chunks)[i])
    ensures WellFormed(AfterWheel(base, chunks))
  {
    var rs := WheelReports(base, chunks);
    forall i | 0 <= i < |chunks| ensures WellFormed(rs[i]) {
      assert rs[i][..5] == base[..5];
      assert rs[i][1] == base[1] && rs[i][2] == base[2] && rs[i][3] == base[3] && rs[i][4] == base[4];
    }
    var a := AfterWheel(base, chunks);
    assert a[1] == base[1] && a[2] == base[2] && a[3] == base[3] && a[4] == base[4];
  }

  // ---------------------------------------------------------------------
  // Device lookup: the first device whose usage page and usage both match

  /** A HID device as the driver sees it; `id` stands for object identity. */
  datatype Device = Device(id: nat, usagePage: int, usage: int)

  predicate Matches(d: Device, usagePage: int, usage: int) {
    d.usagePage == usagePage && d.usage == usage
  }

  /** `devices[i]` is the first device in the list that matches. */
  predicate FirstMatchAt(devices: seq<Device>, usagePage: int, usage: int, i: int) {
    0 <= i < |devices| && Matches(devices[i], usagePage, usage) &&
    forall j :: 0 <= j < i ==> !Matches(devices[j], usagePage, usage)
  }

  /** Position of the first matching device, as the `for` loop finds it. */
  function FirstMatch(devices: seq<Device>, usagePage: int, usage: int): (r: Option<nat>)
    ensures r.None? <==> forall i :: 0 <= i < |devices| ==> !Matches(devices[i], usagePage, usage)
    ensures r.Some? ==> FirstMatchAt(devices, usagePage, usage, r.value)
  {
    if devices == [] then None
    else if Matches(devices[0], usagePage, usage) then Some(0)
    else
      match FirstMatch(devices[1..], usagePage, usage)
      case None =>
        assert forall i :: 1 <= i < |devices| ==> devices[i] == devices[1..][i - 1];
        None
      case Some(k) =>
        assert forall j :: 1 <= j < k + 1 ==> devices[j] == devices[1..][j - 1];
        Some(k + 1)
  }

  /** `find_device` over a list: the first device matching both usage fields, else None. */
  function FindMatchingDevice(devices: seq<Device>, usagePage: int, usage: int): (r: Option<Device>)
    ensures r.None? <==> forall i :: 0 <= i < |devices| ==> !Matches(devices[i], usagePage, usage)
    ensures r.Some? ==> exists i :: FirstMatchAt(devices, usagePage, usage, i) && r.value == devices[i]
  {
    match FirstMatch(devices, usagePage, usage)
    case None => None
    case Some(i) => Some(devices[i])
  }
}
