# Pico2 absolute mouse and macro recorder, modelled in Dafny

The system is a USB absolute-mouse macro tool. A microcontroller poses as a
HID mouse and reports a six-byte buffer:

    [buttons, x_lo, x_hi, y_lo, y_hi, wheel]

- `buttons` is a bit set: LEFT = 1, RIGHT = 2, MIDDLE = 4.
- The position is absolute. Each axis is in 0..32767, little-endian.
- The wheel is a signed byte.

A desktop recorder captures Alt+clicks into named macros. It shows the
macros in a list and builds the command lines it sends to the board over a
serial port.

The model has one module per source file, plus three shared modules.

Shared modules:

- `Wrappers` holds `Option` and `Result`.
- `Hid` holds the parts the three mouse drivers have in common:
  - the report layout;
  - the clamping helpers `_limit_coord` and `_limit`;
  - the little-endian split;
  - the wheel decomposition loop, as the chunk sequence `WheelChunks`;
  - the first-match `find_device` search.

  `_limit_coord` and `_limit` appear in both driver files. The package
  version first applies `int()` to its argument; the module version does
  not. On integers the two versions are equal, so each is defined once
  here, on integers.
- `Text` holds the Python string operations the recorder uses: `strip()`,
  `split(sep)[0]` and `str(n)`. It also holds the tail after the first
  separator. The recorder never takes that tail; the lemmas about its
  command lines use it to say how a receiver that splits a line at ':'
  reads the fields.

Per-file modules:

- `AbsoluteMousePackage` models `lib/absolute_mouse/__init__.py` (class `Mouse`).
- `AbsoluteMouseModule` models `lib/absolute_mouse.py` (`find_device` and class `AbsoluteMouse`).
- `Firmware` models `code.py` (`pixel_to_absolute`, `find_device` and the simplified `AbsoluteMouse`).
- `Recorder` models the state of `macro_recorder.py` (class `MacroRecorder`).

Each driver is a class. It has:

- the report as a six-byte `array<bv8>` that its methods change in place;
- a ghost log `sent` of every report handed to `send_report`.

Every driver contract says:

- which reports were sent, in which order;
- what the buffer holds afterwards.

So the contracts show how the three drivers differ:

- `Mouse` keeps the position on button reports. `AbsoluteMouse` in
  `lib/absolute_mouse.py` zeroes it through `_send_no_move`.
- `Mouse.move` sends the coordinates before the wheel steps.
  `AbsoluteMouse.move_to` sends them after.
- `Mouse.move` keeps an omitted axis. It sends no coordinate report when
  both axes are omitted.
- The firmware's `move_to` also clears the buttons and the wheel. With no
  device found, it does nothing.

The recorder keeps its macro dictionary as a map plus the list of its keys in
insertion order, because the listbox shows them in that order.

## Model

| member | source | states |
|---|---|---|
| Hid.LimitCoord | lib/absolute_mouse/__init__.py:152-154 | `_limit_coord` (equal on integers to lib/absolute_mouse.py:161-163): the result is in 0..32767; in-range input is unchanged; below 0 gives 0 and above 32767 gives 32767 |
| Hid.Limit | lib/absolute_mouse/__init__.py:148-150 | `_limit` (equal on integers to lib/absolute_mouse.py:157-159): the result is in -127..127; in-range input is unchanged; beyond either end gives that end |
| Hid.ReleaseAfterPress | lib/absolute_mouse/__init__.py:105-106 | releasing the buttons just pressed gives `old & ~b`: other buttons keep their state from before the press |
| Hid.Le16RoundTrip | lib/absolute_mouse/__init__.py:132-137 | the two bytes `struct.pack("<H", v)` writes (also `to_bytes(2, 'little')` at lib/absolute_mouse.py:141-142) are v mod 256 and v div 256, and they read back as v |
| Hid.WheelByte | lib/absolute_mouse/__init__.py:144 | `c & 0xFF` is c mod 256, and the host reads it back as c for every step in -128..127 |
| Hid.SetX | lib/absolute_mouse/__init__.py:132-134 | the written report has X equal to the value, high byte below 0x80, and bytes 0 and 3-5 unchanged |
| Hid.SetY | lib/absolute_mouse/__init__.py:135-137 | the written report has Y equal to the value, high byte below 0x80, and bytes 0-2 and 5 unchanged |
| Hid.SetWheel | lib/absolute_mouse/__init__.py:144 | the written report reads back the wheel step, and bytes 0-4 are unchanged |
| Hid.Placed | lib/absolute_mouse.py:138-146 | both axes are clamped and written: the report is well formed, X and Y are the clamped values, and bytes 0 and 5 are unchanged |
| Hid.WellFormedRange | lib/absolute_mouse.py:138-146 | a report has both high bytes below 0x80 exactly when both positions are at most 32767 |
| Hid.WheelChunks | lib/absolute_mouse/__init__.py:142-146 | every step the wheel loop sends is nonzero and in -127..127 |
| Hid.WheelChunksSum | lib/absolute_mouse/__init__.py:142-146 | the steps add up to the requested wheel amount |
| Hid.WheelChunksCount | lib/absolute_mouse/__init__.py:142-146 | the loop sends ceil(\|wheel\| / 127) reports |
| Hid.WheelChunksFullSteps | lib/absolute_mouse/__init__.py:142-146 | every step but the last is a full 127 in the wheel's direction |
| Hid.WheelReports | lib/absolute_mouse/__init__.py:142-146 | one report per step; each keeps bytes 0-4 of the buffer and carries its step in byte 5 |
| Hid.AfterWheel | lib/absolute_mouse/__init__.py:144-146 | after the loop, byte 5 holds the last step and is not reset; with no steps the buffer is unchanged |
| Hid.WheelStep | lib/absolute_mouse/__init__.py:142-146 | one turn of the wheel loop sends the next chunk: the chunks sent so far grow by `_limit(wheel)`, the log by that step's report, and the buffer becomes that report |
| Hid.WheelReportsWellFormed | lib/absolute_mouse/__init__.py:142-146 | wheel reports keep the position, so they stay well formed |
| Hid.FirstMatch | lib/absolute_mouse.py:19-22 | None exactly when no device matches both usage fields; otherwise the index of the first match |
| Hid.FindMatchingDevice | code.py:35-40 | `find_device` over a list: None exactly when nothing matches; otherwise the first device matching both usage page and usage |
| AbsoluteMousePackage.Positioned | lib/absolute_mouse/__init__.py:131-137 | a given axis is clamped and written; an omitted axis keeps its bytes; bytes 0 and 5 are never touched |
| AbsoluteMousePackage.Mouse.constructor | lib/absolute_mouse/__init__.py:42-57 | a zeroed six-byte buffer and nothing sent |
| AbsoluteMousePackage.Mouse.SendReport | lib/absolute_mouse/__init__.py:74 | `send_report(self.report)`: a snapshot of the buffer is appended to the log, and the buffer is unchanged |
| AbsoluteMousePackage.Mouse.Press | lib/absolute_mouse/__init__.py:59-74 | byte 0 becomes `old \| b`, bytes 1-5 are unchanged, and exactly that report is sent |
| AbsoluteMousePackage.Mouse.Release | lib/absolute_mouse/__init__.py:76-83 | byte 0 becomes `old & ~b`, bytes 1-5 are unchanged, and exactly that report is sent |
| AbsoluteMousePackage.Mouse.ReleaseAll | lib/absolute_mouse/__init__.py:85-88 | byte 0 becomes 0, bytes 1-5 are unchanged, and one report is sent |
| AbsoluteMousePackage.Mouse.Click | lib/absolute_mouse/__init__.py:90-106 | exactly two reports, with byte 0 = `old \| b` then `old & ~b`; the buffer ends as the second |
| AbsoluteMousePackage.Mouse.Move | lib/absolute_mouse/__init__.py:108-146 | one coordinate report exactly when an axis is given, sent before all wheel-step reports; the final buffer keeps the last step |
| AbsoluteMousePackage.Mouse.WritePosition | lib/absolute_mouse/__init__.py:131-137 | the buffer becomes the positioned report |
| AbsoluteMousePackage.Mouse.SendStep | lib/absolute_mouse/__init__.py:144-145 | byte 5 becomes the step's two's-complement byte, the other bytes are unchanged, and exactly that report is sent |
| AbsoluteMousePackage.Mouse.SendWheel | lib/absolute_mouse/__init__.py:141-146 | the loop sends exactly the wheel-step reports, in order, and leaves the last step in byte 5 |
| AbsoluteMouseModule.FindDevice | lib/absolute_mouse.py:15-22 | a single device counts as a one-element list; the result is the first device matching both usage fields, else None |
| AbsoluteMouseModule.NoMove | lib/absolute_mouse.py:149-155 | bytes 1-4 are zeroed, so the position is (0, 0); buttons and wheel are kept |
| AbsoluteMouseModule.AbsoluteMouse.constructor | lib/absolute_mouse.py:34-60 | the found device, a zeroed buffer, and exactly one probe report sent |
| AbsoluteMouseModule.AbsoluteMouse.SendReport | lib/absolute_mouse.py:155 | `send_report(self.report)`: a snapshot of the buffer is appended to the log, and the buffer is unchanged |
| AbsoluteMouseModule.AbsoluteMouse.SendNoMove | lib/absolute_mouse.py:149-155 | the buffer becomes the no-move report, and it is sent |
| AbsoluteMouseModule.AbsoluteMouse.Press | lib/absolute_mouse.py:62-77 | byte 0 becomes `old \| b`, the position becomes (0, 0), and one report is sent |
| AbsoluteMouseModule.AbsoluteMouse.Release | lib/absolute_mouse.py:79-86 | byte 0 becomes `old & ~b`, the position becomes (0, 0), and one report is sent |
| AbsoluteMouseModule.AbsoluteMouse.ReleaseAll | lib/absolute_mouse.py:88-91 | byte 0 becomes 0, the position becomes (0, 0), and one report is sent |
| AbsoluteMouseModule.AbsoluteMouse.Click | lib/absolute_mouse.py:93-109 | two reports at position (0, 0), with byte 0 = `old \| b` then `old & ~b` |
| AbsoluteMouseModule.AbsoluteMouse.MoveTo | lib/absolute_mouse.py:111-147 | the wheel-step reports first, then always exactly one report at the clamped (x, y); byte 0 is untouched; byte 5 changes only in the wheel loop |
| AbsoluteMouseModule.AbsoluteMouse.SendStep | lib/absolute_mouse.py:133-134 | byte 5 becomes the step's two's-complement byte, the other bytes are unchanged, and exactly that report is sent |
| AbsoluteMouseModule.AbsoluteMouse.SendWheel | lib/absolute_mouse.py:130-135 | the loop sends exactly the wheel-step reports and leaves the last step in byte 5 |
| Firmware.TruncDiv | code.py:26-27 | `int()` of an exact quotient: truncation toward zero (\|q\|·\|b\| ≤ \|a\| < (\|q\|+1)·\|b\|), and a nonzero result is positive exactly when a and b have the same sign |
| Firmware.ScaleToAbsolute | code.py:26-31 | one axis of `pixel_to_absolute` lies in 0..32767 |
| Firmware.PixelToAbsolute | code.py:23-33 | both components are in 0..32767, each scaled by its own screen dimension |
| Firmware.ScaleIsFloor | code.py:26-27 | on the screen, the result is the largest a with a·size ≤ pixel·32767: rounded down, not to the nearest |
| Firmware.ScaleMonotonic | code.py:26-31 | one axis never decreases as the pixel grows |
| Firmware.PixelToAbsoluteMonotonic | code.py:26-31 | non-decreasing in pixel_x and in pixel_y independently |
| Firmware.PixelToAbsoluteCorners | code.py:26-31 | (0, 0) maps to (0, 0); (w, h) maps to (32767, 32767); any px ≥ w or py ≥ h maps to 32767 on that axis |
| Firmware.PixelToAbsoluteTruncates | code.py:26-27 | pixel (1, 1) on 2560x1440 maps to (12, 22), although 12.8 is nearer to 13 |
| Firmware.MoveReport | code.py:73-86 | the move report: byte 0 = 0, byte 5 = 0, and the clamped x and y little-endian |
| Firmware.AbsoluteMouse.constructor | code.py:50-65 | the device is the first match; one probe report is sent only when a device was found |
| Firmware.AbsoluteMouse.SendReport | code.py:120-123 | a report is sent only when a device was found |
| Firmware.AbsoluteMouse.MoveTo | code.py:67-88 | without a device nothing changes; otherwise the buffer becomes the move report and exactly it is sent |
| Firmware.AbsoluteMouse.MoveToPixel | code.py:90-94 | a move to `pixel_to_absolute` of the pixel on the configured screen |
| Firmware.AbsoluteMouse.LeftClick | code.py:96-112 | without a device nothing changes; otherwise two reports, with byte 0 = 1 then 0 and bytes 1-5 as before |
| Firmware.AbsoluteMouse.ClickAtPixel | code.py:114-118 | three reports in order: the move report, the same report with LEFT pressed, then the move report again |
| Text.Strip | macro_recorder.py:264 | `strip()`: empty exactly when the entry is all whitespace; otherwise no whitespace at either end, and only whitespace was removed around it |
| Text.IndexOf | macro_recorder.py:307 | None exactly when the separator does not occur; otherwise its first occurrence |
| Text.Head | macro_recorder.py:307 | `split(sep)[0]`: a prefix without the separator, ending where the separator first occurs; the whole string exactly when the separator does not occur |
| Text.SplitJoined | macro_recorder.py:307 | joining a, sep, b where sep first occurs after a splits back into a and b |
| Text.Decimal | macro_recorder.py:298 | `str(n)` is a nonempty string of digits |
| Text.DecimalValue | macro_recorder.py:298 | the digits of `str(n)` spell n in base ten, most significant first, with no leading zero except for n = 0 itself |
| Recorder.ButtonName | macro_recorder.py:236 | "left" exactly for the left button, "right" for every other button |
| Recorder.ClickDelay | macro_recorder.py:229-234 | 0.05 for the first click; afterwards `max(0.02, now - start)` |
| Recorder.Insert | macro_recorder.py:285 | `d[name] = v` key order: a new key goes last, an existing one keeps its place; keys stay distinct |
| Recorder.Remove | macro_recorder.py:407 | `del d[name]` on the key list: exactly that key is removed, the other keys are kept and stay distinct, and a missing key changes nothing (their order: `RemoveKeepsOrder`) |
| Recorder.RemoveAt | macro_recorder.py:407 | deleting the key at index k leaves the keys before it and after it, each in their old order |
| Recorder.RemoveKeepsOrder | macro_recorder.py:407 | deleting a stored key leaves the keys before it and after it, each in their old order |
| Recorder.Merged | macro_recorder.py:442 | `d.update(pairs)`: every old key and every loaded name is a key afterwards, and no other key appears |
| Recorder.MergedNames | macro_recorder.py:442 | the key order after `update`: the old order is a prefix, loaded names are added, no other name appears, and keys stay distinct |
| Recorder.MergedStep | macro_recorder.py:442 | merging one more pair is one more `d[name] = v`, on the dictionary and on its key order |
| Recorder.MergedKeys | macro_recorder.py:442 | after `update`, the dictionary's keys and its key order still agree |
| Recorder.MergeKeepsOthers | macro_recorder.py:442 | a name that is not loaded keeps its entry, or stays absent |
| Recorder.MergeLoadedWins | macro_recorder.py:442 | a loaded name takes the actions of its last occurrence, overwriting the old entry |
| Recorder.Label | macro_recorder.py:298 | `f"{name} ({count} actions)"`: the name, then " (" |
| Recorder.ParseLabel | macro_recorder.py:307 | the parsed name is a prefix of the line and never contains " (" |
| Recorder.LabelRoundTrip | macro_recorder.py:298-307 | parsing a line gives `name.split(' (')[0]`: the whole name exactly when it does not contain " (", otherwise the part before its first " (" |
| Recorder.CutAfterName | macro_recorder.py:298-307 | a name without " (" followed by " (" and anything is cut back to the whole name |
| Recorder.CutInsideName | macro_recorder.py:298-307 | a name with " (" followed by " (" and anything is cut where the name's own first " (" is |
| Recorder.Labels | macro_recorder.py:294-298 | one line per macro, in dictionary order; parsing line i gives a prefix of name i, and gives name i itself exactly when that name has no " (" |
| Recorder.SelectedName | macro_recorder.py:300-307 | None exactly without a selection; otherwise the selected macro's name up to its first " (": the whole name exactly when it has no " (" |
| Recorder.SelectionCanNameAnotherMacro | macro_recorder.py:300-307 | with "a" and "a (x" stored, selecting "a (x" yields "a", another stored macro |
| Recorder.PlayCommand | macro_recorder.py:358-361 | the play command is a line ending in a newline |
| Recorder.PlayCommandOneLine | macro_recorder.py:358-361 | the play command is a single line exactly when the name has no newline |
| Recorder.PlayCommandName | macro_recorder.py:358-361 | after "PLAY:" come the name and ":LOOP" when looping; with looping, the name is the next field exactly when it has no ':' |
| Recorder.MacroDataCommand | macro_recorder.py:321-322 | the upload command is a line ending in a newline |
| Recorder.MacroDataCommandFields | macro_recorder.py:321-322 | after "MACRO_DATA:", the name is the next field exactly when it has no ':'; then the rest is the payload whatever it contains |
| Recorder.PlayMacro | macro_recorder.py:346-361 | not connected, then no (or empty) selection, are refused in that order; otherwise the play command for the selected name |
| Recorder.SendMacro | macro_recorder.py:309-322 | the same refusals, plus a parsed name that is not a key; otherwise the upload command with that macro's payload |
| Recorder.MacroRecorder.constructor | macro_recorder.py:23-31 | not recording, Alt up, no current macro, no start time, no macros |
| Recorder.MacroRecorder.OnKeyPress | macro_recorder.py:211-214 | either Alt key sets the flag; other keys leave it unchanged |
| Recorder.MacroRecorder.OnKeyRelease | macro_recorder.py:218-221 | either Alt key clears the flag; other keys leave it unchanged |
| Recorder.MacroRecorder.OnMouseClick | macro_recorder.py:225-259 | exactly one action is appended iff recording, Alt held and pressed, and the start time becomes now; otherwise nothing changes; the first delay is 0.05 and later ones are at least 0.02 (kept by `Valid`) |
| Recorder.MacroRecorder.ToggleRecording | macro_recorder.py:261-292 | a blank name changes nothing; starting resets the recording under the stripped name; stopping stores a non-empty recording, replacing any old entry, and an empty one changes nothing |
| Recorder.MacroRecorder.StartRecording | macro_recorder.py:269-272 | recording under the given name, with an empty macro and no start time |
| Recorder.MacroRecorder.StopRecording | macro_recorder.py:280-292 | recording stops; a non-empty macro is stored under its name, replacing any old entry, and an empty one changes nothing |
| Recorder.MacroRecorder.Forget | macro_recorder.py:407 | `del self.macros[name]` for a stored key: that key leaves the dictionary and its key order, and nothing else changes |
| Recorder.MacroRecorder.DeleteMacro | macro_recorder.py:399-409 | with a selected non-empty name, confirmation and an existing key, exactly that key is removed; otherwise nothing changes |
| Recorder.MacroRecorder.LoadMacros | macro_recorder.py:430-446 | the loaded pairs are merged key by key into the dictionary and its key order; with no file nothing changes |

## Left out

- Device I/O: `usb_hid`, `send_report` and the LED on `board`/`digitalio`. `send_report` is modelled as appending a copy of the buffer to the ghost log `sent`.
- `adafruit_hid.find_device`, used by the `Mouse` constructor, is not part of this model. `AbsoluteMousePackage.Mouse.constructor` takes the device it found.
- `time.sleep` calls, and the constructors' retry of the probe after an `OSError`: they are a retry around a foreign call.
- The demo script at the end of `code.py`: it only prints, blinks and sequences calls.
- `usb_hid.devices` as the default device list. The device list is a parameter.
- `AbsoluteMouseModule.AbsoluteMouse.constructor` requires a device to be found. Without one, the source fails in the probe send on `None`.
- `Firmware.AbsoluteMouse.constructor`: without a device the source never creates `self.report`. The model allocates the buffer anyway. No method touches it then, so this is not observable.
- Button masks are bytes (`bv8`). In the source, a press whose result leaves 0..255 raises `ValueError`; the model does not cover that error.
- Hid.LimitCoord: integer input only. The package applies `int()` to a float coordinate (lib/absolute_mouse/__init__.py:154); the module clamps the float as it is (lib/absolute_mouse.py:163). Neither float path is modelled.
- Hid.Limit: integer input only. With a fractional wheel the two files behave differently, and neither is modelled. In the package, `int(0.5)` is 0, so `move(wheel=0.5)` never leaves its loop and sends reports forever (lib/absolute_mouse/__init__.py:142-146, 150). In the module, `_limit` keeps 0.5, and `0.5 & 0xFF` raises `TypeError` (lib/absolute_mouse.py:133).
- Firmware.PixelToAbsolute: the float computation `int(pixel / size * 32767)` is modelled as the exact rational truncated toward zero. Float rounding can differ at exact-integer boundaries. The code truncates with `int()` (see `Firmware.PixelToAbsoluteTruncates`).
- Firmware.PixelToAbsolute: requires a nonzero screen width and height. With a zero size the source raises `ZeroDivisionError` (code.py:26-27); the model does not cover that error.
- Recorder.ClickDelay: the delays are Python floats; the model uses exact `real` values (macro_recorder.py:229-234), so float rounding of `now - start` is not modelled.
- Host plumbing in `macro_recorder.py` is not modelled. That covers:
  - tkinter widgets, message boxes and `log_message`;
  - pynput listener threads;
  - COM-port listing, connecting, disconnecting and the PING/PONG handshake;
  - `stop_macro`, which only writes a fixed `STOP` line;
  - `save_macros` and its file dialog;
  - `json.dump`/`json.load` and `datetime`.
- Inputs that stand in for the host plumbing:
  - `time.time()` is the `now` parameter;
  - the user's confirmation is the `confirmed` parameter;
  - the listbox selection is an optional index;
  - the decoded file is an optional list of (name, actions) pairs, and None stands for a cancelled dialog or a read error;
  - `json.dumps` is the `dumps` function parameter.
- Recorder.PlayMacro and Recorder.SendMacro return the command line instead of writing it to the port. The board's answer, and the "serial port not available" branch, are not modelled.
- Recorder.MacroRecorder.DeleteMacro: a parsed name that is not a key raises `KeyError` in the source before anything changes. The model leaves the state unchanged.
- The device-side command protocol and playback engine are not part of this model: no modelled file implements them.
