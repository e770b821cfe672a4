/** The bookkeeping of the host-side macro recorder: the recording state
    machine driven by key and click events, the name -> actions dictionary
    (kept in insertion order, as a Python dict is), the listbox labels and
    the name parsed back from a selected line, and the command lines sent
    to the board. Windows, dialogs, listener threads, the serial port, JSON
    and the clock are not part of this model: the clock reading, the user's
    answers and the decoded file contents arrive as parameters. */
module Recorder {
  import opened Wrappers
  import opened Text

  /** `pynput.mouse.Button`. */
  datatype PointerButton = LeftButton | MiddleButton | RightButton | OtherButton(code: int)

  /** The keys the recorder distinguishes; every other key is `OtherKey`. */
  datatype Key = AltLeft | AltRight | OtherKey(code: int)

  /** One recorded action: `{"type": "click", "x", "y", "button", "delay"}`. */
  datatype Action = Click(x: int, y: int, button: string, delay: real)

  /** The error dialogs that stop a command before anything is written. */
  datatype UiError = NotConnected | NoSelection | UnknownMacro

  const FIRST_DELAY: real := 0.05
  const MIN_DELAY: real := 0.02
  const LABEL_SEPARATOR: string := " ("

  // -----------------------------------------------------------------------
  // Recording a click

  /** The button name stored in an action: only the left button is "left". */
  function ButtonName(b: PointerButton): (name: string)
    ensures name == "left" <==> b == LeftButton
    ensures name == "left" || name == "right"
  {
    if b == LeftButton then "left" else "right"
  }

  /** The delay recorded with a click: 0.05 for the first click, otherwise
      the time since the previous click, but never less than 0.02. */
  function ClickDelay(start: Option<real>, now: real): (d: real)
    ensures start.None? ==> d == FIRST_DELAY
    ensures start.Some? ==> MIN_DELAY <= d && now - start.value <= d
    ensures start.Some? ==> d == MIN_DELAY || d == now - start.value
  {
    match start
    case None => FIRST_DELAY
    case Some(t) => if MIN_DELAY >= now - t then MIN_DELAY else now - t
  }

  /** The delays a recording can hold: 0.05 first, then at least 0.02. */
  predicate DelaysOk(actions: seq<Action>) {
    forall i :: 0 <= i < |actions| ==>
      (i == 0 ==> actions[i].delay == FIRST_DELAY) && (i > 0 ==> actions[i].delay >= MIN_DELAY)
  }

  // -----------------------------------------------------------------------
  // The dictionary's key order

  predicate Distinct(names: seq<string>) {
    forall i, j :: 0 <= i < j < |names| ==> names[i] != names[j]
  }

  /** The key order after `d[name] = v`: a new key goes last, an existing
      key keeps its place. */
  function Insert(names: seq<string>, name: string): (r: seq<string>)
    ensures forall n :: n in r <==> n in names || n == name
    ensures Distinct(names) ==> Distinct(r)
    ensures names <= r
  {
    if name in names then names else names + [name]
  }

  lemma DistinctTail(names: seq<string>)
    requires names != [] && Distinct(names)
    ensures Distinct(names[1..]) && names[0] !in names[1..]
  {
    forall k | 0 <= k < |names| - 1 ensures names[1..][k] != names[0] {
      assert names[1..][k] == names[k + 1];
    }
  }

  lemma DistinctCons(x: string, rest: seq<string>)
    requires Distinct(rest) && x !in rest
    ensures Distinct([x] + rest)
  {
    forall i, j | 0 <= i < j < |rest| + 1 ensures ([x] + rest)[i] != ([x] + rest)[j] {
      assert ([x] + rest)[j] == rest[j - 1];
      assert rest[j - 1] in rest;
    }
  }

  /** The key order after `del d[name]`: the others in their old order. */
  function Remove(names: seq<string>, name: string): (r: seq<string>)
    ensures forall n :: n in r <==> n in names && n != name
    ensures Distinct(names) ==> Distinct(r)
    ensures name !in names ==> r == names
    ensures Distinct(names) && name in names ==> |r| == |names| - 1
  {
    if names == [] then []
    else
      var rest := Remove(names[1..], name);
      assert names == [names[0]] + names[1..];
      assert Distinct(names) ==> Distinct(names[1..]) && names[0] !in names[1..] by {
        if Distinct(names) {
          DistinctTail(names);
        }
      }
      if names[0] == name then rest
      else
        assert Distinct(names) ==> Distinct([names[0]] + rest) by {
          if Distinct(names) {
            DistinctCons(names[0], rest);
          }
        }
        [names[0]] + rest
  }

  /** Deleting the key at index `k` of a duplicate-free order leaves the
      keys before it and the keys after it, each in their old order. */
  lemma {:induction false} RemoveAt(names: seq<string>, k: nat)
    requires Distinct(names) && k < |names|
    ensures Remove(names, names[k]) == names[..k] + names[k + 1..]
  {
    var t := names[1..];
    DistinctTail(names);
    if k == 0 {
      assert Remove(names, names[0]) == Remove(t, names[0]);
    } else {
      RemoveAt(t, k - 1);
      assert t[k - 1] == names[k] != names[0];
      assert Remove(names, names[k]) == [names[0]] + Remove(t, names[k]);
      assert names[..k] == [names[0]] + t[..k - 1];
      assert names[k + 1..] == t[k..];
    }
  }

  /** Deleting a key that occurs once leaves the keys before it and the keys
      after it, each in their old order. */
  lemma RemoveKeepsOrder(names: seq<string>, name: string)
    requires Distinct(names) && name in names
    ensures exists k :: 0 <= k < |names| && names[k] == name && Remove(names, name) == names[..k] + names[k + 1..]
  {
    var k :| 0 <= k < |names| && names[k] == name;
    RemoveAt(names, k);
  }

  /** The dictionary after `d.update(pairs)`, one pair at a time. */
  function Merged(macros: map<string, seq<Action>>, pairs: seq<(string, seq<Action>)>)
    : (r: map<string, seq<Action>>)
    ensures forall n :: n in macros ==> n in r
    ensures forall i :: 0 <= i < |pairs| ==> pairs[i].0 in r
    ensures forall n :: n in r ==> n in macros || exists i :: 0 <= i < |pairs| && pairs[i].0 == n
  {
    if pairs == [] then macros
    else
      var init := pairs[..|pairs| - 1];
      var last := pairs[|pairs| - 1];
      assert forall i :: 0 <= i < |init| ==> init[i] == pairs[i];
      Merged(macros, init)[last.0 := last.1]
  }

  /** The key order after `d.update(pairs)`. */
  function MergedNames(names: seq<string>, pairs: seq<(string, seq<Action>)>): (r: seq<string>)
    ensures names <= r
    ensures Distinct(names) ==> Distinct(r)
    ensures forall i :: 0 <= i < |pairs| ==> pairs[i].0 in r
    ensures forall n :: n in r ==> n in names || exists i :: 0 <= i < |pairs| && pairs[i].0 == n
  {
    if pairs == [] then names
    else
      var init := pairs[..|pairs| - 1];
      assert forall i :: 0 <= i < |init| ==> init[i] == pairs[i];
      Insert(MergedNames(names, init), pairs[|pairs| - 1].0)
  }

  /** Merging one more pair is one more `d[name] = v`. */
  lemma MergedStep(names: seq<string>, macros: map<string, seq<Action>>,
                   pairs: seq<(string, seq<Action>)>, i: nat)
    requires i < |pairs|
    ensures Merged(macros, pairs[..i + 1]) == Merged(macros, pairs[..i])[pairs[i].0 := pairs[i].1]
    ensures MergedNames(names, pairs[..i + 1]) == Insert(MergedNames(names, pairs[..i]), pairs[i].0)
  {
    assert pairs[..i + 1][..i] == pairs[..i];
  }

  /** Merging keeps the keys of the dictionary and its key order in step. */
  lemma {:induction false} MergedKeys(names: seq<string>, macros: map<string, seq<Action>>,
                                      pairs: seq<(string, seq<Action>)>)
    requires forall n :: n in macros <==> n in names
    ensures forall n :: n in Merged(macros, pairs) <==> n in MergedNames(names, pairs)
  {
    if pairs != [] {
      MergedKeys(names, macros, pairs[..|pairs| - 1]);
    }
  }

  /** A name that is not loaded keeps its entry, or its absence. */
  lemma {:induction false} MergeKeepsOthers(macros: map<string, seq<Action>>,
                                            pairs: seq<(string, seq<Action>)>, name: string)
    requires forall i :: 0 <= i < |pairs| ==> pairs[i].0 != name
    ensures name in Merged(macros, pairs) <==> name in macros
    ensures name in macros ==> Merged(macros, pairs)[name] == macros[name]
  {
    if pairs != [] {
      MergeKeepsOthers(macros, pairs[..|pairs| - 1], name);
    }
  }

  /** A loaded name gets the actions of its last occurrence in the file. */
  lemma {:induction false} MergeLoadedWins(macros: map<string, seq<Action>>,
                                           pairs: seq<(string, seq<Action>)>, i: int)
    requires 0 <= i < |pairs|
    requires forall j :: i < j < |pairs| ==> pairs[j].0 != pairs[i].0
    ensures pairs[i].0 in Merged(macros, pairs)
    ensures Merged(macros, pairs)[pairs[i].0] == pairs[i].1
  {
    if i < |pairs| - 1 {
      MergeLoadedWins(macros, pairs[..|pairs| - 1], i);
    }
  }

  // -----------------------------------------------------------------------
  // Listbox labels

  /** The listbox line of one macro: `f"{name} ({len(actions)} actions)"`. */
  function Label(name: string, count: nat): (line: string)
    ensures name <= line && |name| + 2 < |line|
    ensures line[|name|..|name| + 2] == LABEL_SEPARATOR
  {
    name + LABEL_SEPARATOR + Decimal(count) + " actions)"
  }

  /** `line.split(' (')[0]`: the text before the first separator. */
  function ParseLabel(line: string): (name: string)
    ensures name <= line
    ensures !Contains(name, LABEL_SEPARATOR)
  {
    Head(line, LABEL_SEPARATOR)
  }

  /** A name without " (" followed by " (": the first separator is the
      appended one, so the cut gives back the whole name. */
  lemma {:induction false} CutAfterName(name: string, rest: string)
    requires !Contains(name, LABEL_SEPARATOR)
    ensures Head(name + LABEL_SEPARATOR + rest, LABEL_SEPARATOR) == name
  {
    var line := name + LABEL_SEPARATOR + rest;
    forall p | 0 <= p < |name| ensures !OccursAt(line, LABEL_SEPARATOR, p) {
      if p + 2 <= |name| {
        assert line[p..p + 2] == name[p..p + 2];
        assert !OccursAt(name, LABEL_SEPARATOR, p);
      } else {
        // `line[p + 1]` is the separator's own space, not its '('.
        assert line[p + 1] == ' ' != LABEL_SEPARATOR[1];
        assert line[p..p + 2][1] == line[p + 1];
      }
    }
    SplitJoined(name, LABEL_SEPARATOR, rest);
  }

  /** A name with " (" followed by anything: the first separator is the
      name's own, so the cut is the name's own cut. */
  lemma {:induction false} CutInsideName(name: string, rest: string)
    requires Contains(name, LABEL_SEPARATOR)
    ensures Head(name + LABEL_SEPARATOR + rest, LABEL_SEPARATOR) == Head(name, LABEL_SEPARATOR)
  {
    var j := |Head(name, LABEL_SEPARATOR)|;
    assert OccursAt(name, LABEL_SEPARATOR, j);
    var tail := name[j + 2..] + LABEL_SEPARATOR + rest;
    var line := name[..j] + LABEL_SEPARATOR + tail;
    assert name + LABEL_SEPARATOR + rest == line by {
      assert name == name[..j] + LABEL_SEPARATOR + name[j + 2..];
    }
    forall p | 0 <= p < j ensures !OccursAt(line, LABEL_SEPARATOR, p) {
      assert !OccursAt(name, LABEL_SEPARATOR, p);
      assert line[p..p + 2] == name[p..p + 2];
    }
    SplitJoined(name[..j], LABEL_SEPARATOR, tail);
  }

  /** A line gives back `name.split(' (')[0]`: the whole name exactly when
      it does not contain " ("; otherwise the part of the name before its
      first " (". */
  lemma LabelRoundTrip(name: string, count: nat)
    ensures ParseLabel(Label(name, count)) == name <==> !Contains(name, LABEL_SEPARATOR)
    ensures ParseLabel(Label(name, count)) <= name
    ensures ParseLabel(Label(name, count)) == Head(name, LABEL_SEPARATOR)
  {
    var rest := Decimal(count) + " actions)";
    assert Label(name, count) == name + LABEL_SEPARATOR + rest;
    if Contains(name, LABEL_SEPARATOR) {
      CutInsideName(name, rest);
    } else {
      CutAfterName(name, rest);
    }
  }

  /** `update_macro_list`: one line per macro, in dictionary order; the
      i-th line parses back to a prefix of the i-th name, and to the whole
      name exactly when it does not contain " (". */
  function Labels(names: seq<string>, macros: map<string, seq<Action>>): (labels: seq<string>)
    requires forall n :: n in names ==> n in macros
    ensures |labels| == |names|
    ensures forall i :: 0 <= i < |names| ==> labels[i] == Label(names[i], |macros[names[i]]|)
    ensures forall i :: 0 <= i < |names| ==> ParseLabel(labels[i]) <= names[i]
    ensures forall i :: 0 <= i < |names| ==>
      (ParseLabel(labels[i]) == names[i] <==> !Contains(names[i], LABEL_SEPARATOR))
  {
    var labels := seq(|names|, i requires 0 <= i < |names| => Label(names[i], |macros[names[i]]|));
    forall i | 0 <= i < |names|
      ensures ParseLabel(labels[i]) <= names[i]
      ensures ParseLabel(labels[i]) == names[i] <==> !Contains(names[i], LABEL_SEPARATOR)
    {
      LabelRoundTrip(names[i], |macros[names[i]]|);
    }
    labels
  }

  /** `get_selected_macro_name`: None without a selection; otherwise the
      name parsed from the selected line, which is the selected macro's name
      exactly when that name does not contain " (", and otherwise only the
      part of it before its first " (". */
  function SelectedName(names: seq<string>, macros: map<string, seq<Action>>, selection: Option<nat>)
    : (r: Option<string>)
    requires forall n :: n in names ==> n in macros
    requires selection.Some? ==> selection.value < |names|
    ensures r.None? <==> selection.None?
    ensures r.Some? ==> r.value <= names[selection.value]
    ensures r.Some? ==> (r.value == names[selection.value] <==> !Contains(names[selection.value], LABEL_SEPARATOR))
    ensures r.Some? ==> r.value == Head(names[selection.value], LABEL_SEPARATOR)
  {
    match selection
    case None => None
    case Some(i) =>
      LabelRoundTrip(names[i], |macros[names[i]]|);
      Some(ParseLabel(Labels(names, macros)[i]))
  }

  /** A name containing " (" can select a different macro: with "a" and
      "a (x" stored, the line of "a (x" is read back as "a". */
  lemma SelectionCanNameAnotherMacro()
    ensures var names := ["a", "a (x"];
      var macros := map["a" := [], "a (x" := []];
      SelectedName(names, macros, Some(1)) == Some("a")
  {
    var line := Label("a (x", 0);
    assert line == "a" + LABEL_SEPARATOR + ("x" + LABEL_SEPARATOR + Decimal(0) + " actions)");
    assert line[0] == 'a';
    assert !OccursAt(line, LABEL_SEPARATOR, 0);
    SplitJoined("a", LABEL_SEPARATOR, "x" + LABEL_SEPARATOR + Decimal(0) + " actions)");
  }

  // -----------------------------------------------------------------------
  // Command lines

  /** `_play_macro`'s command: `PLAY:<name>`, `:LOOP` when looping, newline. */
  function PlayCommand(name: string, loop: bool): (cmd: string)
    ensures |cmd| > 0 && cmd[|cmd| - 1] == '\n'
  {
    "PLAY:" + name + (if loop then ":LOOP" else "") + "\n"
  }

  /** `send_macro_to_pico`'s command: `MACRO_DATA:<name>:<payload>` and a newline. */
  function MacroDataCommand(name: string, payload: string): (cmd: string)
    ensures |cmd| > 0 && cmd[|cmd| - 1] == '\n'
  {
    "MACRO_DATA:" + name + ":" + payload + "\n"
  }

  /** The play command is one line exactly when the name has no newline. */
  lemma PlayCommandOneLine(name: string, loop: bool)
    ensures var cmd := PlayCommand(name, loop);
      Head(cmd, "\n") == cmd[..|cmd| - 1] <==> '\n' !in name
  {
    var body := "PLAY:" + name + (if loop then ":LOOP" else "");
    var cmd := PlayCommand(name, loop);
    assert cmd == body + ['\n'] + [];
    assert cmd[..|cmd| - 1] == body;
    SplitJoinedChar(body, '\n', []);
    assert '\n' in body <==> '\n' in name by {
      if '\n' in name {
        var k :| 0 <= k < |name| && name[k] == '\n';
        assert body[5 + k] == '\n';
      }
    }
  }

  /** After "PLAY:" comes the name, then ":LOOP" when looping; the name is
      the field up to the next ':' exactly when it has no ':' of its own. */
  lemma PlayCommandName(name: string, loop: bool)
    ensures After(PlayCommand(name, loop), ":") == Some(name + (if loop then ":LOOP" else "") + "\n")
    ensures loop ==> (Head(name + ":LOOP\n", ":") == name <==> ':' !in name)
  {
    var tail := name + (if loop then ":LOOP" else "") + "\n";
    assert PlayCommand(name, loop) == "PLAY" + [':'] + tail;
    SplitJoinedChar("PLAY", ':', tail);
    assert name + ":LOOP\n" == name + [':'] + "LOOP\n";
    SplitJoinedChar(name, ':', "LOOP\n");
  }

  /** The upload command: after "MACRO_DATA:" the name is the field up to
      the next ':' exactly when it has no ':' of its own; the rest of the
      line is then the payload, whatever it contains. */
  lemma MacroDataCommandFields(name: string, payload: string)
    ensures var cmd := MacroDataCommand(name, payload);
      After(cmd, ":") == Some(name + ":" + payload + "\n")
    ensures Head(name + ":" + payload + "\n", ":") == name <==> ':' !in name
    ensures ':' !in name ==> After(name + ":" + payload + "\n", ":") == Some(payload + "\n")
  {
    var cmd := MacroDataCommand(name, payload);
    assert cmd == "MACRO_DATA" + ":" + (name + ":" + payload + "\n");
    SplitJoinedChar("MACRO_DATA", ':', name + ":" + payload + "\n");
    assert name + ":" + payload + "\n" == name + [':'] + (payload + "\n");
    SplitJoinedChar(name, ':', payload + "\n");
  }

  /** `_play_macro`: the command to write, or the dialog shown instead. */
  function PlayMacro(connected: bool, names: seq<string>, macros: map<string, seq<Action>>,
                     selection: Option<nat>, loop: bool): (r: Result<string, UiError>)
    requires forall n :: n in names ==> n in macros
    requires selection.Some? ==> selection.value < |names|
    ensures !connected <==> r == Err(NotConnected)
    ensures r == Err(NoSelection) <==>
      connected && (selection.None? || SelectedName(names, macros, selection).value == [])
    ensures r.Ok? ==> r.value == PlayCommand(SelectedName(names, macros, selection).value, loop)
  {
    if !connected then Err(NotConnected)
    else
      match SelectedName(names, macros, selection)
      case None => Err(NoSelection)
      case Some(name) =>
        if name == [] then Err(NoSelection)
        else Ok(PlayCommand(name, loop))
  }

  /** `send_macro_to_pico`: the command to write, or the dialog or logged
      error shown instead; `dumps` stands for `json.dumps`. A parsed name
      that is not a key fails the lookup and nothing is written. */
  function SendMacro(connected: bool, names: seq<string>, macros: map<string, seq<Action>>,
                     selection: Option<nat>, dumps: seq<Action> -> string): (r: Result<string, UiError>)
    requires forall n :: n in names ==> n in macros
    requires selection.Some? ==> selection.value < |names|
    ensures !connected <==> r == Err(NotConnected)
    ensures r == Err(NoSelection) <==>
      connected && (selection.None? || SelectedName(names, macros, selection).value == [])
    ensures r == Err(UnknownMacro) <==>
      connected && selection.Some? && SelectedName(names, macros, selection).value != [] &&
      SelectedName(names, macros, selection).value !in macros
    ensures r.Ok? ==>
      var name := SelectedName(names, macros, selection).value;
      name in macros && r.value == MacroDataCommand(name, dumps(macros[name]))
  {
    if !connected then Err(NotConnected)
    else
      match SelectedName(names, macros, selection)
      case None => Err(NoSelection)
      case Some(name) =>
        if name == [] then Err(NoSelection)
        else if name !in macros then Err(UnknownMacro)
        else Ok(MacroDataCommand(name, dumps(macros[name])))
  }

  // -----------------------------------------------------------------------
  // The recorder's state

  class MacroRecorder {
    var recording: bool
    var altPressed: bool
    var currentMacro: seq<Action>
    var macroStartTime: Option<real>
    var currentMacroName: string
    /** `self.macros`; `names` is its key order. */
    var macros: map<string, seq<Action>>
    var names: seq<string>

    ghost predicate Valid()
      reads this
    {
      Distinct(names) && (forall n :: n in macros <==> n in names) &&
      (macroStartTime.None? <==> currentMacro == []) &&
      DelaysOk(currentMacro)
    }

    constructor ()
      ensures Valid()
      ensures !recording && !altPressed && currentMacro == [] && macroStartTime == None
      ensures currentMacroName == [] && macros == map[] && names == []
    {
      recording := false;
      altPressed := false;
      currentMacro := [];
      macroStartTime := None;
      currentMacroName := "";
      macros := map[];
      names := [];
    }

    /** `on_key_press`: either Alt key sets the flag; other keys do nothing. */
    method OnKeyPress(key: Key)
      requires Valid()
      modifies `altPressed
      ensures Valid()
      ensures altPressed == (key.OtherKey? ==> old(altPressed))
    {
      if key == AltLeft || key == AltRight {
        altPressed := true;
      }
    }

    /** `on_key_release`: either Alt key clears the flag. */
    method OnKeyRelease(key: Key)
      requires Valid()
      modifies `altPressed
      ensures Valid()
      ensures altPressed == (key.OtherKey? && old(altPressed))
    {
      if key == AltLeft || key == AltRight {
        altPressed := false;
      }
    }

    /** `on_mouse_click`: a press while recording with Alt held appends one
        click, timed from the previous one; anything else is ignored. */
    method OnMouseClick(x: int, y: int, button: PointerButton, pressed: bool, now: real)
      requires Valid()
      modifies `currentMacro, `macroStartTime
      ensures Valid()
      ensures recording && altPressed && pressed ==>
        currentMacro == old(currentMacro) +
          [Click(x, y, ButtonName(button), ClickDelay(old(macroStartTime), now))] &&
        macroStartTime == Some(now)
      ensures !(recording && altPressed && pressed) ==>
        currentMacro == old(currentMacro) && macroStartTime == old(macroStartTime)
    {
      if recording && altPressed && pressed {
        var delay := ClickDelay(macroStartTime, now);
        if macroStartTime.None? {
          macroStartTime := Some(now);
        }
        currentMacro := currentMacro + [Click(x, y, ButtonName(button), delay)];
        macroStartTime := Some(now);
      }
    }

    /** `toggle_recording`. Starting needs a name that is not blank after
        stripping and resets the recording; stopping stores a non-empty
        recording under its name, replacing an older macro of that name. */
    method ToggleRecording(entry: string)
      requires Valid()
      modifies `recording, `currentMacroName, `currentMacro, `macroStartTime, `macros, `names
      ensures Valid()
      ensures altPressed == old(altPressed)
      ensures !old(recording) && Strip(entry) == [] ==>
        !recording && currentMacro == old(currentMacro) && macroStartTime == old(macroStartTime) &&
        currentMacroName == old(currentMacroName) && macros == old(macros) && names == old(names)
      ensures !old(recording) && Strip(entry) != [] ==>
        recording && currentMacroName == Strip(entry) && currentMacro == [] &&
        macroStartTime == None && macros == old(macros) && names == old(names)
      ensures old(recording) ==>
        !recording && currentMacro == old(currentMacro) && macroStartTime == old(macroStartTime) &&
        currentMacroName == old(currentMacroName)
      ensures old(recording) && old(currentMacro) != [] ==>
        macros == old(macros)[currentMacroName := currentMacro] &&
        names == Insert(old(names), currentMacroName)
      ensures old(recording) && old(currentMacro) == [] ==>
        macros == old(macros) && names == old(names)
    {
      if !recording {
        var name := Strip(entry);
        if name != [] {
          StartRecording(name);
        }
      } else {
        StopRecording();
      }
    }

    /** The starting half of `toggle_recording`, once the name is accepted. */
    method StartRecording(name: string)
      requires Valid()
      modifies `currentMacroName, `currentMacro, `macroStartTime, `recording
      ensures Valid()
      ensures recording && currentMacroName == name && currentMacro == [] && macroStartTime == None
    {
      currentMacroName := name;
      currentMacro := [];
      macroStartTime := None;
      recording := true;
    }

    /** The stopping half of `toggle_recording`. */
    method StopRecording()
      requires Valid()
      modifies `recording, `macros, `names
      ensures Valid()
      ensures !recording
      ensures currentMacro != [] ==>
        macros == old(macros)[currentMacroName := currentMacro] && names == Insert(old(names), currentMacroName)
      ensures currentMacro == [] ==> macros == old(macros) && names == old(names)
    {
      recording := false;
      if currentMacro != [] {
        macros := macros[currentMacroName := currentMacro];
        names := Insert(names, currentMacroName);
      }
    }

    /** `del self.macros[name]` for a stored key. */
    method Forget(name: string)
      requires Valid() && name in macros
      modifies `macros, `names
      ensures Valid()
      ensures macros == old(macros) - {name} && names == Remove(old(names), name)
    {
      macros := macros - {name};
      names := Remove(names, name);
    }

    /** `delete_macro`: with a selected, non-empty name and the user's
        confirmation, that key is removed; a parsed name that is not a key
        fails the deletion and nothing changes. */
    method DeleteMacro(selection: Option<nat>, confirmed: bool)
      requires Valid()
      requires selection.Some? ==> selection.value < |names|
      modifies `macros, `names
      ensures Valid()
      ensures var name := SelectedName(old(names), old(macros), selection);
        if name.Some? && name.value != [] && confirmed && name.value in old(macros) then
          macros == old(macros) - {name.value} && names == Remove(old(names), name.value)
        else
          macros == old(macros) && names == old(names)
    {
      var name := SelectedName(names, macros, selection);
      if name.None? || name.value == [] {
        return;
      }
      if confirmed && name.value in macros {
        Forget(name.value);
      }
    }

    /** `load_macros`: the decoded file, or None when no file was chosen or
        it could not be read, merged key by key into the dictionary. */
    method LoadMacros(loaded: Option<seq<(string, seq<Action>)>>)
      requires Valid()
      modifies `macros, `names
      ensures Valid()
      ensures loaded.None? ==> macros == old(macros) && names == old(names)
      ensures loaded.Some? ==>
        macros == Merged(old(macros), loaded.value) && names == MergedNames(old(names), loaded.value)
    {
      if loaded.None? {
        return;
      }
      var pairs := loaded.value;
      var i := 0;
      while i < |pairs|
        invariant 0 <= i <= |pairs|
        invariant macros == Merged(old(macros), pairs[..i])
        invariant names == MergedNames(old(names), pairs[..i])
        invariant Valid()
      {
        MergedStep(old(names), old(macros), pairs, i);
        macros := macros[pairs[i].0 := pairs[i].1];
        names := Insert(names, pairs[i].0);
        i := i + 1;
      }
      assert pairs[..|pairs|] == pairs;
    }
  }
}
