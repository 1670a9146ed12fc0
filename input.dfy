/**
 * The line editor (Input.ReadLine): key events drive an edit buffer and an
 * insertion point, Up and Down splice history entries into the buffer, Enter
 * submits and records the line, Ctrl+C cancels.
 *
 * Step and Run are the specification: one key, and a sequence of keys, as
 * pure transitions on an Editor value that carries the history's abstract
 * state. ReadLine is the imperative loop, proved to follow Run.
 */
module Input {
  import opened Text
  import opened History
  import Display

  datatype Option<T> = None | Some(value: T)

  /** The console keys ReadLine distinguishes; every other key is Other. */
  datatype ConsoleKey =
    | Enter | UpArrow | DownArrow | LeftArrow | RightArrow | Home | End
    | Backspace | Delete | C | Other

  datatype Modifiers = Modifiers(alt: bool, shift: bool, control: bool)

  /** Console.ReadKey's result: the key, the character it typed, the modifiers held. */
  datatype KeyInfo = KeyInfo(key: ConsoleKey, keyChar: char, modifiers: Modifiers)

  /** ConsoleModifiers.Control alone. */
  const ControlOnly := Modifiers(false, false, true)

  /** The edit buffer, the insertion point, and the history being browsed. */
  datatype Editor = Editor(buffer: string, cursor: int, history: State)

  /** Either still editing, or ReadLine has returned a line. */
  datatype Outcome = Editing(ed: Editor) | Returned(line: string, history: State)

  predicate EditorValid(ed: Editor)
  {
    0 <= ed.cursor <= |ed.buffer| && ValidState(ed.history)
  }

  /** Ctrl+C: the C key with exactly the Control modifier. */
  predicate IsCancel(k: KeyInfo)
  {
    k.key == C && k.modifiers == ControlOnly
  }

  /** A key that reaches the default branch and types a character there. */
  predicate Types(k: KeyInfo)
  {
    (k.key == Other || (k.key == C && !IsCancel(k))) && !IsControl(k.keyChar)
  }

  /** What one key does to the editor. */
  function Step(ed: Editor, k: KeyInfo): (o: Outcome)
    requires EditorValid(ed)
    ensures o.Editing? ==> EditorValid(o.ed)
    ensures o.Returned? ==> ValidState(o.history)
  {
    var Editor(buffer, cursor, h) := ed;
    match k.key
    case Enter =>
      Returned(buffer, if !IsNullOrWhiteSpace(buffer) then Add(h, buffer) else h)
    case UpArrow =>
      var b := Previous(h);
      Editing(Editor(b.entry, |b.entry|, b.after))
    case DownArrow =>
      var b := Next(h);
      Editing(Editor(b.entry, |b.entry|, b.after))
    case LeftArrow =>
      Editing(if cursor > 0 then Editor(buffer, cursor - 1, h) else ed)
    case RightArrow =>
      Editing(if cursor < |buffer| then Editor(buffer, cursor + 1, h) else ed)
    case Home =>
      Editing(Editor(buffer, 0, h))
    case End =>
      Editing(Editor(buffer, |buffer|, h))
    case Backspace =>
      Editing(if cursor > 0 then Editor(buffer[..cursor - 1] + buffer[cursor..], cursor - 1, h) else ed)
    case Delete =>
      Editing(if cursor < |buffer| then Editor(buffer[..cursor] + buffer[cursor + 1..], cursor, h) else ed)
    case _ =>
      if IsCancel(k) then Returned("", h)
      else if !IsControl(k.keyChar) then
        Editing(Editor(buffer[..cursor] + [k.keyChar] + buffer[cursor..], cursor + 1, h))
      else Editing(ed)
  }

  /** Keys applied one after another until one of them makes ReadLine return. */
  function Run(ed: Editor, keys: seq<KeyInfo>): (o: Outcome)
    requires EditorValid(ed)
    ensures o.Editing? ==> EditorValid(o.ed)
    ensures o.Returned? ==> ValidState(o.history)
    decreases |keys|
  {
    if keys == [] then Editing(ed)
    else
      match Step(ed, keys[0])
      case Editing(next) => Run(next, keys[1..])
      case Returned(line, h) => Returned(line, h)
  }

  /** A call of ReadLine: the history is reset to live, the buffer starts empty.
      The entries change only by the returned line being added, when accepted. */
  function Session(h: State, keys: seq<KeyInfo>): (o: Outcome)
    requires ValidState(h)
    ensures o.Editing? ==> o.ed.history.entries == h.entries
    ensures o.Returned? ==>
      o.history.entries == if Accepts(h.entries, o.line) then Add(h, o.line).entries else h.entries
  {
    RunOnlyRecordsReturnedLine(Editor("", 0, Live(h)), keys);
    AddEntriesIgnoreCursor(Live(h), h, if Run(Editor("", 0, Live(h)), keys).Returned?
      then Run(Editor("", 0, Live(h)), keys).line else "");
    Run(Editor("", 0, Live(h)), keys)
  }

  /** Input.ReadLine over a finite sequence of key events. It returns the line
      (Some) once Enter or Ctrl+C is read; None if the keys run out first,
      where the console would wait for another key. */
  method ReadLine(prompt: string, history: CommandHistory, keys: seq<KeyInfo>) returns (result: Option<string>)
    requires history.Valid()
    modifies history
    ensures history.Valid()
    ensures match Session(old(history.Model()), keys)
      case Returned(line, h) => result == Some(line) && history.Model() == h
      case Editing(ed) => result == None && history.Model() == ed.history
  {
    ghost var start := Editor("", 0, Live(history.Model()));
    history.Reset();
    var input: string := "";
    var cursorPosition := 0;
    var i := 0;
    while i < |keys|
      invariant 0 <= i <= |keys|
      invariant history.Valid() && 0 <= cursorPosition <= |input|
      invariant Run(start, keys) == Run(Editor(input, cursorPosition, history.Model()), keys[i..])
      decreases |keys| - i
    {
      var keyInfo := keys[i];
      ghost var ed := Editor(input, cursorPosition, history.Model());
      assert keys[i..][0] == keyInfo && keys[i..][1..] == keys[i + 1..];
      i := i + 1;
      match keyInfo.key {
        case Enter =>
          var line := input;
          if !IsNullOrWhiteSpace(line) {
            history.AddCommand(line);
          }
          return Some(line);
        case UpArrow =>
          var previousCommand := history.GetPrevious();
          input := previousCommand;
          cursorPosition := |input|;
        case DownArrow =>
          var nextCommand := history.GetNext();
          input := nextCommand;
          cursorPosition := |input|;
        case LeftArrow =>
          if cursorPosition > 0 {
            cursorPosition := cursorPosition - 1;
          }
        case RightArrow =>
          if cursorPosition < |input| {
            cursorPosition := cursorPosition + 1;
          }
        case Home =>
          cursorPosition := 0;
        case End =>
          cursorPosition := |input|;
        case Backspace =>
          if cursorPosition > 0 {
            input := input[..cursorPosition - 1] + input[cursorPosition..];
            cursorPosition := cursorPosition - 1;
          }
        case Delete =>
          if cursorPosition < |input| {
            input := input[..cursorPosition] + input[cursorPosition + 1..];
          }
        case _ =>
          if keyInfo.key == C && keyInfo.modifiers == ControlOnly {
            return Some("");
          }
          if !IsControl(keyInfo.keyChar) {
            input := input[..cursorPosition] + [keyInfo.keyChar] + input[cursorPosition..];
            cursorPosition := cursorPosition + 1;
          }
      }
      assert Step(ed, keyInfo) == Editing(Editor(input, cursorPosition, history.Model()));
    }
    return None;
  }

  // ---------------------------------------------------------------- lemmas

  /** Left, Right, Home and End only move the insertion point, and keep it in range. */
  lemma MovementKeepsText(ed: Editor, k: KeyInfo)
    requires EditorValid(ed)
    requires k.key in {LeftArrow, RightArrow, Home, End}
    ensures var o := Step(ed, k);
      o.Editing? && o.ed.buffer == ed.buffer && o.ed.history == ed.history &&
      o.ed.cursor == match k.key
        case LeftArrow => if ed.cursor > 0 then ed.cursor - 1 else 0
        case RightArrow => if ed.cursor < |ed.buffer| then ed.cursor + 1 else |ed.buffer|
        case Home => 0
        case _ => |ed.buffer|
  {
  }

  /** Backspace deletes the character before the insertion point and moves it
      back; at the start of the line it does nothing. */
  lemma BackspaceDeletesBefore(ed: Editor, k: KeyInfo)
    requires EditorValid(ed) && k.key == Backspace
    ensures ed.cursor == 0 ==> Step(ed, k) == Editing(ed)
    ensures ed.cursor > 0 ==>
      var e := Step(ed, k).ed;
      Step(ed, k).Editing? && e.cursor == ed.cursor - 1 && e.history == ed.history &&
      e.buffer[..e.cursor] + [ed.buffer[e.cursor]] + e.buffer[e.cursor..] == ed.buffer
  {
  }

  /** Delete deletes the character at the insertion point, which stays put; at
      the end of the line it does nothing. */
  lemma DeleteDeletesAt(ed: Editor, k: KeyInfo)
    requires EditorValid(ed) && k.key == Delete
    ensures ed.cursor == |ed.buffer| ==> Step(ed, k) == Editing(ed)
    ensures ed.cursor < |ed.buffer| ==>
      var e := Step(ed, k).ed;
      Step(ed, k).Editing? && e.cursor == ed.cursor && e.history == ed.history &&
      e.buffer[..e.cursor] + [ed.buffer[e.cursor]] + e.buffer[e.cursor..] == ed.buffer
  {
  }

  /** A typed character lands at the insertion point, which moves past it. */
  lemma TypedCharInserted(ed: Editor, k: KeyInfo)
    requires EditorValid(ed) && Types(k)
    ensures var o := Step(ed, k);
      o.Editing? && o.ed.cursor == ed.cursor + 1 && o.ed.history == ed.history &&
      |o.ed.buffer| == |ed.buffer| + 1 && o.ed.buffer[ed.cursor] == k.keyChar &&
      o.ed.buffer[..ed.cursor] == ed.buffer[..ed.cursor] &&
      o.ed.buffer[ed.cursor + 1..] == ed.buffer[ed.cursor..]
  {
  }

  /** Control characters, and keys with nothing to type, change nothing. */
  lemma ControlCharIgnored(ed: Editor, k: KeyInfo)
    requires EditorValid(ed)
    requires k.key == Other || (k.key == C && !IsCancel(k))
    requires IsControl(k.keyChar)
    ensures Step(ed, k) == Editing(ed)
  {
  }

  /** Typing a character and then Backspace restores the editor. */
  lemma TypeThenBackspaceRestores(ed: Editor, k: KeyInfo, bs: KeyInfo)
    requires EditorValid(ed) && Types(k) && bs.key == Backspace
    ensures Step(ed, k).Editing? && Step(Step(ed, k).ed, bs) == Editing(ed)
  {
  }

  /** Typing a character, Left, then Delete restores the editor's text and
      leaves the insertion point where it was. */
  lemma TypeLeftDeleteRestores(ed: Editor, k: KeyInfo, left: KeyInfo, del: KeyInfo)
    requires EditorValid(ed) && Types(k) && left.key == LeftArrow && del.key == Delete
    ensures var e1 := Step(ed, k).ed; var e2 := Step(e1, left).ed;
      Step(ed, k).Editing? && Step(e1, left).Editing? && Step(e2, del) == Editing(ed)
  {
  }

  /** Up and Down replace the whole buffer by the browsed entry and put the
      insertion point at its end; the entries are left alone. */
  lemma BrowseReplacesBuffer(ed: Editor, k: KeyInfo)
    requires EditorValid(ed) && k.key in {UpArrow, DownArrow}
    ensures var b := if k.key == UpArrow then Previous(ed.history) else Next(ed.history);
      Step(ed, k) == Editing(Editor(b.entry, |b.entry|, b.after)) &&
      b.after.entries == ed.history.entries
  {
  }

  /** Enter returns the buffer and records it exactly when the history accepts it;
      Ctrl+C returns "" and leaves the history as it is. */
  lemma EnterAndCancel(ed: Editor, k: KeyInfo)
    requires EditorValid(ed) && (k.key == Enter || IsCancel(k))
    ensures var o := Step(ed, k); o.Returned?
    ensures k.key == Enter ==>
      var o := Step(ed, k);
      o.line == ed.buffer &&
      (o.history.entries != ed.history.entries <==> Accepts(ed.history.entries, ed.buffer)) &&
      (o.history == ed.history || o.history == Add(ed.history, ed.buffer))
    ensures IsCancel(k) ==> Step(ed, k) == Returned("", ed.history)
  {
    if k.key == Enter {
      AddChangesIffAccepted(ed.history, ed.buffer);
    }
  }

  /** The entries an add leaves do not depend on the browse cursor. */
  lemma AddEntriesIgnoreCursor(h: State, g: State, line: string)
    requires h.entries == g.entries
    ensures Add(h, line).entries == Add(g, line).entries
  {
  }

  /** Over any run of keys, browsing never changes the entries, and the only
      change to them is recording the returned line, when accepted, after
      which the history is live. */
  lemma {:induction false} RunOnlyRecordsReturnedLine(ed: Editor, keys: seq<KeyInfo>)
    requires EditorValid(ed)
    ensures var o := Run(ed, keys);
      o.Editing? ==> o.ed.history.entries == ed.history.entries
    ensures var o := Run(ed, keys);
      o.Returned? ==>
        o.history.entries ==
          (if Accepts(ed.history.entries, o.line) then Add(Live(ed.history), o.line).entries
           else ed.history.entries) &&
        (Accepts(ed.history.entries, o.line) ==> o.history.cursor == |o.history.entries|)
    decreases |keys|
  {
    if keys != [] {
      var k := keys[0];
      match Step(ed, k) {
        case Editing(next) =>
          assert next.history.entries == ed.history.entries by {
            if k.key == UpArrow || k.key == DownArrow { BrowseReplacesBuffer(ed, k); }
          }
          RunOnlyRecordsReturnedLine(next, keys[1..]);
          if Run(ed, keys).Returned? {
            AddEntriesIgnoreCursor(Live(next.history), Live(ed.history), Run(ed, keys).line);
          }
        case Returned(line, h) =>
          if k.key == Enter {
            AddChangesIffAccepted(ed.history, line);
            AddEntriesIgnoreCursor(ed.history, Live(ed.history), line);
          } else {
            assert IsCancel(k);
            assert !Accepts(ed.history.entries, "");
          }
      }
    }
  }

  /** Running a + b runs a, then b unless a already returned. */
  lemma {:induction false} RunConcat(ed: Editor, a: seq<KeyInfo>, b: seq<KeyInfo>)
    requires EditorValid(ed)
    ensures Run(ed, a + b) == match Run(ed, a)
      case Editing(next) => Run(next, b)
      case Returned(line, h) => Returned(line, h)
    decreases |a|
  {
    if a == [] {
      assert a + b == b;
    } else {
      assert (a + b)[0] == a[0] && (a + b)[1..] == a[1..] + b;
      match Step(ed, a[0]) {
        case Editing(next) => RunConcat(next, a[1..], b);
        case Returned(line, h) =>
      }
    }
  }

  /** The keys that type w, one plain key per character. */
  function Typing(w: string): (keys: seq<KeyInfo>)
    ensures |keys| == |w|
  {
    if w == [] then [] else [KeyInfo(Other, w[0], Modifiers(false, false, false))] + Typing(w[1..])
  }

  /** A run whose first key keeps editing continues from that key's editor. */
  lemma RunFirstKey(ed: Editor, keys: seq<KeyInfo>)
    requires EditorValid(ed) && keys != [] && Step(ed, keys[0]).Editing?
    ensures Run(ed, keys) == Run(Step(ed, keys[0]).ed, keys[1..])
  {
  }

  /** A typed character at the end of the buffer is appended. */
  lemma TypeAtEnd(ed: Editor, k: KeyInfo)
    requires EditorValid(ed) && ed.cursor == |ed.buffer| && Types(k)
    ensures Step(ed, k) == Editing(Editor(ed.buffer + [k.keyChar], |ed.buffer| + 1, ed.history))
  {
    assert ed.buffer[..ed.cursor] == ed.buffer && ed.buffer[ed.cursor..] == [];
  }

  /** Typing a text without control characters at the end of the buffer appends it. */
  lemma {:induction false} TypingAppends(ed: Editor, w: string)
    requires EditorValid(ed) && ed.cursor == |ed.buffer|
    requires forall i :: 0 <= i < |w| ==> !IsControl(w[i])
    ensures Run(ed, Typing(w)) == Editing(Editor(ed.buffer + w, |ed.buffer| + |w|, ed.history))
    decreases |w|
  {
    if w == [] {
      assert ed.buffer + w == ed.buffer;
    } else {
      var keys := Typing(w);
      var next := Editor(ed.buffer + [w[0]], |ed.buffer| + 1, ed.history);
      assert Run(ed, keys) == Run(next, Typing(w[1..])) by {
        assert keys[0] == KeyInfo(Other, w[0], Modifiers(false, false, false));
        assert keys[1..] == Typing(w[1..]);
        TypeAtEnd(ed, keys[0]);
        RunFirstKey(ed, keys);
      }
      TypingAppends(next, w[1..]);
      assert next.buffer + w[1..] == ed.buffer + w;
    }
  }

  const EnterKey := KeyInfo(Enter, '\r', Modifiers(false, false, false))
  const UpKey := KeyInfo(UpArrow, '\0', Modifiers(false, false, false))

  /** Whatever position an earlier browse left the history at, the first Up of
      a new ReadLine shows the newest entry. */
  lemma SessionStartsLive(h: State)
    requires ValidState(h) && |h.entries| > 0
    ensures var newest := h.entries[|h.entries| - 1];
      Session(h, [UpKey]) == Editing(Editor(newest, |newest|, State(h.entries, |h.entries| - 1)))
  {
    var start := Editor("", 0, Live(h));
    assert [UpKey][0] == UpKey && [UpKey][1..] == [];
    assert Session(h, [UpKey]) == Run(Step(start, UpKey).ed, []);
  }

  /** A line typed and submitted with Enter is returned and recorded. */
  lemma SubmitRecords(h: State, w: string)
    requires ValidState(h) && Accepts(h.entries, w)
    requires forall i :: 0 <= i < |w| ==> !IsControl(w[i])
    ensures Session(h, Typing(w) + [EnterKey]) == Returned(w, Add(Live(h), w))
  {
    var start := Editor("", 0, Live(h));
    TypingAppends(start, w);
    assert "" + w == w;
    RunConcat(start, Typing(w), [EnterKey]);
    var typed := Editor(w, |w|, Live(h));
    assert [EnterKey][0] == EnterKey && [EnterKey][1..] == [];
    assert Run(typed, [EnterKey]) == Step(typed, EnterKey);
  }

  /** ... and the next ReadLine's first Up shows it again. */
  lemma SubmitThenRecall(h: State, w: string)
    requires ValidState(h) && Accepts(h.entries, w)
    requires forall i :: 0 <= i < |w| ==> !IsControl(w[i])
    ensures Session(h, Typing(w) + [EnterKey]) == Returned(w, Add(Live(h), w))
    ensures Session(Add(Live(h), w), [UpKey]).Editing?
    ensures Session(Add(Live(h), w), [UpKey]).ed.buffer == w
  {
    SubmitRecords(h, w);
    AddNoConsecutiveDuplicate(Live(h), w);
    SessionStartsLive(Add(Live(h), w));
  }

  /** The editing walk-through: "abc" with the cursor at the end; Backspace,
      Left, type X, Delete. */
  lemma EditingScenario(h: State, x: KeyInfo)
    requires ValidState(h) && x.key == Other && x.keyChar == 'X'
    ensures var bs := KeyInfo(Backspace, '\U{8}', Modifiers(false, false, false));
      var left := KeyInfo(LeftArrow, '\0', Modifiers(false, false, false));
      var del := KeyInfo(Delete, '\0', Modifiers(false, false, false));
      var e1 := Step(Editor("abc", 3, h), bs);
      e1 == Editing(Editor("ab", 2, h)) &&
      Step(e1.ed, left) == Editing(Editor("ab", 1, h)) &&
      Step(Editor("ab", 1, h), x) == Editing(Editor("aXb", 2, h)) &&
      Step(Editor("aXb", 2, h), del) == Editing(Editor("aX", 2, h))
  {
  }

  /** UpdateCursorPosition keeps the terminal cursor within the prompt and the
      typed text; for a plain prompt it is the prompt length plus the insertion point. */
  lemma CursorColumnWithinLine(prompt: string, ed: Editor)
    requires EditorValid(ed)
    ensures Display.DisplayLength(prompt) <= Display.CursorColumn(prompt, ed.cursor)
              <= Display.DisplayLength(prompt) + |ed.buffer|
    ensures Display.Esc !in prompt && '[' !in prompt ==>
              Display.CursorColumn(prompt, ed.cursor) == |prompt| + ed.cursor
  {
    if Display.Esc !in prompt && '[' !in prompt {
      Display.DisplayLengthOfPlainText(prompt);
    }
  }
}
