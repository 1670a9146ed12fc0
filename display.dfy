/**
 * The prompt's display width (Input.GetDisplayLength) and the cursor column
 * that UpdateCursorPosition computes from it.
 *
 * GetDisplayLength applies two regular-expression replacements, each deleting
 * every leftmost non-overlapping match:
 *   1. an escape sequence  ESC '[' [0-9;]* ('m' | 'K')
 *   2. a markup tag        '[' (any characters but ']')* ']'
 * Both are written here as scanners. In each, the repeated class cannot match
 * the terminator, so at a given position there is at most one match: the
 * longest run of the class followed by the terminator.
 */
module Display {

  const Esc: char := '\U{1B}'

  predicate IsParamChar(c: char)
  {
    ('0' <= c <= '9') || c == ';'
  }

  /** Length of the longest prefix of s made of [0-9;]. */
  function ParamRun(s: string): (n: nat)
    ensures n <= |s|
    ensures forall i :: 0 <= i < n ==> IsParamChar(s[i])
    ensures n < |s| ==> !IsParamChar(s[n])
  {
    if s == [] || !IsParamChar(s[0]) then 0 else 1 + ParamRun(s[1..])
  }

  /** Length of the longest prefix of s without a ']'. */
  function TagBodyRun(s: string): (n: nat)
    ensures n <= |s|
    ensures forall i :: 0 <= i < n ==> s[i] != ']'
    ensures n < |s| ==> s[n] == ']'
  {
    if s == [] || s[0] == ']' then 0 else 1 + TagBodyRun(s[1..])
  }

  /** One whole match of the first pattern. */
  predicate IsEscapeSequence(t: string)
  {
    |t| >= 3 && t[0] == Esc && t[1] == '[' && (t[|t| - 1] == 'm' || t[|t| - 1] == 'K') &&
    forall i :: 2 <= i < |t| - 1 ==> IsParamChar(t[i])
  }

  /** One whole match of the second pattern. */
  predicate IsTag(t: string)
  {
    |t| >= 2 && t[0] == '[' && t[|t| - 1] == ']' &&
    forall i :: 1 <= i < |t| - 1 ==> t[i] != ']'
  }

  /** Any escape sequence starting s has its parameters end where the [0-9;] run does. */
  lemma EscapeSequencesAt(s: string)
    ensures forall m :: 0 < m <= |s| && IsEscapeSequence(s[..m]) ==>
      |s| >= 2 && s[0] == Esc && s[1] == '[' && 2 + ParamRun(s[2..]) == m - 1
  {
    forall m | 0 < m <= |s| && IsEscapeSequence(s[..m])
      ensures |s| >= 2 && s[0] == Esc && s[1] == '[' && 2 + ParamRun(s[2..]) == m - 1
    {
      var t := s[..m];
      assert s[2..] == t[2..m - 1] + s[m - 1..];
      ParamRunOfPrefix(t[2..m - 1], s[m - 1..]);
    }
  }

  /** Any tag starting s closes where the run without ']' ends. */
  lemma TagsAt(s: string)
    ensures forall m :: 0 < m <= |s| && IsTag(s[..m]) ==>
      s[0] == '[' && 1 + TagBodyRun(s[1..]) == m - 1
  {
    forall m | 0 < m <= |s| && IsTag(s[..m])
      ensures s[0] == '[' && 1 + TagBodyRun(s[1..]) == m - 1
    {
      var t := s[..m];
      assert s[1..] == t[1..m - 1] + s[m - 1..];
      TagBodyRunOfPrefix(t[1..m - 1], s[m - 1..]);
    }
  }

  /** Length of the escape sequence that starts s, or 0 if none does: the one
      prefix of s that is a whole match, since [0-9;] excludes 'm' and 'K'. */
  function EscapeAt(s: string): (n: nat)
    ensures n == 0 || 3 <= n <= |s|
    ensures n > 0 ==> s[0] == Esc && IsEscapeSequence(s[..n])
    ensures forall m :: 0 < m <= |s| ==> (IsEscapeSequence(s[..m]) <==> m == n)
  {
    EscapeSequencesAt(s);
    if |s| >= 2 && s[0] == Esc && s[1] == '[' then
      var k := 2 + ParamRun(s[2..]);
      if k < |s| && (s[k] == 'm' || s[k] == 'K') then k + 1 else 0
    else 0
  }

  /** Length of the markup tag that starts s, or 0 if none does: the one
      prefix of s that is a whole match, since the body excludes ']'. */
  function TagAt(s: string): (n: nat)
    ensures n == 0 || 2 <= n <= |s|
    ensures n > 0 ==> s[0] == '[' && IsTag(s[..n])
    ensures forall m :: 0 < m <= |s| ==> (IsTag(s[..m]) <==> m == n)
  {
    TagsAt(s);
    if |s| >= 1 && s[0] == '[' then
      var k := 1 + TagBodyRun(s[1..]);
      if k < |s| then k + 1 else 0
    else 0
  }

  /** The first replacement: every escape sequence deleted, scanning left to right. */
  function StripEscapes(s: string): (r: string)
    ensures |r| <= |s|
    ensures forall c :: c in r ==> c in s
    decreases |s|
  {
    if s == [] then []
    else
      var n := EscapeAt(s);
      if n > 0 then StripEscapes(s[n..])
      else [s[0]] + StripEscapes(s[1..])
  }

  /** The second replacement: every markup tag deleted, scanning left to right. */
  function StripTags(s: string): (r: string)
    ensures |r| <= |s|
    ensures forall c :: c in r ==> c in s
    decreases |s|
  {
    if s == [] then []
    else
      var n := TagAt(s);
      if n > 0 then StripTags(s[n..])
      else [s[0]] + StripTags(s[1..])
  }

  /** GetDisplayLength: the length of what is left of the text once both replacements ran. */
  function DisplayLength(text: string): (n: nat)
    ensures n <= |text|
  {
    |StripTags(StripEscapes(text))|
  }

  /** The column UpdateCursorPosition moves the terminal cursor to. */
  function CursorColumn(prompt: string, cursorPosition: nat): (column: nat)
    ensures cursorPosition <= column <= |prompt| + cursorPosition
  {
    DisplayLength(prompt) + cursorPosition
  }

  // ---------------------------------------------------------------- lemmas

  /** Text that holds no ESC is left alone by the first replacement. */
  lemma {:induction false} StripEscapesPlain(s: string)
    requires Esc !in s
    ensures StripEscapes(s) == s
    decreases |s|
  {
    if s != [] {
      assert s[0] != Esc;
      StripEscapesPlain(s[1..]);
      assert s == [s[0]] + s[1..];
    }
  }

  /** Text that holds no '[' is left alone by the second replacement. */
  lemma {:induction false} StripTagsPlain(s: string)
    requires '[' !in s
    ensures StripTags(s) == s
    decreases |s|
  {
    if s != [] {
      assert s[0] != '[';
      StripTagsPlain(s[1..]);
      assert s == [s[0]] + s[1..];
    }
  }

  /** A prompt without ESC and without '[' is as wide as it is long. */
  lemma DisplayLengthOfPlainText(text: string)
    requires Esc !in text && '[' !in text
    ensures DisplayLength(text) == |text|
  {
    StripEscapesPlain(text);
    StripTagsPlain(text);
  }

  /** A prefix free of ESC passes through the first replacement unchanged,
      and scanning resumes right after it. */
  lemma {:induction false} StripEscapesPlainPrefix(t: string, s: string)
    requires Esc !in t
    ensures StripEscapes(t + s) == t + StripEscapes(s)
    decreases |t|
  {
    if t == [] {
      assert t + s == s;
    } else {
      assert t[0] in t;
      assert (t + s)[0] == t[0] && (t + s)[1..] == t[1..] + s;
      assert EscapeAt(t + s) == 0;
      StripEscapesPlainPrefix(t[1..], s);
      assert t == [t[0]] + t[1..];
    }
  }

  /** A prefix free of '[' passes through the second replacement unchanged. */
  lemma {:induction false} StripTagsPlainPrefix(t: string, s: string)
    requires '[' !in t
    ensures StripTags(t + s) == t + StripTags(s)
    decreases |t|
  {
    if t == [] {
      assert t + s == s;
    } else {
      assert t[0] in t;
      assert (t + s)[0] == t[0] && (t + s)[1..] == t[1..] + s;
      assert TagAt(t + s) == 0;
      StripTagsPlainPrefix(t[1..], s);
      assert t == [t[0]] + t[1..];
    }
  }

  /** A whole escape sequence at the front is deleted, and only it. */
  lemma StripEscapesLeadingSequence(t: string, s: string)
    requires IsEscapeSequence(t)
    ensures StripEscapes(t + s) == StripEscapes(s)
  {
    var ts := t + s;
    var params := t[2..|t| - 1];
    assert ts[2..] == params + (ts[|t| - 1..]);
    assert ts[|t| - 1] == t[|t| - 1];
    ParamRunOfPrefix(params, ts[|t| - 1..]);
    assert EscapeAt(ts) == |t|;
    assert ts[|t|..] == s;
  }

  /** A whole markup tag at the front is deleted, and only it. */
  lemma StripTagsLeadingTag(t: string, s: string)
    requires IsTag(t)
    ensures StripTags(t + s) == StripTags(s)
  {
    var ts := t + s;
    var body := t[1..|t| - 1];
    assert ts[1..] == body + (ts[|t| - 1..]);
    assert ts[|t| - 1] == t[|t| - 1];
    TagBodyRunOfPrefix(body, ts[|t| - 1..]);
    assert TagAt(ts) == |t|;
    assert ts[|t|..] == s;
  }

  lemma {:induction false} ParamRunOfPrefix(p: string, s: string)
    requires forall i :: 0 <= i < |p| ==> IsParamChar(p[i])
    requires s != [] && !IsParamChar(s[0])
    ensures ParamRun(p + s) == |p|
    decreases |p|
  {
    if p != [] {
      assert (p + s)[1..] == p[1..] + s;
      ParamRunOfPrefix(p[1..], s);
    }
  }

  lemma {:induction false} TagBodyRunOfPrefix(b: string, s: string)
    requires forall i :: 0 <= i < |b| ==> b[i] != ']'
    requires s != [] && s[0] == ']'
    ensures TagBodyRun(b + s) == |b|
    decreases |b|
  {
    if b != [] {
      assert (b + s)[1..] == b[1..] + s;
      TagBodyRunOfPrefix(b[1..], s);
    }
  }

  /** An ESC that does not start a whole escape sequence is kept. */
  lemma StripEscapesKeepsStrayEsc(s: string)
    requires s != [] && s[0] == Esc && EscapeAt(s) == 0
    ensures StripEscapes(s) == [Esc] + StripEscapes(s[1..])
  {
  }

  /** ESC '[' and parameters not closed by 'm' or 'K' start no escape sequence. */
  lemma UnterminatedIsNoMatch(p: string, s: string)
    requires forall i :: 0 <= i < |p| ==> IsParamChar(p[i])
    requires s == [] || (!IsParamChar(s[0]) && s[0] != 'm' && s[0] != 'K')
    ensures EscapeAt([Esc] + (['['] + (p + s))) == 0
  {
    var t := [Esc] + (['['] + (p + s));
    assert t[2..] == p + s;
    if s != [] {
      ParamRunOfPrefix(p, s);
      assert t[2 + |p|] == s[0];
    } else {
      assert p + s == p;
    }
  }

  lemma ParamsHaveNoEsc(p: string)
    requires forall i :: 0 <= i < |p| ==> IsParamChar(p[i])
    ensures Esc !in p
  {
  }

  /** ESC '[' and parameters not closed by 'm' or 'K' (ESC[2J, a cursor move)
      stay in the text whole; scanning resumes after the parameters. */
  lemma StripEscapesKeepsUnterminated(p: string, s: string)
    requires forall i :: 0 <= i < |p| ==> IsParamChar(p[i])
    requires s == [] || (!IsParamChar(s[0]) && s[0] != 'm' && s[0] != 'K')
    ensures StripEscapes([Esc] + (['['] + (p + s))) == [Esc] + (['['] + (p + StripEscapes(s)))
  {
    var t := [Esc] + (['['] + (p + s));
    UnterminatedIsNoMatch(p, s);
    StripEscapesKeepsStrayEsc(t);
    assert t[1..] == ['['] + (p + s);
    StripEscapesPlainPrefix(['['], p + s);
    ParamsHaveNoEsc(p);
    StripEscapesPlainPrefix(p, s);
  }

  /** A '[' that no later ']' closes is kept, and scanning goes on right after it. */
  lemma StripTagsKeepsUnclosedBracket(s: string)
    requires ']' !in s
    ensures StripTags(['['] + s) == ['['] + StripTags(s)
  {
  }

  /** Adjacent and nested tags go one after another: "[bold][green]" text "[/][/]"
      leaves just the text. */
  lemma NestedTagsStripped(x: string)
    requires '[' !in x
    ensures StripTags("[bold]" + ("[green]" + (x + ("[/]" + "[/]")))) == x
  {
    assert IsTag("[bold]") && IsTag("[green]") && IsTag("[/]");
    var t3 := "[/]";
    var t2 := "[/]" + t3;
    var t1 := x + t2;
    var t0 := "[green]" + t1;
    StripTagsLeadingTag("[bold]", t0);
    StripTagsLeadingTag("[green]", t1);
    StripTagsPlainPrefix(x, t2);
    StripTagsLeadingTag("[/]", t3);
    assert t3 == "[/]" + [];
    StripTagsLeadingTag("[/]", []);
    assert x + [] == x;
  }

  /** No '[' is followed, anywhere later, by a ']': no markup tag is left. */
  predicate TagFree(r: string)
  {
    forall i, j :: 0 <= i < j < |r| && r[i] == '[' ==> r[j] != ']'
  }

  /** After the second replacement no complete tag is left. (The first
      replacement has no such property: deleting a sequence can bring an ESC
      next to a '['.) */
  lemma {:induction false} StripTagsLeavesNoTag(s: string)
    ensures TagFree(StripTags(s))
    decreases |s|
  {
    if s != [] {
      var n := TagAt(s);
      if n > 0 {
        StripTagsLeavesNoTag(s[n..]);
        assert StripTags(s) == StripTags(s[n..]);
      } else {
        StripTagsLeavesNoTag(s[1..]);
        var rest := StripTags(s[1..]);
        var r := [s[0]] + rest;
        assert StripTags(s) == r;
        if s[0] == '[' {
          // no ']' anywhere after the '[': it would have closed a tag
          assert TagBodyRun(s[1..]) == |s[1..]|;
          assert ']' !in s[1..];
          assert ']' !in rest;
        }
        forall i, j | 0 <= i < j < |r| && r[i] == '['
          ensures r[j] != ']'
        {
          assert r[j] == rest[j - 1];
          if i > 0 {
            assert r[i] == rest[i - 1];
          } else {
            assert s[0] == '[';
            assert rest[j - 1] in rest;
          }
        }
      }
    }
  }

  /** An escape sequence in front of a prompt adds nothing to its width. */
  lemma LeadingEscapeSequenceInvisible(e: string, text: string)
    requires IsEscapeSequence(e)
    ensures DisplayLength(e + text) == DisplayLength(text)
  {
    StripEscapesLeadingSequence(e, text);
  }

  /** An example input: the prompt the shell's main loop shows,
      "[bold green]rShell>[/] [dim]<dir>[/]> ". The shell passes it to
      AnsiConsole.Ask rather than to ReadLine; the lemmas below take it as a
      realistic markup string. */
  function ShellPrompt(dir: string): string
  {
    "[bold green]" + ("rShell>" + ("[/]" + (" " + ("[dim]" + (dir + ("[/]" + "> "))))))
  }

  lemma ShellPromptHasNoEscapes(dir: string)
    requires Esc !in dir
    ensures StripEscapes(ShellPrompt(dir)) == ShellPrompt(dir)
  {
    var head := "[bold green]rShell>[/] [dim]";
    assert ShellPrompt(dir) == head + (dir + "[/]> ");
    assert Esc !in head && Esc !in "[/]> ";
    StripEscapesPlainPrefix(head, dir + "[/]> ");
    StripEscapesPlainPrefix(dir, "[/]> ");
    StripEscapesPlain("[/]> ");
  }

  lemma ShellPromptTagsStripped(dir: string)
    requires '[' !in dir
    ensures StripTags(ShellPrompt(dir)) == "rShell>" + (" " + (dir + "> "))
  {
    assert IsTag("[bold green]") && IsTag("[/]") && IsTag("[dim]");
    var t6 := "> ";
    var t5 := "[/]" + t6;
    var t4 := dir + t5;
    var t3 := "[dim]" + t4;
    var t2 := " " + t3;
    var t1 := "[/]" + t2;
    var t0 := "rShell>" + t1;
    StripTagsLeadingTag("[bold green]", t0);
    StripTagsPlainPrefix("rShell>", t1);
    StripTagsLeadingTag("[/]", t2);
    StripTagsPlainPrefix(" ", t3);
    StripTagsLeadingTag("[dim]", t4);
    StripTagsPlainPrefix(dir, t5);
    StripTagsLeadingTag("[/]", t6);
    StripTagsPlain(t6);
  }

  /** For a directory name without ESC and '[', only "rShell> ", the name and
      "> " count toward the prompt's width, also behind a leading escape sequence. */
  lemma ShellPromptWidth(dir: string)
    requires Esc !in dir && '[' !in dir
    ensures DisplayLength(ShellPrompt(dir)) == |dir| + 10
    ensures DisplayLength([Esc] + "[0m" + ShellPrompt(dir)) == |dir| + 10
  {
    ShellPromptHasNoEscapes(dir);
    ShellPromptTagsStripped(dir);
    var e := [Esc] + "[0m";
    assert IsEscapeSequence(e);
    LeadingEscapeSequenceInvisible(e, ShellPrompt(dir));
  }
}
