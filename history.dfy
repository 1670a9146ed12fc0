/**
 * The shell's command history: a bounded, ordered log of submitted commands
 * (oldest first) with a browse cursor, where cursor == |entries| is the "live"
 * position below the newest entry.
 *
 * The pure functions over State specify the operations; the class
 * CommandHistory holds the two mutable fields and its methods are proved
 * against those functions.
 */
module History {
  import opened Text

  const MaxHistorySize: nat := 1000

  /** The abstract value of a history: its entries and its browse cursor. */
  datatype State = State(entries: seq<string>, cursor: int)

  /** What one browse step shows, and the history it leaves behind. */
  datatype Browsed = Browsed(entry: string, after: State)

  /** What the history file holds when the history is constructed: no file, a
      file that cannot be read (any exception), or its lines. */
  datatype HistoryFile = Missing | Unreadable | Lines(lines: seq<string>)

  /** The entries every operation keeps: at most MaxHistorySize, none blank. */
  predicate WellFormed(entries: seq<string>)
  {
    |entries| <= MaxHistorySize &&
    forall i :: 0 <= i < |entries| ==> !IsNullOrWhiteSpace(entries[i])
  }

  /** The cursor is an entry index or the live position. */
  predicate InRange(h: State)
  {
    0 <= h.cursor <= |h.entries|
  }

  predicate ValidState(h: State)
  {
    WellFormed(h.entries) && InRange(h)
  }

  // ---------------------------------------------------------------- adding

  /** AddCommand appends exactly when the command is not blank and differs from the last entry. */
  predicate Accepts(entries: seq<string>, command: string)
  {
    !IsNullOrWhiteSpace(command) && !(|entries| > 0 && entries[|entries| - 1] == command)
  }

  /** AddCommand: append, evict the oldest entry once past MaxHistorySize, go live. */
  function Add(h: State, command: string): (r: State)
    ensures ValidState(h) ==> ValidState(r)
  {
    if IsNullOrWhiteSpace(command) then h
    else if |h.entries| > 0 && h.entries[|h.entries| - 1] == command then h
    else
      var grown := h.entries + [command];
      var kept := if |grown| > MaxHistorySize then grown[1..] else grown;
      State(kept, |kept|)
  }

  /** An add changes the history exactly when it is accepted, and then it goes live. */
  lemma AddChangesIffAccepted(h: State, command: string)
    requires ValidState(h)
    ensures Add(h, command).entries != h.entries <==> Accepts(h.entries, command)
    ensures !Accepts(h.entries, command) ==> Add(h, command) == h
    ensures Accepts(h.entries, command) ==> Add(h, command).cursor == |Add(h, command).entries|
  {
  }

  /** Appending keeps the order; at capacity exactly the entry at index 0 is dropped. */
  lemma AddEvictsOldest(h: State, command: string)
    requires ValidState(h) && Accepts(h.entries, command)
    ensures |h.entries| < MaxHistorySize ==> Add(h, command).entries == h.entries + [command]
    ensures |h.entries| == MaxHistorySize ==> Add(h, command).entries == h.entries[1..] + [command]
    ensures |Add(h, command).entries| == if |h.entries| < MaxHistorySize then |h.entries| + 1 else MaxHistorySize
  {
  }

  /** An accepted add ends the list with the command and never creates a new
      consecutive duplicate there; every older entry but the evicted one keeps
      its place, equal to the command or not (no global dedup). */
  lemma AddNoConsecutiveDuplicate(h: State, command: string)
    requires ValidState(h) && Accepts(h.entries, command)
    ensures var e := Add(h, command).entries;
      |e| > 0 && e[|e| - 1] == command && (|e| >= 2 ==> e[|e| - 2] != command)
    ensures forall i :: (if |h.entries| < MaxHistorySize then 0 else 1) <= i < |h.entries| ==>
      Add(h, command).entries[if |h.entries| < MaxHistorySize then i else i - 1] == h.entries[i]
  {
  }

  /** Consecutive duplicates are suppressed, global ones are not. */
  lemma OnlyAdjacentDuplicatesSuppressed()
    ensures Add(State(["ls", "pwd"], 2), "ls").entries == ["ls", "pwd", "ls"]
    ensures Add(State(["ls", "pwd"], 0), "pwd") == State(["ls", "pwd"], 0)
  {
    assert "ls" != "pwd";
    assert !IsNullOrWhiteSpace("ls") by { assert !IsWhiteSpace("ls"[0]); }
  }

  // -------------------------------------------------------------- browsing

  /** GetPrevious: step toward older entries, clamped at index 0. */
  function Previous(h: State): (b: Browsed)
    requires h.cursor <= |h.entries|
    ensures b.after.entries == h.entries
    ensures InRange(h) ==> InRange(b.after)
  {
    if |h.entries| == 0 then Browsed("", h)
    else
      var i := if h.cursor > 0 then h.cursor - 1 else h.cursor;
      Browsed(if i >= 0 then h.entries[i] else "", State(h.entries, i))
  }

  /** GetNext: step toward newer entries; past the newest entry it goes live and shows "". */
  function Next(h: State): (b: Browsed)
    requires -1 <= h.cursor
    ensures b.after.entries == h.entries
    ensures InRange(h) ==> InRange(b.after)
  {
    if |h.entries| == 0 then Browsed("", h)
    else if h.cursor < |h.entries| - 1 then Browsed(h.entries[h.cursor + 1], State(h.entries, h.cursor + 1))
    else Browsed("", State(h.entries, |h.entries|))
  }

  /** Reset: back to the live position. */
  function Live(h: State): (r: State)
    ensures r.entries == h.entries && r.cursor == |r.entries|
    ensures ValidState(h) ==> ValidState(r)
  {
    State(h.entries, |h.entries|)
  }

  /** The entry at a browse position; the live position shows the blank line. */
  function Shown(h: State): string
    requires InRange(h)
  {
    if h.cursor < |h.entries| then h.entries[h.cursor] else ""
  }

  /** Previous: "" on an empty history; otherwise one step older, never below index 0,
      and the shown entry is the one at the new cursor. */
  lemma PreviousClamps(h: State)
    requires InRange(h)
    ensures |h.entries| == 0 ==> Previous(h) == Browsed("", h)
    ensures |h.entries| > 0 ==>
      var b := Previous(h);
      b.after.cursor == (if h.cursor > 0 then h.cursor - 1 else 0) &&
      b.after.cursor < |h.entries| && b.entry == h.entries[b.after.cursor]
  {
  }

  /** At the oldest entry, Previous keeps showing it (clamp, no wrap). */
  lemma PreviousAtOldestRepeats(entries: seq<string>)
    requires |entries| > 0
    ensures Previous(State(entries, 0)) == Browsed(entries[0], State(entries, 0))
  {
  }

  /** Next: "" on an empty history; before the newest entry one step newer;
      from the newest entry or the live position, live and "". */
  lemma NextSteps(h: State)
    requires InRange(h)
    ensures |h.entries| == 0 ==> Next(h) == Browsed("", h)
    ensures |h.entries| > 0 && h.cursor < |h.entries| - 1 ==>
      Next(h) == Browsed(h.entries[h.cursor + 1], State(h.entries, h.cursor + 1))
    ensures h.cursor >= |h.entries| - 1 ==> Next(h) == Browsed("", Live(h))
  {
  }

  /** From any entry, Next then Previous comes back to that entry. */
  lemma NextThenPrevious(h: State)
    requires InRange(h) && h.cursor < |h.entries|
    ensures Previous(Next(h).after) == Browsed(h.entries[h.cursor], h)
  {
  }

  /** From any position but the oldest, Previous then Next comes back to it. */
  lemma PreviousThenNext(h: State)
    requires InRange(h) && h.cursor > 0
    ensures Next(Previous(h).after) == Browsed(Shown(h), h)
  {
  }

  /** The state after pressing Up n times. */
  function PreviousTimes(h: State, n: nat): (r: State)
    requires InRange(h)
    ensures r.entries == h.entries && InRange(r)
    decreases n
  {
    if n == 0 then h else PreviousTimes(Previous(h).after, n - 1)
  }

  /** n steps back from any cursor c land on max(c - n, 0). */
  lemma {:induction false} PreviousTimesClamps(h: State, n: nat)
    requires InRange(h) && |h.entries| > 0
    ensures PreviousTimes(h, n).cursor == if h.cursor - n > 0 then h.cursor - n else 0
    decreases n
  {
    if n > 0 {
      PreviousTimesClamps(Previous(h).after, n - 1);
    }
  }

  /** After an accepted add, the first Previous shows the command just added. */
  lemma PreviousAfterAdd(h: State, command: string)
    requires ValidState(h) && Accepts(h.entries, command)
    ensures Previous(Add(h, command)).entry == command
  {
    AddNoConsecutiveDuplicate(h, command);
  }

  /** The browsing walk-through: three entries, four Ups, three Downs. */
  lemma BrowseScenario()
    ensures var h0 := State(["ls", "echo hi", "ls -l"], 3);
      var b1 := Previous(h0); var b2 := Previous(b1.after);
      var b3 := Previous(b2.after); var b4 := Previous(b3.after);
      var b5 := Next(b4.after); var b6 := Next(b5.after); var b7 := Next(b6.after);
      [b1.entry, b2.entry, b3.entry, b4.entry, b5.entry, b6.entry, b7.entry]
        == ["ls -l", "echo hi", "ls", "ls", "echo hi", "ls -l", ""]
      && b7.after == h0
  {
  }

  // --------------------------------------------------------------- loading

  /** The lines that are not blank, in their original order. */
  function NonBlank(lines: seq<string>): (r: seq<string>)
    ensures |r| <= |lines|
    ensures forall i :: 0 <= i < |r| ==> !IsNullOrWhiteSpace(r[i])
  {
    if lines == [] then []
    else if IsNullOrWhiteSpace(lines[0]) then NonBlank(lines[1..])
    else [lines[0]] + NonBlank(lines[1..])
  }

  /** The filter keeps exactly the non-blank lines. */
  lemma {:induction false} NonBlankMembers(lines: seq<string>, x: string)
    ensures x in NonBlank(lines) <==> x in lines && !IsNullOrWhiteSpace(x)
  {
    if lines != [] {
      NonBlankMembers(lines[1..], x);
      assert lines == [lines[0]] + lines[1..];
    }
  }

  /** The filter keeps the order: filtering a concatenation concatenates the filtered parts. */
  lemma {:induction false} NonBlankConcat(a: seq<string>, b: seq<string>)
    ensures NonBlank(a + b) == NonBlank(a) + NonBlank(b)
  {
    if a == [] {
      assert a + b == b;
    } else {
      var ab := a + b;
      assert ab[0] == a[0] && ab[1..] == a[1..] + b;
      NonBlankConcat(a[1..], b);
      if IsNullOrWhiteSpace(a[0]) {
        assert NonBlank(ab) == NonBlank(a[1..] + b);
      } else {
        assert NonBlank(ab) == [a[0]] + NonBlank(a[1..] + b);
        assert NonBlank(a) == [a[0]] + NonBlank(a[1..]);
      }
    }
  }

  /** Lines that are all non-blank pass the filter unchanged. */
  lemma {:induction false} NonBlankKeepsClean(lines: seq<string>)
    requires forall i :: 0 <= i < |lines| ==> !IsNullOrWhiteSpace(lines[i])
    ensures NonBlank(lines) == lines
  {
    if lines != [] {
      NonBlankKeepsClean(lines[1..]);
    }
  }

  /** RemoveRange(0, Count - n): the newest n elements, in order. */
  function KeepNewest(s: seq<string>, n: nat): (r: seq<string>)
    ensures |r| == if |s| > n then n else |s|
    ensures r == s[|s| - |r|..]
  {
    if |s| > n then s[|s| - n..] else s
  }

  /** LoadHistory from an empty list: no file or an unreadable one gives an empty history;
      otherwise the non-blank lines, newest MaxHistorySize kept; the cursor ends live. */
  function Loaded(file: HistoryFile): (h: State)
    ensures ValidState(h) && h.cursor == |h.entries|
    ensures !file.Lines? ==> h.entries == []
  {
    var entries := match file
      case Missing => []
      case Unreadable => []
      case Lines(lines) => KeepNewest(NonBlank(lines), MaxHistorySize);
    State(entries, |entries|)
  }

  /** Loading keeps the newest non-blank lines of the file, in file order: all of
      them when they fit, otherwise the last MaxHistorySize, the older ones dropped. */
  lemma LoadKeepsNewestNonBlank(lines: seq<string>)
    ensures var f, e := NonBlank(lines), Loaded(Lines(lines)).entries;
      (|f| <= MaxHistorySize ==> e == f) &&
      (|f| > MaxHistorySize ==> |e| == MaxHistorySize && f == f[..|f| - MaxHistorySize] + e)
  {
  }

  /** Every loaded entry is a non-blank line of the file. */
  lemma LoadedEntriesComeFromFile(lines: seq<string>)
    ensures forall x :: x in Loaded(Lines(lines)).entries ==> x in lines && !IsNullOrWhiteSpace(x)
  {
    var f := NonBlank(lines);
    forall x | x in Loaded(Lines(lines)).entries
      ensures x in lines && !IsNullOrWhiteSpace(x)
    {
      assert x in f;
      NonBlankMembers(lines, x);
    }
  }

  /** What SaveHistory writes for a history, LoadHistory reads back as the same entries. */
  lemma SaveLoadRoundTrip(h: State)
    requires ValidState(h)
    ensures Loaded(Lines(h.entries)).entries == h.entries
  {
    NonBlankKeepsClean(h.entries);
  }

  // ----------------------------------------------------------- the object

  class CommandHistory {
    var entries: seq<string>
    var currentIndex: int

    ghost predicate Valid()
      reads this
    {
      ValidState(Model())
    }

    function Model(): State
      reads this
    {
      State(entries, currentIndex)
    }

    /** The history loaded from the file found at construction. */
    constructor (file: HistoryFile)
      ensures Valid() && Model() == Loaded(file)
    {
      entries := [];
      currentIndex := -1;
      new;
      LoadHistory(file);
    }

    /** Reads the file into the (empty) list, dropping blank lines and all but
        the newest MaxHistorySize; any failure leaves it empty. */
    method LoadHistory(file: HistoryFile)
      requires entries == []
      modifies this
      ensures Valid() && Model() == Loaded(file)
    {
      match file {
        case Missing =>
        case Unreadable =>
          entries := [];
        case Lines(lines) =>
          entries := entries + NonBlank(lines);
          if |entries| > MaxHistorySize {
            entries := entries[|entries| - MaxHistorySize..];
          }
      }
      currentIndex := |entries|;
    }

    /** The lines SaveHistory writes to the history file, one entry per line;
        the file system itself, and a failure to write (ignored), are outside
        the model. What it writes loads back as the same entries. */
    method SaveHistory() returns (written: seq<string>)
      requires Valid()
      ensures written == entries
      ensures Loaded(Lines(written)).entries == entries
    {
      written := entries;
      SaveLoadRoundTrip(Model());
    }

    method AddCommand(command: string)
      requires Valid()
      modifies this
      ensures Valid() && Model() == Add(old(Model()), command)
    {
      if IsNullOrWhiteSpace(command) {
        return;
      }
      if |entries| > 0 && entries[|entries| - 1] == command {
        return;
      }
      entries := entries + [command];
      if |entries| > MaxHistorySize {
        entries := entries[1..];
      }
      currentIndex := |entries|;
      var _ := SaveHistory();
    }

    method GetPrevious() returns (command: string)
      requires Valid()
      modifies this
      ensures Valid() && Browsed(command, Model()) == Previous(old(Model()))
    {
      if |entries| == 0 {
        return "";
      }
      if currentIndex > 0 {
        currentIndex := currentIndex - 1;
      }
      command := if currentIndex >= 0 then entries[currentIndex] else "";
    }

    method GetNext() returns (command: string)
      requires Valid()
      modifies this
      ensures Valid() && Browsed(command, Model()) == Next(old(Model()))
    {
      if |entries| == 0 {
        return "";
      }
      if currentIndex < |entries| - 1 {
        currentIndex := currentIndex + 1;
        return entries[currentIndex];
      }
      currentIndex := |entries|;
      command := "";
    }

    method Reset()
      requires Valid()
      modifies this
      ensures Valid() && Model() == Live(old(Model()))
    {
      currentIndex := |entries|;
    }
  }
}
