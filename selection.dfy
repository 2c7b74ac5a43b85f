/**
  The interactive choice among the suggestions: a number picks one (the
  list is shown numbered from 1), `e` switches to typing a message by hand.
  Standard input is the finite sequence of lines typed so far; a run that
  has not decided when they are used up asks for more input.
 */
module Selection {
  import opened Wrappers
  import opened Text

  datatype ChoiceError =
    | EmptyChoice   // "empty"
    | NotANumber    // the integer scan failed
    | OutOfRange    // "out of range"

  /** `parseChoice`: maps a 1-based number to a 0-based index below `count`.
      `scan` stands for `fmt.Sscanf(s, "%d", &n)`: the integer it reads, or
      `None` when it reports an error. */
  function ParseChoice(s: string, count: int, scan: string -> Option<int>): (r: Result<nat, ChoiceError>)
    ensures r.Success? <==> s != "" && scan(s).Some? && 1 <= scan(s).value <= count
    ensures r.Success? ==> r.value < count && r.value + 1 == scan(s).value
    ensures s == "" ==> r == Failure(EmptyChoice)
  {
    if |s| == 0 then Failure(EmptyChoice)
    else match scan(s)
      case None => Failure(NotANumber)
      case Some(n) => if n < 1 || n > count then Failure(OutOfRange) else Success(n - 1)
  }

  /** The label printed in front of entry `i` is `i + 1`; typing a line that
      reads as that label selects entry `i`, for every entry of the list. */
  lemma ChoiceSelectsLabel(s: string, count: nat, scan: string -> Option<int>, i: nat)
    requires i < count && s != ""
    requires scan(s) == Some(i + 1)
    ensures ParseChoice(s, count, scan) == Success(i)
  {
  }

  /** The two states of the dialogue. */
  datatype Mode = Selecting | Editing

  /** What one line of input does: move to a state, or finish with a message. */
  datatype Next = Continue(mode: Mode) | Done(message: string)

  /** How the dialogue ends on the input seen so far. */
  datatype Outcome = Chosen(message: string) | NeedMoreInput

  /** One input line in one state. While selecting, `e` in either case
      switches to editing, a blank line or an invalid choice keeps selecting,
      a valid number finishes with that suggestion. While editing, the first
      line that is not blank finishes with that line, trimmed. */
  function Step(mode: Mode, raw: string, msgs: seq<string>, scan: string -> Option<int>): (n: Next)
    ensures mode == Selecting ==>
      (n.Done? <==> !EqualFoldE(TrimSpace(raw)) && ParseChoice(TrimSpace(raw), |msgs|, scan).Success?)
    ensures n.Done? && mode == Selecting ==>
      1 <= scan(TrimSpace(raw)).value <= |msgs| && n.message == msgs[scan(TrimSpace(raw)).value - 1]
    ensures n.Done? && mode == Editing ==> n.message == TrimSpace(raw) && n.message != ""
  {
    var line := TrimSpace(raw);
    match mode
    case Selecting =>
      if EqualFoldE(line) then Continue(Editing)
      else if line == "" then Continue(Selecting)
      else
        var choice := ParseChoice(line, |msgs|, scan);
        if choice.Failure? then Continue(Selecting) else Done(msgs[choice.value])
    case Editing =>
      if line == "" then Continue(Editing) else Done(line)
  }

  /** The dialogue from `mode` over the lines still to be read. */
  function Run(mode: Mode, lines: seq<string>, msgs: seq<string>, scan: string -> Option<int>): (o: Outcome)
    ensures o.Chosen? ==> o.message in msgs || (o.message != "" && Trimmed(o.message))
    ensures o.Chosen? && mode == Editing ==> o.message != "" && Trimmed(o.message)
    decreases |lines|
  {
    if lines == [] then NeedMoreInput
    else
      match Step(mode, lines[0], msgs, scan)
      case Done(m) => Chosen(m)
      case Continue(next) => Run(next, lines[1..], msgs, scan)
  }

  /** A line the selecting state passes over: not `e`, and blank or not a
      valid choice. */
  predicate Ignored(raw: string, msgs: seq<string>, scan: string -> Option<int>) {
    var line := TrimSpace(raw);
    !EqualFoldE(line) && (line == "" || ParseChoice(line, |msgs|, scan).Failure?)
  }

  /** `promptEdit`: reads from position `pos` until a line is not blank. */
  method PromptEdit(lines: seq<string>, pos: nat, ghost msgs: seq<string>, ghost scan: string -> Option<int>)
    returns (o: Outcome)
    requires pos <= |lines|
    ensures o == Run(Editing, lines[pos..], msgs, scan)
  {
    var i := pos;
    while i < |lines|
      invariant pos <= i <= |lines|
      invariant Run(Editing, lines[i..], msgs, scan) == Run(Editing, lines[pos..], msgs, scan)
    {
      assert lines[i..][0] == lines[i] && lines[i..][1..] == lines[i + 1..];
      var line := TrimSpace(lines[i]);
      i := i + 1;
      if line == "" {
        continue;
      }
      return Chosen(line);
    }
    return NeedMoreInput;
  }

  /** `chooseMessage`: reads lines until one is a valid choice or `e`. */
  method ChooseMessage(msgs: seq<string>, lines: seq<string>, scan: string -> Option<int>)
    returns (o: Outcome)
    ensures o == Run(Selecting, lines, msgs, scan)
  {
    var i := 0;
    while i < |lines|
      invariant 0 <= i <= |lines|
      invariant Run(Selecting, lines[i..], msgs, scan) == Run(Selecting, lines, msgs, scan)
    {
      assert lines[i..][0] == lines[i] && lines[i..][1..] == lines[i + 1..];
      var line := TrimSpace(lines[i]);
      i := i + 1;
      if EqualFoldE(line) {
        o := PromptEdit(lines, i, msgs, scan);
        return;
      }
      if line == "" {
        continue;
      }
      var idx := ParseChoice(line, |msgs|, scan);
      if idx.Failure? {
        continue;
      }
      return Chosen(msgs[idx.value]);
    }
    return NeedMoreInput;
  }

  /** Whatever the dialogue settles on is one of the suggestions or a line
      the user typed, trimmed and not empty; in the editing state it is
      always the latter. */
  lemma {:induction false} RunChosen(mode: Mode, lines: seq<string>, msgs: seq<string>, scan: string -> Option<int>, m: string)
    requires Run(mode, lines, msgs, scan) == Chosen(m)
    ensures m in msgs || (m != "" && Trimmed(m) && exists k :: 0 <= k < |lines| && TrimSpace(lines[k]) == m)
    ensures mode == Editing ==> m != "" && Trimmed(m)
    decreases |lines|
  {
    var n := Step(mode, lines[0], msgs, scan);
    if n.Continue? {
      RunChosen(n.mode, lines[1..], msgs, scan, m);
      if m !in msgs {
        var k :| 0 <= k < |lines[1..]| && TrimSpace(lines[1..][k]) == m;
        assert TrimSpace(lines[k + 1]) == m;
      }
    } else if mode == Editing {
      assert TrimSpace(lines[0]) == m;
    }
  }

  /** Editing settles on the first line that is not blank, trimmed. */
  lemma {:induction false} RunEditFirst(lines: seq<string>, msgs: seq<string>, scan: string -> Option<int>, j: nat)
    requires j < |lines| && TrimSpace(lines[j]) != ""
    requires forall k :: 0 <= k < j ==> TrimSpace(lines[k]) == ""
    ensures Run(Editing, lines, msgs, scan) == Chosen(TrimSpace(lines[j]))
    decreases j
  {
    if j > 0 {
      RunEditFirst(lines[1..], msgs, scan, j - 1);
    }
  }

  /** Editing needs more input exactly when every line so far is blank. */
  lemma {:induction false} RunEditWaits(lines: seq<string>, msgs: seq<string>, scan: string -> Option<int>)
    ensures Run(Editing, lines, msgs, scan) == NeedMoreInput <==> forall k :: 0 <= k < |lines| ==> Blank(lines[k])
    decreases |lines|
  {
    if lines != [] {
      RunEditWaits(lines[1..], msgs, scan);
      TrimSpaceBlank(lines[0]);
      assert forall k :: 1 <= k < |lines| ==> lines[k] == lines[1..][k - 1];
    }
  }

  /** Lines the selecting state passes over leave it where it was: the
      dialogue after them is the dialogue without them. */
  lemma {:induction false} RunSkipsIgnored(skipped: seq<string>, rest: seq<string>, msgs: seq<string>, scan: string -> Option<int>)
    requires forall k :: 0 <= k < |skipped| ==> Ignored(skipped[k], msgs, scan)
    ensures Run(Selecting, skipped + rest, msgs, scan) == Run(Selecting, rest, msgs, scan)
    decreases |skipped|
  {
    if skipped != [] {
      RunSkipsIgnored(skipped[1..], rest, msgs, scan);
      assert (skipped + rest)[1..] == skipped[1..] + rest;
      assert (skipped + rest)[0] == skipped[0];
      assert Step(Selecting, skipped[0], msgs, scan) == Continue(Selecting);
    } else {
      assert skipped + rest == rest;
    }
  }

  /** A line reading as the number `i + 1` ends the dialogue with the
      suggestion printed under that number, `msgs[i]`. */
  lemma RunSelects(raw: string, rest: seq<string>, msgs: seq<string>, scan: string -> Option<int>, i: nat)
    requires i < |msgs|
    requires TrimSpace(raw) != "" && !EqualFoldE(TrimSpace(raw))
    requires scan(TrimSpace(raw)) == Some(i + 1)
    ensures Run(Selecting, [raw] + rest, msgs, scan) == Chosen(msgs[i])
  {
    assert ([raw] + rest)[0] == raw;
  }

  /** `e` switches to editing: what follows is read as a typed message. */
  lemma RunEditCommand(raw: string, rest: seq<string>, msgs: seq<string>, scan: string -> Option<int>)
    requires EqualFoldE(TrimSpace(raw))
    ensures Run(Selecting, [raw] + rest, msgs, scan) == Run(Editing, rest, msgs, scan)
  {
    assert ([raw] + rest)[1..] == rest;
  }

  /** Once settled, more input does not change the outcome: nothing is read
      after the deciding line. */
  lemma {:induction false} RunSettled(mode: Mode, lines: seq<string>, more: seq<string>, msgs: seq<string>, scan: string -> Option<int>)
    requires Run(mode, lines, msgs, scan).Chosen?
    ensures Run(mode, lines + more, msgs, scan) == Run(mode, lines, msgs, scan)
    decreases |lines|
  {
    assert (lines + more)[0] == lines[0];
    var n := Step(mode, lines[0], msgs, scan);
    if n.Continue? {
      RunSettled(n.mode, lines[1..], more, msgs, scan);
      assert (lines + more)[1..] == lines[1..] + more;
    }
  }

  /** Worked example: against three suggestions, `2` picks the second. */
  lemma SelectExample(msgs: seq<string>, scan: string -> Option<int>)
    requires |msgs| == 3 && scan("2") == Some(2)
    ensures Run(Selecting, ["2"], msgs, scan) == Chosen(msgs[1])
  {
    TrimSpaceOfTrimmed("2");
  }

  /** Worked example: against three suggestions, `1` picks the first and
      `3` the last. */
  lemma SelectEndsExample(msgs: seq<string>, scan: string -> Option<int>)
    requires |msgs| == 3 && scan("1") == Some(1) && scan("3") == Some(3)
    ensures Run(Selecting, ["1"], msgs, scan) == Chosen(msgs[0])
    ensures Run(Selecting, ["3"], msgs, scan) == Chosen(msgs[2])
  {
    TrimSpaceOfTrimmed("1");
    TrimSpaceOfTrimmed("3");
    RunSelects("1", [], msgs, scan, 0);
    RunSelects("3", [], msgs, scan, 2);
    assert ["1"] + [] == ["1"] && ["3"] + [] == ["3"];
  }

  /** Worked example: against three suggestions, `5` is rejected and the
      next line is read in the same state. */
  lemma RejectExample(msgs: seq<string>, scan: string -> Option<int>, rest: seq<string>)
    requires |msgs| == 3 && scan("5") == Some(5)
    ensures Run(Selecting, ["5"] + rest, msgs, scan) == Run(Selecting, rest, msgs, scan)
  {
    TrimSpaceOfTrimmed("5");
    assert (["5"] + rest)[1..] == rest;
  }

  /** Worked example: `E`, then a blank line, then a padded message. */
  lemma EditExample(msgs: seq<string>, scan: string -> Option<int>)
    ensures Run(Selecting, ["E", "", "  fix: typo "], msgs, scan) == Chosen("fix: typo")
  {
    TrimSpaceOfTrimmed("E");
    TrimSpaceOfTrimmed("");
    TrimPaddedMessage();
    var lines := ["E", "", "  fix: typo "];
    assert lines[1..] == ["", "  fix: typo "] && lines[1..][1..] == ["  fix: typo "];
  }

  lemma TrimPaddedMessage()
    ensures TrimSpace("  fix: typo ") == "fix: typo"
  {
    assert TrimLeft("fix: typo ", IsSpace) == "fix: typo ";
    assert TrimLeft(" fix: typo ", IsSpace) == "fix: typo " by { assert " fix: typo "[1..] == "fix: typo "; }
    assert TrimLeft("  fix: typo ", IsSpace) == "fix: typo " by { assert "  fix: typo "[1..] == " fix: typo "; }
    assert TrimRight("fix: typo ", IsSpace) == "fix: typo" by {
      assert "fix: typo "[..9] == "fix: typo";
      assert TrimRight("fix: typo", IsSpace) == "fix: typo";
    }
  }
}
