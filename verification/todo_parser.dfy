/** The aggregator's todo.md reader (`Aggregator._parse_tasks`): a pass over
    the lines that remembers the phase of the latest "## " heading and emits
    one task for every "- [" checkbox line. */
module TodoParser {
  import opened Text
  import opened Sequences
  import opened Snapshot

  /** The phase of tasks that precede every heading. */
  const DefaultPhase := "General"

  /** What one line of todo.md is to the parser. */
  datatype Line =
    | Heading(phase: string)                 // starts a new phase
    | Checkbox(title: string, status: string) // yields a task
    | Other                                  // ignored

  /** "done" when the lower-cased stripped line contains "[x]" anywhere,
      "todo" otherwise. */
  function StatusOf(s: string): string {
    if Contains(Lower(s), "[x]") then "done" else "todo"
  }

  /** The stripped line without its first six characters (the checkbox),
      stripped; "" for lines of six characters or fewer. */
  function TitleOf(s: string): string {
    Strip(if |s| >= 6 then s[6..] else "")
  }

  /** A line is stripped; it is a heading when it starts with "## " (its
      phase is the line with every "## " removed, stripped again), and
      otherwise a checkbox when it starts with "- [". */
  function Classify(line: string): Line {
    var s := Strip(line);
    if StartsWith(s, "## ") then Heading(Strip(RemoveAll(s, "## ")))
    else if StartsWith(s, "- [") then Checkbox(TitleOf(s), StatusOf(s))
    else Other
  }

  function Classified(lines: seq<string>): (ls: seq<Line>)
    ensures |ls| == |lines| && forall i :: 0 <= i < |lines| ==> ls[i] == Classify(lines[i])
  {
    seq(|lines|, i requires 0 <= i < |lines| => Classify(lines[i]))
  }

  predicate IsCheckbox(l: Line) {
    l.Checkbox?
  }

  /** The current phase after reading lines classified as `ls`. */
  function PhaseAfter(ls: seq<Line>): string {
    if ls == [] then DefaultPhase
    else if ls[|ls| - 1].Heading? then ls[|ls| - 1].phase
    else PhaseAfter(ls[..|ls| - 1])
  }

  /** The task a checkbox line yields under the given phase. */
  function TaskOf(l: Line, phase: string): Task
    requires l.Checkbox?
  {
    Task(l.title, l.status, phase)
  }

  /** The tasks read from lines classified as `ls`, in file order. */
  function Tasks(ls: seq<Line>): seq<Task> {
    if ls == [] then []
    else
      var init, last := ls[..|ls| - 1], ls[|ls| - 1];
      Tasks(init) + (if last.Checkbox? then [TaskOf(last, PhaseAfter(init))] else [])
  }

  /** Reading one more line: a heading sets the phase, a checkbox line adds
      its task under the current phase. */
  lemma ParseStep(ls: seq<Line>, i: nat)
    requires i < |ls|
    ensures PhaseAfter(ls[..i + 1]) == if ls[i].Heading? then ls[i].phase else PhaseAfter(ls[..i])
    ensures Tasks(ls[..i + 1]) == Tasks(ls[..i]) + if ls[i].Checkbox? then [TaskOf(ls[i], PhaseAfter(ls[..i]))] else []
  {
    assert ls[..i + 1][..i] == ls[..i];
  }

  /** `_parse_tasks` on the lines of a readable todo.md. */
  method ParseTasks(lines: seq<string>) returns (tasks: seq<Task>)
    ensures tasks == Tasks(Classified(lines))
  {
    ghost var ls := Classified(lines);
    tasks := [];
    var currentPhase := DefaultPhase;
    var i := 0;
    while i < |lines|
      invariant 0 <= i <= |lines|
      invariant tasks == Tasks(ls[..i])
      invariant currentPhase == PhaseAfter(ls[..i])
    {
      ParseStep(ls, i);
      match Classify(lines[i]) {
        case Heading(phase) =>
          currentPhase := phase;
        case Checkbox(title, status) =>
          tasks := tasks + [Task(title, status, currentPhase)];
        case Other =>
      }
      i := i + 1;
    }
    assert ls[..i] == ls;
  }

  /** The k-th task comes from the k-th checkbox line, under the phase in
      effect at that line. */
  lemma {:induction false} TasksAtPositions(ls: seq<Line>)
    ensures var pos := Positions(ls, IsCheckbox);
      && |Tasks(ls)| == |pos|
      && forall k :: 0 <= k < |pos| ==>
            pos[k] < |ls| && ls[pos[k]].Checkbox?
            && Tasks(ls)[k] == TaskOf(ls[pos[k]], PhaseAfter(ls[..pos[k]]))
  {
    if ls != [] {
      var init := ls[..|ls| - 1];
      TasksAtPositions(init);
      var pos := Positions(init, IsCheckbox);
      forall k | 0 <= k < |pos|
        ensures ls[pos[k]] == init[pos[k]] && ls[..pos[k]] == init[..pos[k]]
      {
      }
      assert ls[..|init|] == init;
    }
  }

  /** Exactly one task per checkbox line, in file order: the k-th task comes
      from the k-th checkbox line, under the phase in effect at that line;
      the checkbox lines are picked out in increasing order and none is
      skipped. */
  lemma TasksFromCheckboxLines(ls: seq<Line>)
    ensures var pos := Positions(ls, IsCheckbox);
      && |Tasks(ls)| == |pos|
      && (forall k :: 0 <= k < |pos| ==>
            pos[k] < |ls| && ls[pos[k]].Checkbox?
            && Tasks(ls)[k] == TaskOf(ls[pos[k]], PhaseAfter(ls[..pos[k]])))
      && (forall k, m :: 0 <= k < m < |pos| ==> pos[k] < pos[m])
      && (forall i :: 0 <= i < |ls| && ls[i].Checkbox? ==> i in pos)
  {
    TasksAtPositions(ls);
    FilterPositions(ls, IsCheckbox);
  }

  /** The phase at a line is the text of the latest heading above it, or
      "General" when there is none. */
  lemma {:induction false} PhaseIsLatestHeading(ls: seq<Line>, i: nat)
    requires i <= |ls|
    ensures (forall m :: 0 <= m < i ==> !ls[m].Heading?) ==> PhaseAfter(ls[..i]) == DefaultPhase
    ensures forall j :: (0 <= j < i && ls[j].Heading? && (forall m :: j < m < i ==> !ls[m].Heading?))
                        ==> PhaseAfter(ls[..i]) == ls[j].phase
  {
    if i > 0 {
      PhaseIsLatestHeading(ls, i - 1);
      assert ls[..i][..i - 1] == ls[..i - 1];
    }
  }

  /** A checked box "[x]" or "[X]" anywhere in the line. */
  predicate CheckedBoxAt(s: string, i: int) {
    0 <= i && i + 3 <= |s| && s[i] == '[' && (s[i + 1] == 'x' || s[i + 1] == 'X') && s[i + 2] == ']'
  }

  /** Only two statuses exist, and a task is "done" exactly when its line
      holds "[x]" or "[X]" somewhere, not necessarily in the box: the line
      "- [ ] parse [x] marks" is done. */
  lemma StatusDoneIffChecked(s: string)
    ensures StatusOf(s) == "done" || StatusOf(s) == "todo"
    ensures StatusOf(s) == "done" <==> exists i :: CheckedBoxAt(s, i)
  {
    var l := Lower(s);
    if StatusOf(s) == "done" {
      var i :| 0 <= i <= |l| - 3 && OccursAt(l, "[x]", i);
      assert l[i..i + 3][0] == '[' && l[i..i + 3][1] == 'x' && l[i..i + 3][2] == ']';
      assert l[i] == LowerChar(s[i]) && l[i + 1] == LowerChar(s[i + 1]) && l[i + 2] == LowerChar(s[i + 2]);
      assert CheckedBoxAt(s, i);
    }
    if i :| CheckedBoxAt(s, i) {
      assert l[i..i + 3] == "[x]";
      assert OccursAt(l, "[x]", i);
    }
  }

  /** A checkbox line's title is the text after the six-character box:
      "- [ ] " or "- [x] " followed by a trimmed text gives that text. */
  lemma CheckboxTitle(box: string, t: string)
    requires |box| == 6 && StartsWith(box, "- [")
    requires t != [] && !IsPySpace(t[0]) && !IsPySpace(t[|t| - 1])
    ensures Classify(box + t).Checkbox? && Classify(box + t).title == t
  {
    var s := box + t;
    assert s[0] == '-' && s[|s| - 1] == t[|t| - 1];
    assert StripLeft(s) == s;
    assert StripRight(s) == s;
    assert !StartsWith(s, "## ");
    assert s[..3] == box[..3];
    assert s[6..] == t;
    assert StripLeft(t) == t && StripRight(t) == t;
  }

  /** No title has white space at either end. */
  lemma TitleTrimmed(line: string)
    ensures Classify(line).Checkbox? ==>
      var title := Classify(line).title;
      title == [] || (!IsPySpace(title[0]) && !IsPySpace(title[|title| - 1]))
  {
  }

  /** Reading stops early (the `except: pass` around the loop) keeps the
      tasks of the lines read so far: a prefix of the file gives a prefix of
      the tasks. */
  lemma {:induction false} TasksOfPrefix(ls: seq<Line>, n: nat)
    requires n <= |ls|
    ensures Tasks(ls[..n]) <= Tasks(ls)
    decreases |ls|
  {
    if n < |ls| {
      var init := ls[..|ls| - 1];
      TasksOfPrefix(init, n);
      assert init[..n] == ls[..n];
    } else {
      assert ls[..n] == ls;
    }
  }

  /** Removing a pattern from text that does not contain it changes nothing. */
  lemma {:induction false} RemoveAbsent(s: string, p: string)
    requires |p| > 0 && !Contains(s, p)
    ensures RemoveAll(s, p) == s
    decreases |s|
  {
    if |s| >= |p| {
      assert !OccursAt(s, p, 0);
      assert s[..|p|] != p;
      if !Contains(s[1..], p) {
        RemoveAbsent(s[1..], p);
      } else {
        var i :| 0 <= i <= |s[1..]| - |p| && OccursAt(s[1..], p, i);
        assert s[1..][i..i + |p|] == s[i + 1..i + 1 + |p|];
        assert OccursAt(s, p, i + 1);
      }
      assert s == [s[0]] + s[1..];
    }
  }

  /** A plain heading "## <text>" names the phase <text>, stripped. */
  lemma HeadingTextPlain(line: string, t: string)
    requires Strip(line) == "## " + t && !Contains(t, "## ")
    ensures Classify(line) == Heading(Strip(t))
  {
    var s := Strip(line);
    assert s[..3] == "## " && s[3..] == t;
    RemoveAbsent(t, "## ");
  }
}
