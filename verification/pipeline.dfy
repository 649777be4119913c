/** What the web client makes of what the aggregator writes: the progress
    text round-trips through `parseInt`, parsed tasks fall into the kanban
    columns by their checkbox, and the "active" statistic counts the
    directories that hold a todo.md. */
module Pipeline {
  import opened Wrappers
  import opened Text
  import opened Sequences
  import opened Objects
  import opened Snapshot
  import opened JsNumber
  import opened TodoParser
  import opened ProjectInfo
  import opened WorkspaceScan
  import opened Dashboard
  import opened Kanban
  import opened Explorer

  // ------------------------------------------------------------ progress

  /** The client reads back the counts the aggregator wrote: "d/t" splits on
      its one '/' and both numerals parse to their numbers; with no tasks
      there is no progress and both counts are 0. */
  lemma ProgressRoundTrip(tasks: seq<Task>)
    ensures ProgressNumbers(ProgressText(tasks)) == (DoneCount(tasks), |tasks|)
  {
    if |tasks| > 0 {
      var d, t := NatToString(DoneCount(tasks)), NatToString(|tasks|);
      assert '/' !in d by {
        forall i | 0 <= i < |d| ensures d[i] != '/' {
          assert IsDigit(d[i]);
        }
      }
      assert '/' !in t by {
        forall i | 0 <= i < |t| ensures t[i] != '/' {
          assert IsDigit(t[i]);
        }
      }
      SplitFirst(d, '/', t);
      SplitNoSep(t, '/');
      assert Split(d + "/" + t, '/') == [d, t];
      NumeralRoundTrip(DoneCount(tasks));
      NumeralRoundTrip(|tasks|);
    }
  }

  /** A project card for an aggregated project shows the rounded share of
      done tasks: between 0 and 100, 0 with nothing done (or no tasks), 100
      with everything done. */
  lemma DerivedPercent(name: string, path: string, relPath: string, found: seq<string>, modified: string,
                       tasks: seq<Task>, files: seq<FileEntry>)
    ensures var p := ProjectPercent(Derive(name, path, relPath, found, modified, tasks, files));
      && p == Percent(DoneCount(tasks), |tasks|)
      && 0 <= p <= 100
      && (DoneCount(tasks) == 0 ==> p == 0)
      && (|tasks| > 0 && DoneCount(tasks) == |tasks| ==> p == 100)
  {
    ProgressRoundTrip(tasks);
    if |tasks| > 0 {
      PercentInRange(DoneCount(tasks), |tasks|);
    }
  }

  // -------------------------------------------------------------- kanban

  /** Every task read from lines whose checkboxes have status "done" or
      "todo" has one of those two statuses. */
  lemma {:induction false} TaskStatuses(ls: seq<Line>)
    requires forall i :: 0 <= i < |ls| && ls[i].Checkbox? ==> ls[i].status == "done" || ls[i].status == "todo"
    ensures forall t :: t in Tasks(ls) ==> t.status == "done" || t.status == "todo"
  {
    if ls != [] {
      var init := ls[..|ls| - 1];
      TaskStatuses(init);
    }
  }

  /** The k-th task read from todo.md comes from the k-th "- [" line; it is
      in the "Done" column exactly when that line holds "[x]" (in either
      case, anywhere in the line), in "In Progress" exactly when it does not
      and the task's title mentions implementing or developing, and in
      "To Do" otherwise. */
  lemma ParsedTaskColumn(lines: seq<string>, k: nat)
    requires k < |Tasks(Classified(lines))|
    ensures var ls := Classified(lines);
      var pos := Positions(ls, IsCheckbox);
      && k < |pos| && pos[k] < |lines|
      && var line, t := Strip(lines[pos[k]]), Tasks(ls)[k];
      && StartsWith(line, "- [") && t.title == TitleOf(line)
      && (t.status == "done" || t.status == "todo")
      && (Bucket(t) == Done <==> exists i :: CheckedBoxAt(line, i))
      && (Bucket(t) == InProgress <==>
            !(exists i :: CheckedBoxAt(line, i)) && (Contains(t.title, ImplementMark) || Contains(t.title, DevelopMark)))
      && (Bucket(t) == ToDo <==>
            !(exists i :: CheckedBoxAt(line, i)) && !Contains(t.title, ImplementMark) && !Contains(t.title, DevelopMark))
  {
    var ls := Classified(lines);
    var pos := Positions(ls, IsCheckbox);
    TasksFromCheckboxLines(ls);
    var line, t := Strip(lines[pos[k]]), Tasks(ls)[k];
    assert ls[pos[k]] == Classify(lines[pos[k]]);
    assert t.title == TitleOf(line) && t.status == StatusOf(line);
    StatusDoneIffChecked(line);
    BucketRules(t);
  }


  // --------------------------------------------------------------- stats

  /** A listed directory that holds an entry named todo.md. */
  predicate HasTodoEntry(v: Visit) {
    v.dir.Dir? && "todo.md" in NamesOf(v.dir.children)
  }

  /** The "active" statistic counts the scanned directories that hold a
      todo.md: a directory with one is a project, and its status is
      "active". */
  lemma {:induction false} ActiveCountOfScan(root: string, vs: seq<Visit>)
    ensures ActiveCount(Projects(root, vs)) == |Filter(vs, HasTodoEntry)|
  {
    if vs != [] {
      var init, last := vs[..|vs| - 1], vs[|vs| - 1];
      ActiveCountOfScan(root, init);
      assert vs == init + [last];
      FilterAppend(init, [last], HasTodoEntry);
      FilterSingle(last, HasTodoEntry);
      ActiveCountStep(root, init, last);
    }
  }

  /** One more listed directory adds one to the active count exactly when it
      holds a todo.md. */
  lemma ActiveCountStep(root: string, init: seq<Visit>, last: Visit)
    ensures ActiveCount(Projects(root, init + [last]))
      == ActiveCount(Projects(root, init)) + if HasTodoEntry(last) then 1 else 0
  {
    var vs := init + [last];
    assert vs[..|vs| - 1] == init && vs[|vs| - 1] == last;
    var tail := if IsProjectDir(last) then [(RelPath(last.comps), ProjectOf(root, last))] else [];
    assert Projects(root, vs) == Projects(root, init) + tail;
    FilterAppend(Projects(root, init), tail, IsActive);
    if IsProjectDir(last) {
      var cs := last.dir.children;
      StatusAndFlags(if last.comps == [] then "workspace-root" else last.comps[|last.comps| - 1],
                     JoinPath(root, last.comps), RelPath(last.comps), FoundMarkers(cs), last.dir.modified,
                     Tasks(Classified(TodoLines(cs))), WalkFiles(last.dir, []));
      FilterSingle(tail[0], IsActive);
    } else if last.dir.Dir? {
      assert "todo.md" !in FoundMarkers(last.dir.children);
    }
  }

  /** For a well-formed tree, the number `updateStats` shows as active is the
      number of directories within reach of the scan that hold a todo.md. */
  lemma ActiveCountOfWorkspace(root: string, tree: Node, maxDepth: int)
    requires WellFormed(tree)
    ensures ActiveCount(PutAll([], Projects(root, Visits(tree, [], 0, maxDepth))))
      == |Filter(Visits(tree, [], 0, maxDepth), HasTodoEntry)|
  {
    ScanWorkspaceKeys(root, tree, maxDepth);
    ActiveCountOfScan(root, Visits(tree, [], 0, maxDepth));
  }

  /** The statistics line for a snapshot the aggregator wrote from a scan of
      a well-formed tree, where `projects_count` is the number of projects:
      the first number counts the listed directories holding a marker, the
      second those holding a todo.md, and the second never exceeds the
      first. */
  lemma StatsOfScan(root: string, tree: Node, maxDepth: int, data: Snapshot)
    requires WellFormed(tree)
    requires data.projects == PutAll([], Projects(root, Visits(tree, [], 0, maxDepth)))
    requires data.projectsCount == |data.projects|
    ensures var vs := Visits(tree, [], 0, maxDepth);
      && Stats(data).0 == |Filter(vs, IsProjectDir)|
      && Stats(data).1 == |Filter(vs, HasTodoEntry)|
      && Stats(data).1 <= Stats(data).0
  {
    var vs := Visits(tree, [], 0, maxDepth);
    ScanWorkspaceKeys(root, tree, maxDepth);
    ProjectsExact(root, vs);
    ActiveCountOfScan(root, vs);
  }

  // ------------------------------------------------------------- preview

  /** The aggregator lower-cases the extension it lists, but the viewer
      tests the name itself for ".md": a file "NOTES.MD" is listed with
      extension ".md" and still shown as literal text. */
  lemma UpperCaseMarkdownShownLiterally(size: nat, text: Option<string>, dir: seq<string>)
    ensures var f := FileEntryOf(File("NOTES.MD", size, text), dir);
      f.ext == ".md" && PreviewOf(f).view.Literal?
  {
    var name := "NOTES.MD";
    assert LastDot(name) == 5 by {
      assert name[5] == '.' && name[6] != '.' && name[7] != '.';
    }
    assert name[0] != '.';
    assert SplitExt(name) == ".MD";
    assert Lower(".MD") == ".md";
    assert name[|name| - 3..] == ".MD";
  }
}
