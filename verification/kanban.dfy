/** The kanban tab (`renderKanban`): the tasks of the selected project split
    over the columns todo, in-progress and done. */
module Kanban {
  import opened Wrappers
  import opened Text
  import opened Sequences
  import opened Objects
  import opened Snapshot
  import opened Dom

  datatype Column = ToDo | InProgress | Done

  /** Title words that mark a task still to do as under way: "實作"
      (implement) and "開發" (develop). */
  const ImplementMark := "實作"
  const DevelopMark := "開發"

  /** The column of a task: "done" goes to done, "todo" goes to in-progress
      when the title carries a mark, and everything else goes to todo. */
  function Bucket(t: Task): Column {
    if t.status == "done" then Done
    else if t.status == "todo" && (Contains(t.title, ImplementMark) || Contains(t.title, DevelopMark)) then InProgress
    else ToDo
  }

  /** What a kanban card shows. */
  datatype KanbanCard = KanbanCard(phase: string, title: string)

  function CardOf(t: Task): KanbanCard {
    KanbanCard(t.phase, t.title)
  }

  function InColumn(c: Column): Task -> bool {
    t => Bucket(t) == c
  }

  /** The tasks placed in column `c`, in task order. */
  function ColumnTasks(tasks: seq<Task>, c: Column): seq<Task> {
    Filter(tasks, InColumn(c))
  }

  function ColumnCards(tasks: seq<Task>, c: Column): (cards: seq<KanbanCard>)
    ensures |cards| == |ColumnTasks(tasks, c)|
  {
    var ts := ColumnTasks(tasks, c);
    seq(|ts|, k requires 0 <= k < |ts| => CardOf(ts[k]))
  }

  /** The tasks of the selected project: none when the id names no project
      or the project has no task list. */
  function SelectedTasks(projects: Entries<Project>, id: string): seq<Task> {
    match Lookup(projects, id)
    case None => []
    case Some(p) => p.tasks.GetOr([])
  }

  lemma ColumnStep(tasks: seq<Task>, i: nat, c: Column)
    requires i < |tasks|
    ensures ColumnCards(tasks[..i + 1], c)
      == ColumnCards(tasks[..i], c) + (if Bucket(tasks[i]) == c then [CardOf(tasks[i])] else [])
  {
    assert tasks[..i + 1][..i] == tasks[..i];
  }

  /** `renderKanban`: without a kanban selector nothing changes; otherwise
      the three columns are cleared and each task of the selected project is
      appended to its column. */
  method RenderKanban(projects: Entries<Project>, selected: Option<string>,
                      todo: Container<KanbanCard>, doing: Container<KanbanCard>, done: Container<KanbanCard>)
    requires todo != doing && doing != done && todo != done
    modifies todo, doing, done
    ensures selected.None? ==> unchanged(todo, doing, done)
    ensures selected.Some? ==>
      var tasks := SelectedTasks(projects, selected.value);
      && todo.items == ColumnCards(tasks, ToDo)
      && doing.items == ColumnCards(tasks, InProgress)
      && done.items == ColumnCards(tasks, Done)
  {
    if selected.None? {
      return;
    }
    var tasks := SelectedTasks(projects, selected.value);
    todo.Clear();
    doing.Clear();
    done.Clear();
    var i := 0;
    while i < |tasks|
      invariant 0 <= i <= |tasks|
      invariant todo.items == ColumnCards(tasks[..i], ToDo)
      invariant doing.items == ColumnCards(tasks[..i], InProgress)
      invariant done.items == ColumnCards(tasks[..i], Done)
    {
      var t := tasks[i];
      ColumnStep(tasks, i, ToDo);
      ColumnStep(tasks, i, InProgress);
      ColumnStep(tasks, i, Done);
      match Bucket(t) {
        case ToDo => todo.Append(CardOf(t));
        case InProgress => doing.Append(CardOf(t));
        case Done => done.Append(CardOf(t));
      }
      i := i + 1;
    }
    assert tasks[..i] == tasks;
  }

  /** The bucketing rule: status "done" goes to done whatever the title;
      status "todo" goes to in-progress exactly when the title contains a
      mark; any other status goes to todo. */
  lemma BucketRules(t: Task)
    ensures t.status == "done" ==> Bucket(t) == Done
    ensures Bucket(t) == Done ==> t.status == "done"
    ensures Bucket(t) == InProgress <==>
      t.status == "todo" && (Contains(t.title, ImplementMark) || Contains(t.title, DevelopMark))
    ensures t.status != "done" && t.status != "todo" ==> Bucket(t) == ToDo
  {
  }

  lemma ColumnLast(tasks: seq<Task>, c: Column)
    requires tasks != []
    ensures var last := tasks[|tasks| - 1];
      ColumnTasks(tasks, c) == ColumnTasks(tasks[..|tasks| - 1], c) + (if Bucket(last) == c then [last] else [])
  {
  }

  /** Every task lands in exactly one column: together the columns hold
      each task once. */
  lemma {:induction false} ColumnsPartition(tasks: seq<Task>)
    ensures multiset(ColumnTasks(tasks, ToDo)) + multiset(ColumnTasks(tasks, InProgress))
            + multiset(ColumnTasks(tasks, Done)) == multiset(tasks)
  {
    if tasks != [] {
      var init, last := tasks[..|tasks| - 1], tasks[|tasks| - 1];
      ColumnsPartition(init);
      assert tasks == init + [last];
      ColumnsStep(tasks);
    }
  }

  /** The last task adds itself to its own column and to no other. */
  lemma ColumnsStep(tasks: seq<Task>)
    requires tasks != []
    ensures var init, last := tasks[..|tasks| - 1], tasks[|tasks| - 1];
      multiset(ColumnTasks(tasks, ToDo)) + multiset(ColumnTasks(tasks, InProgress)) + multiset(ColumnTasks(tasks, Done))
      == multiset(ColumnTasks(init, ToDo)) + multiset(ColumnTasks(init, InProgress)) + multiset(ColumnTasks(init, Done))
         + multiset{last}
  {
    var last := tasks[|tasks| - 1];
    ColumnLast(tasks, ToDo);
    ColumnLast(tasks, InProgress);
    ColumnLast(tasks, Done);
    match Bucket(last)
    case ToDo =>
    case InProgress =>
    case Done =>
  }


  /** Hence the columns hold as many cards as there are tasks. */
  lemma ColumnsCount(tasks: seq<Task>)
    ensures |ColumnCards(tasks, ToDo)| + |ColumnCards(tasks, InProgress)| + |ColumnCards(tasks, Done)| == |tasks|
  {
    ColumnsPartition(tasks);
    var a, b, d := ColumnTasks(tasks, ToDo), ColumnTasks(tasks, InProgress), ColumnTasks(tasks, Done);
    assert |multiset(a) + multiset(b) + multiset(d)| == |multiset(tasks)|;
  }

  /** Each column keeps the task order: its k-th card comes from the task at
      a strictly increasing position, and every task of the column is
      there. */
  lemma ColumnOrder(tasks: seq<Task>, c: Column)
    ensures var pos := Positions(tasks, InColumn(c));
      && |pos| == |ColumnCards(tasks, c)|
      && (forall k :: 0 <= k < |pos| ==>
            pos[k] < |tasks| && Bucket(tasks[pos[k]]) == c && ColumnCards(tasks, c)[k] == CardOf(tasks[pos[k]]))
      && (forall k, m :: 0 <= k < m < |pos| ==> pos[k] < pos[m])
      && (forall i :: 0 <= i < |tasks| && Bucket(tasks[i]) == c ==> i in pos)
  {
    FilterPositions(tasks, InColumn(c));
  }

  /** A missing project or task list leaves every column empty. */
  lemma MissingProjectEmpty(projects: Entries<Project>, id: string)
    requires Lookup(projects, id).None? || Lookup(projects, id).value.tasks.None?
    ensures forall c :: ColumnCards(SelectedTasks(projects, id), c) == []
  {
  }
}
