/** The project record the aggregator builds for a directory that holds at
    least one marker file (`Aggregator._get_project_info`). */
module ProjectInfo {
  import opened Wrappers
  import opened Text
  import opened Sequences
  import opened Snapshot

  /** The entries whose presence makes a directory a project, in the order
      the model lists them. */
  const MarkerNames: seq<string> := [".git", "AGENTS.md", "package.json", "README.md", "todo.md"]

  predicate IsDone(t: Task) {
    t.status == "done"
  }

  /** The number of tasks whose status is "done". */
  function DoneCount(tasks: seq<Task>): nat {
    |Filter(tasks, IsDone)|
  }

  /** "done/total" when there is at least one task, absent otherwise. */
  function ProgressText(tasks: seq<Task>): Option<string> {
    if |tasks| > 0 then Some(NatToString(DoneCount(tasks)) + "/" + NatToString(|tasks|)) else None
  }

  /** The record for a project directory: its name and paths, the markers
      found in it, the flags and status derived from them, its modification
      time (already formatted), the tasks of its todo.md and its files. */
  function Derive(name: string, path: string, relPath: string, found: seq<string>, modified: string,
                  tasks: seq<Task>, files: seq<FileEntry>): Project
  {
    Project(
      name := name,
      path := path,
      relPath := relPath,
      markers := Some(found),
      hasReadme := "README.md" in found,
      hasTodo := "todo.md" in found,
      hasAgentsInfo := "AGENTS.md" in found,
      lastUpdated := Some(modified),
      status := Some(if "todo.md" in found then "active" else "stable"),
      tasks := Some(tasks),
      files := Some(files),
      progress := ProgressText(tasks))
  }

  /** The status is "active" exactly when todo.md is among the markers and
      "stable" otherwise; each flag is the presence of its marker. */
  lemma StatusAndFlags(name: string, path: string, relPath: string, found: seq<string>, modified: string,
                       tasks: seq<Task>, files: seq<FileEntry>)
    ensures var p := Derive(name, path, relPath, found, modified, tasks, files);
      && (p.status == Some("active") <==> "todo.md" in found)
      && (p.status == Some("stable") <==> "todo.md" !in found)
      && p.hasReadme == ("README.md" in found)
      && p.hasTodo == ("todo.md" in found)
      && p.hasAgentsInfo == ("AGENTS.md" in found)
  {
  }

  /** Progress is present exactly when there are tasks; then it reads
      "d/t" where d counts the done tasks, t counts all tasks and d <= t. */
  lemma ProgressCounts(tasks: seq<Task>)
    ensures ProgressText(tasks).Some? <==> |tasks| > 0
    ensures |tasks| > 0 ==>
      DoneCount(tasks) <= |tasks|
      && ProgressText(tasks) == Some(NatToString(DoneCount(tasks)) + "/" + NatToString(|tasks|))
  {
  }
}
