/** The data the aggregator writes and the web client reads (`LUMI_DATA`):
    projects keyed by relative path, each with its tasks and files, the
    dialogue log and the scheduled jobs. Fields the client treats as optional
    are `Option`s; `None` stands for a field that is absent or null. */
module Snapshot {
  import opened Wrappers
  import opened Objects

  /** A checkbox line of a project's todo.md. The aggregator only writes the
      statuses "done" and "todo"; the client accepts any string. */
  datatype Task = Task(title: string, status: string, phase: string)

  /** A previewable file of a project; `relPath` is relative to the project
      directory and `ext` is the lower-cased extension. */
  datatype FileEntry = FileEntry(name: string, relPath: string, ext: string, content: Option<string>)

  datatype Project = Project(
    name: string,
    path: string,
    relPath: string,
    markers: Option<seq<string>>,
    hasReadme: bool,
    hasTodo: bool,
    hasAgentsInfo: bool,
    lastUpdated: Option<string>,
    status: Option<string>,
    tasks: Option<seq<Task>>,
    files: Option<seq<FileEntry>>,
    progress: Option<string>)

  /** One line of the dialogue log; `role` "user" is the human side. */
  datatype Message = Message(role: Option<string>, content: string, timestamp: string)

  datatype Schedule = Schedule(expr: Option<string>, tz: Option<string>)

  /** Run state of a scheduled job; times are epoch milliseconds. */
  datatype JobState = JobState(
    lastStatus: Option<string>,
    nextRunAtMs: Option<int>,
    lastRunAtMs: Option<int>,
    lastError: Option<string>)

  datatype CronJob = CronJob(
    name: Option<string>,
    agentId: Option<string>,
    schedule: Option<Schedule>,
    state: Option<JobState>)

  datatype Snapshot = Snapshot(
    projects: Entries<Project>,
    projectsCount: int,
    lastScan: string,
    isThinking: bool,
    dialogue: Option<seq<Message>>,
    cronJobs: Option<seq<CronJob>>)

  /** A string that JavaScript treats as true: present and non-empty. */
  predicate Truthy(o: Option<string>) {
    o.Some? && o.value != ""
  }

  /** `o || fallback` for a string field. */
  function OrElse(o: Option<string>, fallback: string): (r: string)
    ensures Truthy(o) ==> r == o.value
    ensures !Truthy(o) ==> r == fallback
  {
    if Truthy(o) then o.value else fallback
  }

  /** A string field interpolated into a template literal: an absent field
      shows as "undefined". */
  function Shown(o: Option<string>): string {
    match o
    case Some(s) => s
    case None => "undefined"
  }
}
