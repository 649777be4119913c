/** The automation tab (`renderAutomation`): one card per scheduled job. */
module Automation {
  import opened Wrappers
  import opened Snapshot
  import opened Dom

  const NoJobsText := "尚無自動化任務"

  /** A run time on a card: the locale date and time of an epoch-millisecond
      value, or a fallback word. */
  datatype RunTime = LocaleString(ms: int) | NoRun(text: string)

  /** An item of the job list: the placeholder shown when there is no job,
      or a job card. */
  datatype CronItem =
    | NoJobs(text: string)
    | CronCard(
        error: bool,
        statusClass: string,
        status: string,
        name: string,
        expr: string,
        tz: string,
        nextRun: RunTime,
        lastRun: RunTime,
        agent: string,
        errorLog: Option<string>)

  /** `job.state?.field` for the string fields: absent when there is no
      state. */
  function LastStatus(job: CronJob): Option<string> {
    if job.state.Some? then job.state.value.lastStatus else None
  }

  function LastError(job: CronJob): Option<string> {
    if job.state.Some? then job.state.value.lastError else None
  }

  /** A time that JavaScript treats as true: present and not 0. */
  function RunAt(ms: Option<int>, fallback: string): RunTime {
    if ms.Some? && ms.value != 0 then LocaleString(ms.value) else NoRun(fallback)
  }

  function NextRunAt(job: CronJob): Option<int> {
    if job.state.Some? then job.state.value.nextRunAtMs else None
  }

  function LastRunAt(job: CronJob): Option<int> {
    if job.state.Some? then job.state.value.lastRunAtMs else None
  }

  /** The card of a job that has a schedule. */
  function CardOf(job: CronJob): CronItem
    requires job.schedule.Some?
  {
    CronCard(
      error := LastStatus(job) == Some("error"),
      statusClass := OrElse(LastStatus(job), ""),
      status := OrElse(LastStatus(job), "IDLE"),
      name := OrElse(job.name, "Unnamed Job"),
      expr := Shown(job.schedule.value.expr),
      tz := Shown(job.schedule.value.tz),
      nextRun := RunAt(NextRunAt(job), "N/A"),
      lastRun := RunAt(LastRunAt(job), "Never"),
      agent := Shown(job.agentId),
      errorLog := if Truthy(LastError(job)) then LastError(job) else None)
  }

  /** The jobs before the first one without a schedule: reading
      `job.schedule.expr` of such a job throws, which ends the rendering. */
  function Scheduled(jobs: seq<CronJob>): (r: seq<CronJob>)
    ensures r <= jobs
    ensures forall k :: 0 <= k < |r| ==> r[k].schedule.Some?
    ensures |r| < |jobs| ==> jobs[|r|].schedule.None?
  {
    if jobs == [] || jobs[0].schedule.None? then [] else [jobs[0]] + Scheduled(jobs[1..])
  }

  function Cards(jobs: seq<CronJob>): (cards: seq<CronItem>)
    requires forall k :: 0 <= k < |jobs| ==> jobs[k].schedule.Some?
    ensures |cards| == |jobs|
  {
    seq(|jobs|, k requires 0 <= k < |jobs| => CardOf(jobs[k]))
  }

  predicate NoJobList(jobs: Option<seq<CronJob>>) {
    jobs.None? || jobs.value == []
  }

  /** What the job list holds after `renderAutomation`. */
  function CronItems(jobs: Option<seq<CronJob>>): seq<CronItem> {
    if NoJobList(jobs) then [NoJobs(NoJobsText)] else Cards(Scheduled(jobs.value))
  }

  /** `renderAutomation`: clears the list, then shows the placeholder or one
      card per job, in order, until a job without a schedule stops it. */
  method RenderAutomation(jobs: Option<seq<CronJob>>, list: Container<CronItem>)
    modifies list
    ensures list.items == CronItems(jobs)
  {
    list.Clear();
    if NoJobList(jobs) {
      list.Append(NoJobs(NoJobsText));
      return;
    }
    var js := jobs.value;
    var i := 0;
    while i < |js|
      invariant 0 <= i <= |js|
      invariant forall k :: 0 <= k < i ==> js[k].schedule.Some?
      invariant js[..i] <= Scheduled(js)
      invariant list.items == Cards(js[..i])
    {
      if js[i].schedule.None? {
        assert |Scheduled(js)| == i;
        assert Scheduled(js) == js[..i];
        return;
      }
      var card := CardOf(js[i]);
      list.Append(card);
      CardsStep(js, i);
      i := i + 1;
    }
    assert js[..i] == js;
  }

  lemma CardsStep(js: seq<CronJob>, i: nat)
    requires i < |js| && forall k :: 0 <= k <= i ==> js[k].schedule.Some?
    ensures Cards(js[..i + 1]) == Cards(js[..i]) + [CardOf(js[i])]
  {
    var a, c := Cards(js[..i + 1]), Cards(js[..i]);
    forall k | 0 <= k < i ensures a[k] == c[k] {
      assert js[..i + 1][k] == js[..i][k];
    }
    assert a[..i] == c;
  }

  /** An absent or empty job list shows exactly one placeholder and no
      card; a list whose jobs all have schedules shows one card per job, in
      order. */
  lemma AutomationFallback(jobs: Option<seq<CronJob>>)
    ensures NoJobList(jobs) ==> CronItems(jobs) == [NoJobs(NoJobsText)]
    ensures !NoJobList(jobs) && (forall k :: 0 <= k < |jobs.value| ==> jobs.value[k].schedule.Some?) ==>
      |CronItems(jobs)| == |jobs.value| && forall k :: 0 <= k < |jobs.value| ==> CronItems(jobs)[k] == CardOf(jobs.value[k])
  {
    if !NoJobList(jobs) && (forall k :: 0 <= k < |jobs.value| ==> jobs.value[k].schedule.Some?) {
      assert Scheduled(jobs.value) == jobs.value;
    }
  }

  /** The fallbacks of a card: the error class exactly for the last status
      "error"; "IDLE", "Unnamed Job", "N/A" and "Never" when the status,
      name, next run or last run is missing (a time of 0 counts as missing);
      an error line exactly when there is a non-empty last error. */
  lemma CardFallbacks(job: CronJob)
    requires job.schedule.Some?
    ensures CardOf(job).error <==> job.state.Some? && job.state.value.lastStatus == Some("error")
    ensures CardOf(job).status == "IDLE" <==> !Truthy(LastStatus(job)) || LastStatus(job) == Some("IDLE")
    ensures CardOf(job).name == "Unnamed Job" <==> !Truthy(job.name) || job.name == Some("Unnamed Job")
    ensures CardOf(job).nextRun == NoRun("N/A") <==>
      job.state.None? || job.state.value.nextRunAtMs.None? || job.state.value.nextRunAtMs == Some(0)
    ensures CardOf(job).lastRun == NoRun("Never") <==>
      job.state.None? || job.state.value.lastRunAtMs.None? || job.state.value.lastRunAtMs == Some(0)
    ensures CardOf(job).errorLog.Some? <==>
      job.state.Some? && job.state.value.lastError.Some? && job.state.value.lastError.value != ""
  {
  }
}
