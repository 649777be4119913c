/** The dashboard tab of the web client: the statistics (`updateStats`) and
    the project cards (`renderProjects`), with the percent arithmetic and the
    ordering by path depth. */
module Dashboard {
  import opened Wrappers
  import opened Text
  import opened Sequences
  import opened StableSort
  import opened Objects
  import opened Snapshot
  import opened JsNumber
  import opened Dom

  // ------------------------------------------------------------ percent

  /** `Math.round(done / total * 100)` for `total > 0`, 0 otherwise, in exact
      arithmetic: the integer nearest to `100 * done / total`, halves rounded
      up. */
  function Percent(done: int, total: int): (p: int)
    ensures total > 0 ==> 2 * total * p <= 200 * done + total < 2 * total * (p + 1)
    ensures total <= 0 ==> p == 0
  {
    if total > 0 then (200 * done + total) / (2 * total) else 0
  }

  /** The done and total counts read from a progress string "d/t": each part
      through `parseInt(...) || 0`; a missing second part reads as
      `parseInt(undefined)`, which is NaN, hence 0; no progress gives 0/0. */
  function ProgressNumbers(progress: Option<string>): (int, int) {
    if Truthy(progress) then
      var parts := Split(progress.value, '/');
      (ParseIntOrZero(parts[0]), if |parts| > 1 then ParseIntOrZero(parts[1]) else 0)
    else (0, 0)
  }

  function ProjectPercent(p: Project): int {
    var (done, total) := ProgressNumbers(p.progress);
    Percent(done, total)
  }

  lemma MulLeft(a: int, x: int, y: int)
    requires a > 0 && x <= y
    ensures a * x <= a * y
  {
  }

  /** With consistent counts the percent lies between 0 and 100; nothing
      done is 0% and everything done is 100%. */
  lemma PercentInRange(done: int, total: int)
    requires 0 <= done <= total && total > 0
    ensures 0 <= Percent(done, total) <= 100
    ensures done == 0 ==> Percent(done, total) == 0
    ensures done == total ==> Percent(done, total) == 100
  {
    var p, t := Percent(done, total), 2 * total;
    if p < 0 {
      MulLeft(t, p + 1, 0);
    }
    if p > 100 {
      MulLeft(t, 101, p);
    }
    if done == 0 && p > 0 {
      MulLeft(t, 1, p);
    }
    if done == total && p < 100 {
      MulLeft(t, p + 1, 100);
    }
  }

  /** Nothing clamps the percent: more done than total reads as at least 100,
      and can exceed it. */
  lemma PercentNotClamped(done: int, total: int)
    requires 0 < total <= done
    ensures Percent(done, total) >= 100
    ensures Percent(3, 2) == 150
  {
    var p, t := Percent(done, total), 2 * total;
    if p < 100 {
      MulLeft(t, p + 1, 100);
    }
  }

  /** Halves round up: 1/8 is 12.5% and shows as 13%, 1/3 shows as 33%. */
  lemma PercentExamples()
    ensures Percent(1, 8) == 13 && Percent(1, 3) == 33 && Percent(2, 3) == 67 && Percent(0, 0) == 0
  {
  }

  // -------------------------------------------------------------- order

  /** The sort key of a project id: `id.split('/').length`. */
  function Depth(id: string): int {
    |Split(id, '/')|
  }

  /** The order of the cards: `Object.keys(projects)` sorted by depth. */
  function DashboardOrder(e: Entries<Project>): seq<string> {
    SortBy(OwnKeys(e), Depth)
  }

  /** The cards list every project id once, shallower ids first, and ids of
      the same depth in `Object.keys` order. */
  lemma DashboardOrderCorrect(e: Entries<Project>)
    ensures multiset(DashboardOrder(e)) == multiset(KeysOf(e))
    ensures SortedBy(DashboardOrder(e), Depth)
    ensures forall d :: WithKey(DashboardOrder(e), Depth, d) == WithKey(OwnKeys(e), Depth, d)
  {
    SortByCorrect(OwnKeys(e), Depth);
    OwnKeysPermutation(e);
  }

  lemma DashboardOrderFound(e: Entries<Project>)
    ensures forall id :: id in DashboardOrder(e) ==> Lookup(e, id).Some?
  {
    SortByCorrect(OwnKeys(e), Depth);
    forall id | id in DashboardOrder(e) ensures Lookup(e, id).Some? {
      assert id in multiset(OwnKeys(e));
      OwnKeysLookup(e, id);
    }
  }

  // -------------------------------------------------------------- cards

  /** The "Updated:" line: the locale date of `last_updated`, or "Unknown". */
  datatype Updated = LocaleDate(raw: string) | UpdatedUnknown

  /** What a project card shows. */
  datatype ProjectCard = ProjectCard(
    name: string,
    badge: string,
    relPath: string,
    updated: Updated,
    markers: seq<string>,
    percent: int,
    progressText: string)

  function CardOf(p: Project): ProjectCard {
    ProjectCard(
      name := p.name,
      badge := OrElse(p.status, "stable"),
      relPath := p.relPath,
      updated := if Truthy(p.lastUpdated) then LocaleDate(p.lastUpdated.value) else UpdatedUnknown,
      markers := p.markers.GetOr([]),
      percent := ProjectPercent(p),
      progressText := OrElse(p.progress, "0/0"))
  }

  function CardsFor(e: Entries<Project>, ids: seq<string>): (cards: seq<ProjectCard>)
    requires forall id :: id in ids ==> Lookup(e, id).Some?
  {
    seq(|ids|, k requires 0 <= k < |ids| => CardOf(Lookup(e, ids[k]).value))
  }

  /** The cards `renderProjects` leaves in the list: none when `projects` is
      absent, otherwise one per project in dashboard order. */
  function ProjectCards(projects: Option<Entries<Project>>): seq<ProjectCard> {
    match projects
    case None => []
    case Some(e) => DashboardOrderFound(e); CardsFor(e, DashboardOrder(e))
  }

  /** `renderProjects`: clears the list, then appends one card per project. */
  method RenderProjects(projects: Option<Entries<Project>>, list: Container<ProjectCard>)
    modifies list
    ensures list.items == ProjectCards(projects)
  {
    list.Clear();
    if projects.None? {
      return;
    }
    var e := projects.value;
    var ids := DashboardOrder(e);
    DashboardOrderFound(e);
    AppendCards(e, ids, list);
  }

  /** The loop over the sorted ids. */
  method AppendCards(e: Entries<Project>, ids: seq<string>, list: Container<ProjectCard>)
    requires forall id :: id in ids ==> Lookup(e, id).Some?
    modifies list
    ensures list.items == old(list.items) + CardsFor(e, ids)
  {
    var i := 0;
    while i < |ids|
      invariant 0 <= i <= |ids|
      invariant list.items == old(list.items) + CardsFor(e, ids[..i])
    {
      var card := CardOf(Lookup(e, ids[i]).value);
      list.Append(card);
      CardsForStep(e, ids, i);
      i := i + 1;
    }
    assert ids[..i] == ids;
  }

  lemma CardsForStep(e: Entries<Project>, ids: seq<string>, i: nat)
    requires forall id :: id in ids ==> Lookup(e, id).Some?
    requires i < |ids|
    ensures CardsFor(e, ids[..i + 1]) == CardsFor(e, ids[..i]) + [CardOf(Lookup(e, ids[i]).value)]
  {
    var a, c := CardsFor(e, ids[..i + 1]), CardsFor(e, ids[..i]);
    var b := c + [CardOf(Lookup(e, ids[i]).value)];
    assert |a| == |b| == i + 1;
    forall k | 0 <= k <= i ensures a[k] == b[k] {
      assert a[k] == CardOf(Lookup(e, ids[k]).value);
      if k < i {
        assert c[k] == CardOf(Lookup(e, ids[k]).value);
      }
    }
  }

  /** There is one card per project, and the k-th card shows the project
      whose id is k-th in dashboard order. */
  lemma ProjectCardsExact(e: Entries<Project>)
    ensures var ids := DashboardOrder(e);
      |ProjectCards(Some(e))| == |KeysOf(e)| &&
      forall k :: 0 <= k < |ids| ==> Lookup(e, ids[k]).Some? && ProjectCards(Some(e))[k] == CardOf(Lookup(e, ids[k]).value)
  {
    var ids := DashboardOrder(e);
    DashboardOrderFound(e);
    DashboardOrderCorrect(e);
    assert |ids| == |multiset(ids)| == |multiset(KeysOf(e))| == |KeysOf(e)|;
  }

  /** A card's fallbacks: the badge is "stable" and the progress text "0/0"
      when the project has none, the percent is 0 without a positive total,
      and the update line is "Unknown" without a date. */
  lemma CardFallbacks(p: Project)
    ensures CardOf(p).badge == (if Truthy(p.status) then p.status.value else "stable")
    ensures CardOf(p).progressText == (if Truthy(p.progress) then p.progress.value else "0/0")
    ensures !Truthy(p.progress) ==> CardOf(p).percent == 0
    ensures CardOf(p).updated == UpdatedUnknown <==> !Truthy(p.lastUpdated)
  {
  }

  // -------------------------------------------------------------- stats

  predicate IsActive(kv: (string, Project)) {
    kv.1.status == Some("active")
  }

  /** The "active" statistic: projects whose status is exactly "active". */
  function ActiveCount(e: Entries<Project>): nat {
    |Filter(e, IsActive)|
  }

  /** The ids whose project is active. */
  function ActiveIds(e: Entries<Project>): set<string> {
    set k | k in KeysOf(e) && Lookup(e, k).Some? && Lookup(e, k).value.status == Some("active")
  }

  lemma {:induction false} LookupAppend(e: Entries<Project>, kv: (string, Project), k: string)
    ensures Lookup(e + [kv], k) == if k in KeysOf(e) then Lookup(e, k) else if k == kv.0 then Some(kv.1) else None
  {
    if e != [] {
      assert (e + [kv])[1..] == e[1..] + [kv];
      LookupAppend(e[1..], kv, k);
    }
  }

  lemma {:induction false} KeysOfAppend(e: Entries<Project>, kv: (string, Project))
    ensures KeysOf(e + [kv]) == KeysOf(e) + [kv.0]
  {
    assert |KeysOf(e + [kv])| == |KeysOf(e) + [kv.0]|;
    forall i | 0 <= i < |KeysOf(e + [kv])| ensures KeysOf(e + [kv])[i] == (KeysOf(e) + [kv.0])[i] {
    }
  }

  /** Appending a project with a new id adds that id to the active ids
      exactly when the project is active. */
  lemma ActiveIdsAppend(e: Entries<Project>, kv: (string, Project))
    requires kv.0 !in KeysOf(e)
    ensures ActiveIds(e + [kv]) == ActiveIds(e) + (if IsActive(kv) then {kv.0} else {})
  {
    KeysOfAppend(e, kv);
    forall k ensures Lookup(e + [kv], k) == if k in KeysOf(e) then Lookup(e, k) else if k == kv.0 then Some(kv.1) else None {
      LookupAppend(e, kv, k);
    }
  }

  /** The active count is the number of ids whose project is active. */
  lemma {:induction false} ActiveCountIsActiveIds(e: Entries<Project>)
    requires DistinctKeys(e)
    ensures ActiveCount(e) == |ActiveIds(e)|
  {
    if e != [] {
      var init, last := e[..|e| - 1], e[|e| - 1];
      assert e == init + [last];
      assert DistinctKeys(init) by {
        forall i, j | 0 <= i < j < |init| ensures init[i].0 != init[j].0 {
          assert init[i] == e[i] && init[j] == e[j];
        }
      }
      ActiveCountIsActiveIds(init);
      assert last.0 !in KeysOf(init) by {
        forall i | 0 <= i < |init| ensures KeysOf(init)[i] != last.0 {
          assert init[i] == e[i];
        }
      }
      ActiveIdsAppend(init, last);
    }
  }

  /** The two numbers `updateStats` shows: the snapshot's project count,
      shown as written whatever the projects are, and the active count, which
      never exceeds the number of projects. */
  function Stats(data: Snapshot): (shown: (int, nat))
    ensures shown.0 == data.projectsCount
    ensures shown.1 <= |data.projects|
  {
    (data.projectsCount, ActiveCount(data.projects))
  }
}
