/** The aggregator's walk over the workspace (`Aggregator.scan_workspace`,
    `_recursive_scan`, `_get_project_info`, `_scan_files`), run over an
    abstract directory tree instead of the file system. */
module WorkspaceScan {
  import opened Wrappers
  import opened Text
  import opened Sequences
  import opened Objects
  import opened Snapshot
  import opened TodoParser
  import opened ProjectInfo

  /** A directory entry. A file has a size in bytes and its text, decoded and
      with line endings translated to "\n", or `None` when it cannot be read.
      A directory has a formatted modification time and its entries in listing
      order, and may refuse to be listed. */
  datatype Node =
    | File(name: string, size: nat, text: Option<string>)
    | Dir(name: string, listable: bool, modified: string, children: seq<Node>)

  /** Directory names `_recursive_scan` never descends into. */
  const ScanIgnored: set<string> := {".git", "node_modules", "venv", "__pycache__", ".openclaw", "data"}

  /** Directory names `_scan_files` prunes; "data" is not among them. */
  const WalkIgnored: set<string> := {".git", "node_modules", "venv", "__pycache__", ".openclaw"}

  /** Lower-cased extensions of the files listed for preview. */
  const AllowedExts: set<string> := {".md", ".py", ".js", ".json", ".css", ".html", ".txt", ".sh", ".yml", ".yaml"}

  /** Files of this many bytes or more are listed with empty content. */
  const PreviewLimit := 50000

  const ReadErrorText := "[Error reading file]"

  // ---------------------------------------------------------------- names

  /** `os.path.splitext(name)[1]` for a file name: from the last '.' to the
      end, unless every character before that dot is a dot too (".bashrc",
      "..md" have no extension). */
  function SplitExt(name: string): (ext: string)
    ensures ext == "" || (ext[0] == '.' && forall k :: 1 <= k < |ext| ==> ext[k] != '.')
    ensures EndsWith(name, ext)
  {
    var d := LastDot(name);
    if d >= 0 && exists j | 0 <= j < d :: name[j] != '.' then name[d..] else ""
  }

  /** `os.path.join` of the workspace root and the components below it; the
      root is taken to carry no trailing separator. */
  function JoinPath(root: string, comps: seq<string>): string {
    JoinWith([root] + comps, "/")
  }

  /** `os.path.relpath` of a directory below the root: "." for the root
      itself. */
  function RelPath(comps: seq<string>): string {
    if comps == [] then "." else JoinWith(comps, "/")
  }

  function NamesOf(cs: seq<Node>): (names: seq<string>)
    ensures |names| == |cs| && forall i :: 0 <= i < |cs| ==> names[i] == cs[i].name
  {
    if cs == [] then [] else [cs[0].name] + NamesOf(cs[1..])
  }

  /** The markers present among the entries (`markers & set(items)`). */
  function FoundMarkers(cs: seq<Node>): (found: seq<string>)
    ensures forall m :: m in found <==> m in MarkerNames && m in NamesOf(cs)
  {
    var present := m => m in NamesOf(cs);
    assert forall m :: m in Filter(MarkerNames, present) <==> m in MarkerNames && m in NamesOf(cs) by {
      forall m ensures m in Filter(MarkerNames, present) <==> m in MarkerNames && present(m) {
        FilterMember(MarkerNames, present, m);
      }
    }
    Filter(MarkerNames, present)
  }

  // ------------------------------------------------------------ todo.md

  /** The first entry with the given name. */
  function Entry(cs: seq<Node>, name: string): Option<Node> {
    if cs == [] then None else if cs[0].name == name then Some(cs[0]) else Entry(cs[1..], name)
  }

  /** The lines the parser reads from a project's todo.md: none when it is
      missing, is a directory or cannot be read. */
  function TodoLines(cs: seq<Node>): seq<string> {
    match Entry(cs, "todo.md")
    case Some(File(_, _, Some(text))) => Split(text, '\n')
    case _ => []
  }

  // -------------------------------------------------------- _scan_files

  /** A file listed for preview: its lower-cased extension is allowed. */
  predicate Previewable(n: Node) {
    n.File? && Lower(SplitExt(n.name)) in AllowedExts
  }

  /** The stored content: the text of a file under the size limit, the
      error text when it cannot be read, "" for large files. */
  function PreviewContent(f: Node): string
    requires f.File?
  {
    if f.size < PreviewLimit then f.text.GetOr(ReadErrorText) else ""
  }

  /** The entry for a file in the directory `dir` (components relative to
      the project). */
  function FileEntryOf(f: Node, dir: seq<string>): FileEntry
    requires f.File?
  {
    FileEntry(f.name, JoinWith(dir + [f.name], "/"), Lower(SplitExt(f.name)), Some(PreviewContent(f)))
  }

  /** The previewable files among the entries of one directory, in order. */
  function LocalFiles(cs: seq<Node>, dir: seq<string>): seq<FileEntry> {
    if cs == [] then []
    else
      var last := cs[|cs| - 1];
      LocalFiles(cs[..|cs| - 1], dir) + (if Previewable(last) then [FileEntryOf(last, dir)] else [])
  }

  /** A subdirectory `os.walk` enters after pruning. */
  predicate Walked(n: Node) {
    n.Dir? && n.name !in WalkIgnored
  }

  /** `os.walk` top-down: the files of a directory, then those of each kept
      subdirectory in listing order; a directory that cannot be listed
      contributes nothing. */
  function WalkFiles(n: Node, dir: seq<string>): seq<FileEntry>
    decreases n
  {
    match n
    case File(_, _, _) => []
    case Dir(_, listable, _, cs) => if listable then LocalFiles(cs, dir) + SubdirFiles(cs, dir) else []
  }

  function SubdirFiles(cs: seq<Node>, dir: seq<string>): seq<FileEntry>
    decreases cs
  {
    if cs == [] then []
    else
      var last := cs[|cs| - 1];
      SubdirFiles(cs[..|cs| - 1], dir) + (if Walked(last) then WalkFiles(last, dir + [last.name]) else [])
  }

  /** One directory step of `os.walk` and the recursion into the kept
      subdirectories. */
  method Walk(n: Node, dir: seq<string>) returns (fileTree: seq<FileEntry>)
    ensures fileTree == WalkFiles(n, dir)
    decreases n, 1
  {
    if !n.Dir? || !n.listable {
      return [];
    }
    fileTree := ListFiles(n.children, dir);
    var below := WalkSubdirs(n.children, dir);
    fileTree := fileTree + below;
  }

  /** The loop over the files of one directory. */
  method ListFiles(cs: seq<Node>, dir: seq<string>) returns (fileTree: seq<FileEntry>)
    ensures fileTree == LocalFiles(cs, dir)
  {
    fileTree := [];
    var i := 0;
    while i < |cs|
      invariant 0 <= i <= |cs|
      invariant fileTree == LocalFiles(cs[..i], dir)
    {
      assert cs[..i + 1][..i] == cs[..i];
      if Previewable(cs[i]) {
        fileTree := fileTree + [FileEntryOf(cs[i], dir)];
      }
      i := i + 1;
    }
    assert cs[..i] == cs;
  }

  /** The loop over the subdirectories `os.walk` descends into. */
  method WalkSubdirs(cs: seq<Node>, dir: seq<string>) returns (fileTree: seq<FileEntry>)
    ensures fileTree == SubdirFiles(cs, dir)
    decreases cs, 0
  {
    fileTree := [];
    var i := 0;
    while i < |cs|
      invariant 0 <= i <= |cs|
      invariant fileTree == SubdirFiles(cs[..i], dir)
    {
      assert cs[..i + 1][..i] == cs[..i];
      if Walked(cs[i]) {
        var below := Walk(cs[i], dir + [cs[i].name]);
        fileTree := fileTree + below;
      }
      i := i + 1;
    }
    assert cs[..i] == cs;
  }

  /** `_scan_files`: the previewable files below a project directory. */
  method ScanFiles(project: Node) returns (fileTree: seq<FileEntry>)
    ensures fileTree == WalkFiles(project, [])
  {
    fileTree := Walk(project, []);
  }

  /** Every listed file has an allowed extension and is named by its path
      relative to the project; its content is empty when the file is at or
      over the size limit. */
  lemma {:induction false} WalkFilesAllowed(n: Node, dir: seq<string>)
    ensures forall e :: e in WalkFiles(n, dir) ==>
      e.ext in AllowedExts && e.ext == Lower(SplitExt(e.name)) && EndsWith(e.relPath, e.name) && e.content.Some?
    decreases n
  {
    if n.Dir? && n.listable {
      LocalFilesAllowed(n.children, dir);
      SubdirFilesAllowed(n.children, dir);
    }
  }

  lemma {:induction false} SubdirFilesAllowed(cs: seq<Node>, dir: seq<string>)
    ensures forall e :: e in SubdirFiles(cs, dir) ==>
      e.ext in AllowedExts && e.ext == Lower(SplitExt(e.name)) && EndsWith(e.relPath, e.name) && e.content.Some?
    decreases cs
  {
    if cs != [] {
      var last := cs[|cs| - 1];
      SubdirFilesAllowed(cs[..|cs| - 1], dir);
      if Walked(last) {
        WalkFilesAllowed(last, dir + [last.name]);
      }
    }
  }

  lemma {:induction false} JoinEndsWithLast(parts: seq<string>)
    requires parts != []
    ensures EndsWith(JoinWith(parts, "/"), parts[|parts| - 1])
  {
    if |parts| > 1 {
      JoinEndsWithLast(parts[1..]);
    }
  }

  lemma {:induction false} LocalFilesAllowed(cs: seq<Node>, dir: seq<string>)
    ensures forall e :: e in LocalFiles(cs, dir) ==>
      e.ext in AllowedExts && e.ext == Lower(SplitExt(e.name)) && EndsWith(e.relPath, e.name) && e.content.Some?
  {
    if cs != [] {
      var last := cs[|cs| - 1];
      LocalFilesAllowed(cs[..|cs| - 1], dir);
      if Previewable(last) {
        JoinEndsWithLast(dir + [last.name]);
      }
    }
  }

  /** Exactly the previewable files of a directory are listed, each once and
      in listing order. */
  lemma {:induction false} LocalFilesExact(cs: seq<Node>, dir: seq<string>)
    ensures var kept := Filter(cs, Previewable);
      |LocalFiles(cs, dir)| == |kept| &&
      forall k :: 0 <= k < |kept| ==> kept[k].File? && LocalFiles(cs, dir)[k] == FileEntryOf(kept[k], dir)
  {
    if cs != [] {
      var init, last := cs[..|cs| - 1], cs[|cs| - 1];
      LocalFilesExact(init, dir);
      var kept0, files0 := Filter(init, Previewable), LocalFiles(init, dir);
      if Previewable(last) {
        var kept, files := kept0 + [last], files0 + [FileEntryOf(last, dir)];
        assert Filter(cs, Previewable) == kept && LocalFiles(cs, dir) == files;
        forall k | 0 <= k < |kept| ensures kept[k].File? && files[k] == FileEntryOf(kept[k], dir) {
          if k < |kept0| {
            assert kept[k] == kept0[k] && files[k] == files0[k];
          }
        }
      } else {
        assert Filter(cs, Previewable) == kept0 && LocalFiles(cs, dir) == files0;
      }
    }
  }

  // ---------------------------------------------- what os.walk reaches

  /** `d` is a directory `os.walk` lists when started at `n`, whose
      components relative to the project are `dir`: `n` itself when it can
      be listed, or a directory reached from one of its subdirectories that
      survive the pruning. */
  predicate Reaches(n: Node, dir: seq<string>, d: Node, path: seq<string>)
    decreases n
  {
    n.Dir? && n.listable &&
    ((d == n && path == dir) ||
     exists i :: 0 <= i < |n.children| && Walked(n.children[i])
       && Reaches(n.children[i], dir + [n.children[i].name], d, path))
  }

  /** Among the entries `cs` of the directory listed at `dir` is a
      previewable file whose entry is `e`. */
  predicate HasPreviewable(cs: seq<Node>, dir: seq<string>, e: FileEntry) {
    exists f :: f in cs && Previewable(f) && e == FileEntryOf(f, dir)
  }

  /** The directory `d`, listed at `path`, holds a previewable file whose
      entry is `e`. */
  predicate ListsFile(d: Node, path: seq<string>, e: FileEntry) {
    d.Dir? && HasPreviewable(d.children, path, e)
  }

  /** Some directory the walk from `n` reaches lists `e`. */
  ghost predicate WalkLists(n: Node, dir: seq<string>, e: FileEntry) {
    exists d, path :: Reaches(n, dir, d, path) && ListsFile(d, path, e)
  }

  /** The subdirectory is not pruned and the walk from it lists `e`. */
  ghost function LeadsTo(dir: seq<string>, e: FileEntry): Node -> bool {
    c => Walked(c) && WalkLists(c, dir + [c.name], e)
  }

  /** Some unpruned subdirectory among `cs` leads to a directory listing `e`. */
  ghost predicate SubdirLists(cs: seq<Node>, dir: seq<string>, e: FileEntry) {
    AnySatisfies(cs, LeadsTo(dir, e))
  }

  /** A reached directory can be listed, and its path extends the start's by
      names none of which is pruned: nothing below ".git", "node_modules",
      "venv", "__pycache__" or ".openclaw" is ever entered. */
  lemma {:induction false} ReachesPath(n: Node, dir: seq<string>, d: Node, path: seq<string>)
    requires Reaches(n, dir, d, path)
    ensures d.Dir? && d.listable
    ensures |dir| <= |path| && path[..|dir|] == dir
    ensures forall k :: |dir| <= k < |path| ==> path[k] !in WalkIgnored
    decreases n
  {
    if !(d == n && path == dir) {
      var i :| 0 <= i < |n.children| && Walked(n.children[i])
        && Reaches(n.children[i], dir + [n.children[i].name], d, path);
      var c := n.children[i];
      ReachesPath(c, dir + [c.name], d, path);
      assert path[..|dir|] == (dir + [c.name])[..|dir|];
      assert path[|dir|] == c.name;
    }
  }

  /** A listable subdirectory is entered exactly when its name is not
      pruned: "data", which `_recursive_scan` skips, is walked. */
  lemma ChildEntered(n: Node, dir: seq<string>, i: nat)
    requires n.Dir? && n.listable && i < |n.children|
    requires n.children[i].Dir? && n.children[i].listable
    ensures Reaches(n, dir, n.children[i], dir + [n.children[i].name]) <==> n.children[i].name !in WalkIgnored
  {
    var c := n.children[i];
    if c.name !in WalkIgnored {
      assert Reaches(c, dir + [c.name], c, dir + [c.name]);
    }
    if Reaches(n, dir, c, dir + [c.name]) {
      ReachesPath(n, dir, c, dir + [c.name]);
      assert (dir + [c.name])[|dir|] == c.name;
    }
  }

  lemma LocalFilesMember(cs: seq<Node>, dir: seq<string>, e: FileEntry)
    ensures e in LocalFiles(cs, dir) <==> HasPreviewable(cs, dir, e)
  {
    var files, kept := LocalFiles(cs, dir), Filter(cs, Previewable);
    if e in files {
      var k :| 0 <= k < |files| && files[k] == e;
      LocalFilesExact(cs, dir);
      FilterMember(cs, Previewable, kept[k]);
      assert kept[k] in cs && Previewable(kept[k]) && e == FileEntryOf(kept[k], dir);
    }
    if HasPreviewable(cs, dir, e) {
      var f :| f in cs && Previewable(f) && e == FileEntryOf(f, dir);
      FilterMember(cs, Previewable, f);
      var k := IndexOf(kept, f);
      LocalFilesExact(cs, dir);
      assert files[k] == e;
    }
  }

  /** What the walk from a directory lists: the previewable files of the
      directory itself, when it can be listed, and what the walks from its
      unpruned subdirectories list. */
  lemma WalkListsUnfold(n: Node, dir: seq<string>, e: FileEntry)
    ensures WalkLists(n, dir, e) <==>
      n.Dir? && n.listable && (HasPreviewable(n.children, dir, e) || SubdirLists(n.children, dir, e))
  {
    if WalkLists(n, dir, e) {
      var d, path :| Reaches(n, dir, d, path) && ListsFile(d, path, e);
      if !(d == n && path == dir) {
        var i :| 0 <= i < |n.children| && Walked(n.children[i])
          && Reaches(n.children[i], dir + [n.children[i].name], d, path);
        assert WalkLists(n.children[i], dir + [n.children[i].name], e);
        assert LeadsTo(dir, e)(n.children[i]);
      }
    }
    if n.Dir? && n.listable {
      if HasPreviewable(n.children, dir, e) {
        assert Reaches(n, dir, n, dir) && ListsFile(n, dir, e);
      }
      if SubdirLists(n.children, dir, e) {
        var i :| 0 <= i < |n.children| && LeadsTo(dir, e)(n.children[i]);
        var d, path :| Reaches(n.children[i], dir + [n.children[i].name], d, path) && ListsFile(d, path, e);
        assert Reaches(n, dir, d, path);
      }
    }
  }

  /** `_scan_files` lists exactly the previewable files of the directories
      the pruned walk reaches, each under its path from the project. */
  lemma {:induction false} WalkFilesMember(n: Node, dir: seq<string>, e: FileEntry)
    ensures e in WalkFiles(n, dir) <==> WalkLists(n, dir, e)
    decreases n, 1
  {
    WalkListsUnfold(n, dir, e);
    if n.Dir? && n.listable {
      LocalFilesMember(n.children, dir, e);
      SubdirFilesMember(n.children, dir, e);
      assert WalkFiles(n, dir) == LocalFiles(n.children, dir) + SubdirFiles(n.children, dir);
    }
  }

  lemma {:induction false} SubdirFilesMember(cs: seq<Node>, dir: seq<string>, e: FileEntry)
    ensures e in SubdirFiles(cs, dir) <==> SubdirLists(cs, dir, e)
    decreases cs, 0
  {
    if cs != [] {
      var init, last := cs[..|cs| - 1], cs[|cs| - 1];
      SubdirFilesMember(init, dir, e);
      WalkFilesMember(last, dir + [last.name], e);
      AnySatisfiesStep(cs, LeadsTo(dir, e));
      assert SubdirFiles(cs, dir) == SubdirFiles(init, dir) + if Walked(last) then WalkFiles(last, dir + [last.name]) else [];
    }
  }

  /** Every file `_scan_files` lists for a project lies in a directory the
      walk reaches through unpruned names only. */
  lemma WalkFilesPruned(project: Node, e: FileEntry)
    requires e in WalkFiles(project, [])
    ensures exists d, path :: (Reaches(project, [], d, path) && ListsFile(d, path, e)
                               && forall k :: 0 <= k < |path| ==> path[k] !in WalkIgnored)
  {
    WalkFilesMember(project, [], e);
    var d, path :| Reaches(project, [], d, path) && ListsFile(d, path, e);
    ReachesPath(project, [], d, path);
  }

  lemma PreviewContentEmpty(f: Node)
    requires f.File?
    ensures PreviewContent(f) == "" <==> f.size >= PreviewLimit || f.text == Some("")
  {
  }

  // ---------------------------------------------------- _recursive_scan

  /** A directory the scan lists, with its path components below the
      workspace root. */
  datatype Visit = Visit(comps: seq<string>, dir: Node)

  /** A subdirectory `_recursive_scan` descends into. */
  predicate Descended(n: Node) {
    n.Dir? && n.name !in ScanIgnored
  }

  /** The directories listed by `_recursive_scan(n, depth)`, in the order the
      scan lists them: `n` itself, then what the scan of each descended
      subdirectory lists. Nothing is listed beyond `maxDepth` or when the
      listing is refused. */
  function Visits(n: Node, comps: seq<string>, depth: nat, maxDepth: int): seq<Visit>
    decreases n
  {
    if depth > maxDepth || !n.Dir? || !n.listable then []
    else [Visit(comps, n)] + ChildVisits(n.children, comps, depth, maxDepth)
  }

  function ChildVisits(cs: seq<Node>, comps: seq<string>, depth: nat, maxDepth: int): seq<Visit>
    decreases cs
  {
    if cs == [] then []
    else
      var last := cs[|cs| - 1];
      ChildVisits(cs[..|cs| - 1], comps, depth, maxDepth)
      + (if Descended(last) then Visits(last, comps + [last.name], depth + 1, maxDepth) else [])
  }

  /** The record `_get_project_info` builds for a listed directory. */
  function ProjectOf(root: string, v: Visit): Project
    requires v.dir.Dir?
  {
    var cs := v.dir.children;
    Derive(if v.comps == [] then "workspace-root" else v.comps[|v.comps| - 1],
           JoinPath(root, v.comps), RelPath(v.comps), FoundMarkers(cs), v.dir.modified,
           Tasks(Classified(TodoLines(cs))), WalkFiles(v.dir, []))
  }

  /** A listed directory that holds at least one marker is a project. */
  predicate IsProjectDir(v: Visit) {
    v.dir.Dir? && FoundMarkers(v.dir.children) != []
  }

  /** The assignments `projects[rel_path] = ...` made for the listed
      directories that are projects, in order. */
  function Projects(root: string, vs: seq<Visit>): Entries<Project> {
    if vs == [] then []
    else
      var last := vs[|vs| - 1];
      Projects(root, vs[..|vs| - 1])
      + (if IsProjectDir(last) then [(RelPath(last.comps), ProjectOf(root, last))] else [])
  }

  lemma {:induction false} ProjectsAppend(root: string, a: seq<Visit>, b: seq<Visit>)
    ensures Projects(root, a + b) == Projects(root, a) + Projects(root, b)
  {
    if b == [] {
      assert a + b == a;
    } else {
      assert (a + b)[..|a + b| - 1] == a + b[..|b| - 1];
      ProjectsAppend(root, a, b[..|b| - 1]);
    }
  }

  /** One assignment per project directory, in listing order, keyed by its
      relative path. */
  lemma {:induction false} ProjectsExact(root: string, vs: seq<Visit>)
    ensures var kept := Filter(vs, IsProjectDir);
      |Projects(root, vs)| == |kept| &&
      forall k :: 0 <= k < |kept| ==>
        kept[k].dir.Dir? && Projects(root, vs)[k] == (RelPath(kept[k].comps), ProjectOf(root, kept[k]))
  {
    if vs != [] {
      var init, last := vs[..|vs| - 1], vs[|vs| - 1];
      ProjectsExact(root, init);
      var kept0, ps0 := Filter(init, IsProjectDir), Projects(root, init);
      if IsProjectDir(last) {
        var kept, ps := kept0 + [last], ps0 + [(RelPath(last.comps), ProjectOf(root, last))];
        assert Filter(vs, IsProjectDir) == kept && Projects(root, vs) == ps;
        forall k | 0 <= k < |kept|
          ensures kept[k].dir.Dir? && ps[k] == (RelPath(kept[k].comps), ProjectOf(root, kept[k]))
        {
          if k < |kept0| {
            assert kept[k] == kept0[k] && ps[k] == ps0[k];
          } else {
            assert kept[k] == last && ps[k] == (RelPath(last.comps), ProjectOf(root, last));
          }
        }
      } else {
        assert Filter(vs, IsProjectDir) == kept0 && Projects(root, vs) == ps0;
      }
    }
  }

  /** The dictionary the scan fills; every recursive call adds to it. */
  class ProjectTable {
    var entries: Entries<Project>

    constructor ()
      ensures entries == []
    {
      entries := [];
    }

    /** `projects[key] = info`. */
    method Store(key: string, info: Project)
      modifies this
      ensures entries == Put(old(entries), key, info)
    {
      entries := Put(entries, key, info);
    }
  }

  /** `_get_project_info` for a listed directory. */
  method GetProjectInfo(root: string, v: Visit) returns (info: Project)
    requires v.dir.Dir?
    ensures info == ProjectOf(root, v)
  {
    var cs := v.dir.children;
    var files := ScanFiles(v.dir);
    var tasks: seq<Task> := [];
    if Entry(cs, "todo.md").Some? {
      tasks := ParseTasks(TodoLines(cs));
    } else {
      assert TodoLines(cs) == [] && Classified([]) == [];
    }
    var name := if v.comps == [] then "workspace-root" else v.comps[|v.comps| - 1];
    info := Derive(name, JoinPath(root, v.comps), RelPath(v.comps), FoundMarkers(cs), v.dir.modified, tasks, files);
  }

  /** One more subdirectory scanned: its assignments follow those made so far. */
  lemma ScanStep(root: string, e: Entries<Project>, cs: seq<Node>, i: nat, comps: seq<string>, depth: nat, maxDepth: int)
    requires i < |cs|
    ensures var c := cs[i];
      PutAll(e, Projects(root, ChildVisits(cs[..i + 1], comps, depth, maxDepth)))
      == PutAll(PutAll(e, Projects(root, ChildVisits(cs[..i], comps, depth, maxDepth))),
                Projects(root, if Descended(c) then Visits(c, comps + [c.name], depth + 1, maxDepth) else []))
  {
    var c := cs[i];
    assert cs[..i + 1][..i] == cs[..i] && cs[..i + 1][i] == c;
    var before := ChildVisits(cs[..i], comps, depth, maxDepth);
    var added := if Descended(c) then Visits(c, comps + [c.name], depth + 1, maxDepth) else [];
    assert ChildVisits(cs[..i + 1], comps, depth, maxDepth) == before + added;
    ProjectsAppend(root, before, added);
    PutAllAppend(e, Projects(root, before), Projects(root, added));
  }

  /** A listed directory's own assignment comes before those of its
      subdirectories. */
  lemma VisitSplit(root: string, e: Entries<Project>, n: Node, comps: seq<string>, depth: nat, maxDepth: int)
    requires depth <= maxDepth && n.Dir? && n.listable
    ensures PutAll(e, Projects(root, Visits(n, comps, depth, maxDepth)))
      == PutAll(PutAll(e, Projects(root, [Visit(comps, n)])), Projects(root, ChildVisits(n.children, comps, depth, maxDepth)))
  {
    var rest := ChildVisits(n.children, comps, depth, maxDepth);
    ProjectsAppend(root, [Visit(comps, n)], rest);
    PutAllAppend(e, Projects(root, [Visit(comps, n)]), Projects(root, rest));
  }

  /** `_recursive_scan`: records the projects among the directories it lists
      into `table`, one assignment per project, in listing order. */
  method RecursiveScan(root: string, n: Node, comps: seq<string>, depth: nat, maxDepth: int, table: ProjectTable)
    modifies table
    ensures table.entries == PutAll(old(table.entries), Projects(root, Visits(n, comps, depth, maxDepth)))
    decreases n, 1
  {
    if depth > maxDepth || !n.Dir? || !n.listable {
      return;
    }
    var here := Visit(comps, n);
    if FoundMarkers(n.children) != [] {
      var info := GetProjectInfo(root, here);
      table.Store(RelPath(comps), info);
    }
    assert table.entries == PutAll(old(table.entries), Projects(root, [here]));
    ScanSubdirs(root, n.children, comps, depth, maxDepth, table);
    VisitSplit(root, old(table.entries), n, comps, depth, maxDepth);
  }

  /** The loop of `_recursive_scan` over the entries of a listed directory. */
  method ScanSubdirs(root: string, cs: seq<Node>, comps: seq<string>, depth: nat, maxDepth: int, table: ProjectTable)
    modifies table
    ensures table.entries == PutAll(old(table.entries), Projects(root, ChildVisits(cs, comps, depth, maxDepth)))
    decreases cs, 0
  {
    var i := 0;
    assert cs[..0] == [] && ChildVisits([], comps, depth, maxDepth) == [] && Projects(root, []) == [];
    while i < |cs|
      invariant 0 <= i <= |cs|
      invariant table.entries == PutAll(old(table.entries), Projects(root, ChildVisits(cs[..i], comps, depth, maxDepth)))
    {
      var c := cs[i];
      ghost var added := if Descended(c) then Visits(c, comps + [c.name], depth + 1, maxDepth) else [];
      ghost var sofar := table.entries;
      ScanStep(root, old(table.entries), cs, i, comps, depth, maxDepth);
      if Descended(c) {
        RecursiveScan(root, c, comps + [c.name], depth + 1, maxDepth, table);
      } else {
        assert Projects(root, added) == [];
      }
      assert table.entries == PutAll(sofar, Projects(root, added));
      i := i + 1;
    }
    assert cs[..i] == cs;
  }

  /** `scan_workspace`: the projects found under the workspace root, keyed
      by their path relative to the root. */
  method ScanWorkspace(root: string, tree: Node, maxDepth: int) returns (projects: Entries<Project>)
    ensures projects == PutAll([], Projects(root, Visits(tree, [], 0, maxDepth)))
  {
    var table := new ProjectTable();
    RecursiveScan(root, tree, [], 0, maxDepth, table);
    projects := table.entries;
  }

  // ------------------------------------------------ what the scan lists

  /** The scan lists only directories it could list, at most `maxDepth`
      levels below the root, reached through no ignored directory; the
      directory it starts from comes first. */
  lemma {:induction false} VisitsBounded(n: Node, comps: seq<string>, depth: nat, maxDepth: int)
    ensures forall v :: v in Visits(n, comps, depth, maxDepth) ==>
      && comps <= v.comps
      && depth + |v.comps| - |comps| <= maxDepth
      && v.dir.Dir? && v.dir.listable
      && (forall j :: |comps| <= j < |v.comps| ==> v.comps[j] !in ScanIgnored)
    ensures Visits(n, comps, depth, maxDepth) != [] ==> Visits(n, comps, depth, maxDepth)[0] == Visit(comps, n)
    decreases n, 1
  {
    if depth <= maxDepth && n.Dir? && n.listable {
      ChildVisitsBounded(n.children, comps, depth, maxDepth);
    }
  }

  lemma {:induction false} ChildVisitsBounded(cs: seq<Node>, comps: seq<string>, depth: nat, maxDepth: int)
    ensures forall v :: v in ChildVisits(cs, comps, depth, maxDepth) ==>
      && comps < v.comps
      && depth + |v.comps| - |comps| <= maxDepth
      && v.dir.Dir? && v.dir.listable
      && (forall j :: |comps| <= j < |v.comps| ==> v.comps[j] !in ScanIgnored)
    decreases cs, 0
  {
    if cs != [] {
      var last := cs[|cs| - 1];
      ChildVisitsBounded(cs[..|cs| - 1], comps, depth, maxDepth);
      if Descended(last) {
        var sub := comps + [last.name];
        VisitsBounded(last, sub, depth + 1, maxDepth);
        forall v | v in Visits(last, sub, depth + 1, maxDepth)
          ensures comps < v.comps && forall j :: |comps| <= j < |v.comps| ==> v.comps[j] !in ScanIgnored
        {
          assert v.comps[..|sub|] == sub;
          assert v.comps[|comps|] == sub[|comps|] == last.name;
        }
      }
    }
  }

  /** A visit comes from the scan of exactly one descended subdirectory. */
  lemma {:induction false} ChildVisitsMember(cs: seq<Node>, comps: seq<string>, depth: nat, maxDepth: int, v: Visit)
    ensures v in ChildVisits(cs, comps, depth, maxDepth) <==>
      exists i :: 0 <= i < |cs| && Descended(cs[i]) && v in Visits(cs[i], comps + [cs[i].name], depth + 1, maxDepth)
  {
    if cs != [] {
      var init := cs[..|cs| - 1];
      ChildVisitsMember(init, comps, depth, maxDepth, v);
      forall i | 0 <= i < |init| ensures init[i] == cs[i] { }
    }
  }

  /** The scan is complete: every listable, non-ignored subdirectory of a
      listed directory that lies within `maxDepth` is listed too. */
  lemma {:induction false} VisitsClosed(n: Node, comps: seq<string>, depth: nat, maxDepth: int, v: Visit, x: Node)
    requires v in Visits(n, comps, depth, maxDepth)
    requires v.dir.Dir? && x in v.dir.children && Descended(x) && x.listable
    requires depth + |v.comps| - |comps| + 1 <= maxDepth
    ensures Visit(v.comps + [x.name], x) in Visits(n, comps, depth, maxDepth)
    decreases n
  {
    var cs := n.children;
    var target := Visit(v.comps + [x.name], x);
    if v == Visit(comps, n) {
      var i :| 0 <= i < |cs| && cs[i] == x;
      assert Visits(x, comps + [x.name], depth + 1, maxDepth)[0] == target;
      ChildVisitsMember(cs, comps, depth, maxDepth, target);
    } else {
      ChildVisitsMember(cs, comps, depth, maxDepth, v);
      var i :| 0 <= i < |cs| && Descended(cs[i]) && v in Visits(cs[i], comps + [cs[i].name], depth + 1, maxDepth);
      VisitsClosed(cs[i], comps + [cs[i].name], depth + 1, maxDepth, v, x);
      ChildVisitsMember(cs, comps, depth, maxDepth, target);
    }
  }

  // --------------------------------------------------- one key per project

  /** A name a directory listing can return. */
  predicate PlainName(s: string) {
    s != [] && '/' !in s && s != "." && s != ".."
  }

  /** Every entry below `n` has a plain name, unique among its siblings. */
  predicate WellFormed(n: Node)
    decreases n
  {
    n.Dir? ==>
      && (forall c :: c in n.children ==> PlainName(c.name) && WellFormed(c))
      && (forall i, j :: 0 <= i < j < |n.children| ==> n.children[i].name != n.children[j].name)
  }

  predicate DistinctComps(vs: seq<Visit>) {
    forall i, j :: 0 <= i < j < |vs| ==> vs[i].comps != vs[j].comps
  }

  lemma DistinctAppend(a: seq<Visit>, b: seq<Visit>)
    requires DistinctComps(a) && DistinctComps(b)
    requires forall x, y :: x in a && y in b ==> x.comps != y.comps
    ensures DistinctComps(a + b)
  {
    forall i, j | 0 <= i < j < |a + b| ensures (a + b)[i].comps != (a + b)[j].comps {
      if j < |a| {
        assert (a + b)[i] == a[i] && (a + b)[j] == a[j];
      } else if i >= |a| {
        assert (a + b)[i] == b[i - |a|] && (a + b)[j] == b[j - |a|];
      } else {
        assert (a + b)[i] == a[i] && (a + b)[j] == b[j - |a|];
      }
    }
  }

  /** In a well-formed tree every directory is listed at most once and all
      path components the scan adds are plain names. */
  lemma {:induction false} VisitsDistinct(n: Node, comps: seq<string>, depth: nat, maxDepth: int)
    requires WellFormed(n)
    ensures DistinctComps(Visits(n, comps, depth, maxDepth))
    ensures forall v :: v in Visits(n, comps, depth, maxDepth) ==>
      forall j :: |comps| <= j < |v.comps| ==> PlainName(v.comps[j])
    decreases n, 1
  {
    if depth <= maxDepth && n.Dir? && n.listable {
      var rest := ChildVisits(n.children, comps, depth, maxDepth);
      ChildVisitsDistinct(n.children, comps, depth, maxDepth);
      ChildVisitsBounded(n.children, comps, depth, maxDepth);
      assert DistinctComps([Visit(comps, n)]);
      DistinctAppend([Visit(comps, n)], rest);
    }
  }

  lemma {:induction false} ChildVisitsDistinct(cs: seq<Node>, comps: seq<string>, depth: nat, maxDepth: int)
    requires forall c :: c in cs ==> PlainName(c.name) && WellFormed(c)
    requires forall i, j :: 0 <= i < j < |cs| ==> cs[i].name != cs[j].name
    ensures DistinctComps(ChildVisits(cs, comps, depth, maxDepth))
    ensures forall v :: v in ChildVisits(cs, comps, depth, maxDepth) ==>
      forall j :: |comps| <= j < |v.comps| ==> PlainName(v.comps[j])
    decreases cs, 0
  {
    if cs != [] {
      var init, last := cs[..|cs| - 1], cs[|cs| - 1];
      assert forall c :: c in init ==> c in cs;
      ChildVisitsDistinct(init, comps, depth, maxDepth);
      var a := ChildVisits(init, comps, depth, maxDepth);
      var b := if Descended(last) then Visits(last, comps + [last.name], depth + 1, maxDepth) else [];
      if Descended(last) {
        var sub := comps + [last.name];
        VisitsDistinct(last, sub, depth + 1, maxDepth);
        VisitsBounded(last, sub, depth + 1, maxDepth);
        forall x, y | x in a && y in b ensures x.comps != y.comps {
          forall i | 0 <= i < |init| ensures init[i].name != last.name {
            assert init[i] == cs[i];
          }
          SiblingVisitsApart(init, last, comps, depth, maxDepth, x, y);
        }
        forall v | v in b ensures forall j :: |comps| <= j < |v.comps| ==> PlainName(v.comps[j]) {
          assert v.comps[|comps|] == last.name;
        }
      }
      DistinctAppend(a, b);
    }
  }

  /** A directory reached through one child never has the path of one
      reached through a sibling with another name. */
  lemma SiblingVisitsApart(init: seq<Node>, last: Node, comps: seq<string>, depth: nat, maxDepth: int, x: Visit, y: Visit)
    requires forall i :: 0 <= i < |init| ==> init[i].name != last.name
    requires x in ChildVisits(init, comps, depth, maxDepth)
    requires y in Visits(last, comps + [last.name], depth + 1, maxDepth)
    ensures x.comps != y.comps
  {
    ChildVisitsMember(init, comps, depth, maxDepth, x);
    var i :| 0 <= i < |init| && Descended(init[i]) && x in Visits(init[i], comps + [init[i].name], depth + 1, maxDepth);
    VisitsBounded(init[i], comps + [init[i].name], depth + 1, maxDepth);
    VisitsBounded(last, comps + [last.name], depth + 1, maxDepth);
    assert x.comps[|comps|] == init[i].name;
    assert y.comps[|comps|] == last.name;
  }

  /** Splitting a path joined from plain names gives the names back. */
  lemma {:induction false} SplitJoinedPath(parts: seq<string>)
    requires parts != []
    requires forall k :: 0 <= k < |parts| ==> '/' !in parts[k]
    ensures Split(JoinWith(parts, "/"), '/') == parts
  {
    if |parts| == 1 {
      SplitNoSep(parts[0], '/');
    } else {
      SplitJoinedPath(parts[1..]);
      SplitFirst(parts[0], '/', JoinWith(parts[1..], "/"));
      assert parts == [parts[0]] + parts[1..];
    }
  }

  /** Different directories get different keys. */
  lemma RelPathInjective(a: seq<string>, b: seq<string>)
    requires forall k :: 0 <= k < |a| ==> PlainName(a[k])
    requires forall k :: 0 <= k < |b| ==> PlainName(b[k])
    requires RelPath(a) == RelPath(b)
    ensures a == b
  {
    SplitNoSep(".", '/');
    if a != [] {
      SplitJoinedPath(a);
    }
    if b != [] {
      SplitJoinedPath(b);
    }
  }

  /** A project is keyed by its relative path and named after its
      directory, except the workspace root (relative path "."), which is
      named "workspace-root". */
  lemma ProjectNaming(root: string, v: Visit)
    requires v.dir.Dir?
    requires forall k :: 0 <= k < |v.comps| ==> PlainName(v.comps[k])
    ensures ProjectOf(root, v).relPath == RelPath(v.comps)
    ensures RelPath(v.comps) == "." ==> ProjectOf(root, v).name == "workspace-root"
    ensures RelPath(v.comps) != "." ==> ProjectOf(root, v).name == v.comps[|v.comps| - 1]
  {
    if RelPath(v.comps) == "." {
      RelPathInjective(v.comps, []);
    }
  }

  lemma ProjectsDistinct(root: string, vs: seq<Visit>)
    requires forall i, j :: 0 <= i < j < |vs| ==> RelPath(vs[i].comps) != RelPath(vs[j].comps)
    ensures DistinctKeys(Projects(root, vs))
  {
    var r, kept, pos := Projects(root, vs), Filter(vs, IsProjectDir), Positions(vs, IsProjectDir);
    ProjectsExact(root, vs);
    FilterPositions(vs, IsProjectDir);
    forall i, j | 0 <= i < j < |r| ensures r[i].0 != r[j].0 {
      assert r[i].0 == RelPath(vs[pos[i]].comps) && r[j].0 == RelPath(vs[pos[j]].comps);
    }
  }

  /** In a well-formed tree `scan_workspace` never overwrites an entry: the
      dictionary holds one entry per project directory within reach, keyed
      by its relative path, in the order the scan lists them. */
  lemma ScanWorkspaceKeys(root: string, tree: Node, maxDepth: int)
    requires WellFormed(tree)
    ensures var ps := Projects(root, Visits(tree, [], 0, maxDepth));
      DistinctKeys(ps) && PutAll([], ps) == ps
  {
    var vs := Visits(tree, [], 0, maxDepth);
    VisitsDistinct(tree, [], 0, maxDepth);
    forall i, j | 0 <= i < j < |vs| ensures RelPath(vs[i].comps) != RelPath(vs[j].comps) {
      if RelPath(vs[i].comps) == RelPath(vs[j].comps) {
        assert vs[i] in vs && vs[j] in vs;
        RelPathInjective(vs[i].comps, vs[j].comps);
      }
    }
    ProjectsDistinct(root, vs);
    PutAllFresh([], Projects(root, vs));
  }
}
