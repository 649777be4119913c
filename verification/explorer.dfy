/** The file explorer tab: the file list of the selected project
    (`renderExplorer`) and the preview of one file (`previewFile`). */
module Explorer {
  import opened Wrappers
  import opened Text
  import opened Objects
  import opened Snapshot
  import opened Dom

  /** The files of the selected project: none when the id names no project
      or the project has no file list. */
  function SelectedFiles(projects: Entries<Project>, id: string): seq<FileEntry> {
    match Lookup(projects, id)
    case None => []
    case Some(p) => p.files.GetOr([])
  }

  /** The tree items: each file's path relative to its project. */
  function TreeItems(files: seq<FileEntry>): (items: seq<string>)
    ensures |items| == |files|
  {
    seq(|files|, k requires 0 <= k < |files| => files[k].relPath)
  }

  /** `renderExplorer`: without an explorer selector nothing changes;
      otherwise the tree is cleared and gets one item per file of the
      selected project, in order. */
  method RenderExplorer(projects: Entries<Project>, selected: Option<string>, tree: Container<string>)
    modifies tree
    ensures selected.None? ==> unchanged(tree)
    ensures selected.Some? ==> tree.items == TreeItems(SelectedFiles(projects, selected.value))
  {
    if selected.None? {
      return;
    }
    tree.Clear();
    var files := SelectedFiles(projects, selected.value);
    var i := 0;
    while i < |files|
      invariant 0 <= i <= |files|
      invariant tree.items == TreeItems(files[..i])
    {
      tree.Append(files[i].relPath);
      assert tree.items == TreeItems(files[..i + 1]);
      i := i + 1;
    }
    assert files[..i] == files;
  }

  const EmptyFileText := "[Empty or Binary File]"

  /** How the viewer shows a file: `Markdown(source)` is the HTML that
      `marked.parse` makes of `source`, `Literal(text)` is `text` in a code
      block. */
  datatype View = Markdown(source: string) | Literal(text: string)

  /** The viewer: the file name line and the body. */
  datatype Preview = Preview(fileName: string, view: View)

  /** `previewFile`. */
  function PreviewOf(f: FileEntry): Preview {
    Preview(f.relPath,
            if EndsWith(f.name, ".md") then Markdown(OrElse(f.content, ""))
            else Literal(OrElse(f.content, EmptyFileText)))
  }

  /** A name ending in ".md" (case matters) is rendered as markdown, with no
      content read as ""; any other file is shown literally, with the
      placeholder text when its content is empty or absent. The header
      always shows the relative path. */
  lemma PreviewDispatch(f: FileEntry)
    ensures PreviewOf(f).fileName == f.relPath
    ensures PreviewOf(f).view.Markdown? <==> EndsWith(f.name, ".md")
    ensures PreviewOf(f).view.Markdown? ==>
      PreviewOf(f).view.source == (if Truthy(f.content) then f.content.value else "")
    ensures PreviewOf(f).view.Literal? ==>
      PreviewOf(f).view.text == (if Truthy(f.content) then f.content.value else EmptyFileText)
  {
  }
}
