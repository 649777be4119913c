/** The static file server's request handler (server.js): the URL picks a
    file under the base directory, a failed read answers 404, and a
    successful one answers 200 with a Content-Type chosen by extension. */
module StaticServer {
  import opened Wrappers
  import opened Text

  newtype byte = x: int | 0 <= x < 256

  /** The file the URL asks for, relative to the base directory: "index.html"
      for "/", otherwise the URL up to its first '?'. */
  function RequestTarget(url: string): (target: string)
    ensures url == "/" ==> target == "index.html"
    ensures url != "/" ==> StartsWith(url, target) && '?' !in target && (|target| < |url| ==> url[|target|] == '?')
  {
    if url == "/" then "index.html" else BeforeFirst(url, '?')
  }

  /** `path.join(base, target)`, without normalisation. */
  function FilePath(base: string, url: string): string {
    base + "/" + RequestTarget(url)
  }

  /** The index just past the last character of `p` that is not '/', 0 when
      there is none. */
  function TrimmedEnd(p: string): (end: nat)
    ensures end <= |p|
  {
    if p == [] || p[|p| - 1] != '/' then |p| else TrimmedEnd(p[..|p| - 1])
  }

  /** The part of `s` after its last '/'. */
  function AfterLastSlash(s: string): (r: string)
    ensures '/' !in r
  {
    if s == [] || s[|s| - 1] == '/' then [] else AfterLastSlash(s[..|s| - 1]) + [s[|s| - 1]]
  }

  /** `path.basename(p)` on POSIX paths: the last segment, trailing slashes
      ignored. */
  function BaseName(p: string): string {
    AfterLastSlash(p[..TrimmedEnd(p)])
  }

  /** The extension of a base name: from its last '.' to its end; "" when
      there is no '.', when the only leading '.' is its first character, or
      for "..". */
  function ExtOf(b: string): (ext: string)
    ensures ext == "" || (ext[0] == '.' && EndsWith(b, ext) && |ext| < |b|)
  {
    var d := LastDot(b);
    if d <= 0 || (|b| == 2 && b[0] == '.' && b[1] == '.') then ""
    else
      assert b[d..] == b[|b| - |b[d..]|..];
      b[d..]
  }

  /** `path.extname(p)`. */
  function ExtName(p: string): string {
    ExtOf(BaseName(p))
  }

  /** The last '.' of `a + "." + b` is the one after `a` when `b` has none. */
  lemma {:induction false} LastDotAfter(a: string, b: string)
    requires '.' !in b
    ensures LastDot(a + "." + b) == |a|
  {
    var s := a + "." + b;
    if b != [] {
      assert s[..|s| - 1] == a + "." + b[..|b| - 1];
      LastDotAfter(a, b[..|b| - 1]);
    }
  }

  /** The Content-Type for an extension: exact, case-sensitive matches for
      ".js", ".css" and ".json"; "text/html" for everything else. */
  function ContentTypeFor(ext: string): string {
    if ext == ".js" then "application/javascript"
    else if ext == ".css" then "text/css"
    else if ext == ".json" then "application/json"
    else "text/html"
  }

  datatype Body = Text(text: string) | Bytes(bytes: seq<byte>)

  /** The status, the Content-Type header if one is sent, and the body. */
  datatype Response = Response(status: int, contentType: Option<string>, body: Body)

  /** The answer to a request, given the files that can be read (by path). */
  function Handle(base: string, url: string, files: map<string, seq<byte>>): (r: Response)
    ensures r.status == 200 || r.status == 404
  {
    var path := FilePath(base, url);
    if path !in files then Response(404, None, Text("Not Found"))
    else Response(200, Some(ContentTypeFor(ExtName(path))), Bytes(files[path]))
  }

  /** A failed read answers 404 "Not Found" with no Content-Type; a
      successful read answers 200 with the bytes of the file unchanged and the
      type of its extension. */
  lemma HandleOutcomes(base: string, url: string, files: map<string, seq<byte>>)
    ensures var path := FilePath(base, url);
      && (path !in files <==> Handle(base, url, files) == Response(404, None, Text("Not Found")))
      && (path in files ==> Handle(base, url, files).body == Bytes(files[path])
                            && Handle(base, url, files).contentType == Some(ContentTypeFor(ExtName(path))))
  {
  }

  /** The only non-HTML types: ".js", ".css", ".json", exactly. Upper-case
      extensions, other extensions and no extension all give "text/html". */
  lemma ContentTypeRule(ext: string)
    ensures ContentTypeFor(ext) != "text/html" <==> ext in {".js", ".css", ".json"}
    ensures ContentTypeFor(".JS") == "text/html" && ContentTypeFor("") == "text/html"
  {
  }

  lemma BaseNameOfJoin(a: string, b: string)
    requires b != [] && '/' !in b
    ensures BaseName(a + "/" + b) == b
  {
    var p := a + "/" + b;
    assert TrimmedEnd(p) == |p|;
    assert p[..|p|] == p;
    AfterLastSlashOfJoin(a, b);
  }

  lemma {:induction false} AfterLastSlashOfJoin(a: string, b: string)
    requires '/' !in b
    ensures AfterLastSlash(a + "/" + b) == b
  {
    var p := a + "/" + b;
    if b == [] {
      assert p[|p| - 1] == '/';
    } else {
      assert p[..|p| - 1] == a + "/" + b[..|b| - 1];
      AfterLastSlashOfJoin(a, b[..|b| - 1]);
      assert b == b[..|b| - 1] + [b[|b| - 1]];
    }
  }

  /** A file name with a stem and a last '.' has the part from that '.' as
      its extension. */
  lemma ExtNameOfFile(dir: string, stem: string, ext: string)
    requires stem != [] && '/' !in stem && '/' !in ext && '.' !in ext
    requires !(stem == "." && ext == [])
    ensures ExtName(dir + "/" + (stem + "." + ext)) == "." + ext
  {
    var b := stem + "." + ext;
    BaseNameOfJoin(dir, b);
    LastDotAfter(stem, ext);
    assert b[|stem|..] == "." + ext;
  }

  /** A dot file has no extension: ".bashrc" gives "". */
  lemma ExtNameOfDotFile(dir: string, rest: string)
    requires '/' !in rest && '.' !in rest
    ensures ExtName(dir + "/" + ("." + rest)) == ""
  {
    BaseNameOfJoin(dir, "." + rest);
    LastDotAfter("", rest);
    assert "" + "." + rest == "." + rest;
  }

  lemma IndexPath(base: string)
    ensures FilePath(base, "/") == base + "/index.html"
  {
    assert RequestTarget("/") == "index.html";
  }

  lemma IndexExt(base: string)
    ensures ExtName(base + "/index.html") == ".html"
  {
    var stem, ext := "index", "html";
    assert base + "/index.html" == base + "/" + (stem + "." + ext);
    ExtNameOfFile(base, stem, ext);
  }

  /** The root URL serves index.html from the base directory as HTML. */
  lemma RootServesIndex(base: string, files: map<string, seq<byte>>)
    requires base + "/index.html" in files
    ensures Handle(base, "/", files) == Response(200, Some("text/html"), Bytes(files[base + "/index.html"]))
  {
    IndexPath(base);
    IndexExt(base);
  }

  /** The query string is ignored: a URL other than "/" asks for the same file
      with or without it. */
  lemma QueryIgnored(base: string, path: string, query: string)
    requires '?' !in path && path != "/"
    ensures FilePath(base, path + "?" + query) == FilePath(base, path)
  {
    BeforeFirstStops(path, query);
    BeforeFirstAll(path);
  }

  /** ... but "/" is matched before the query is cut off, so "/?q" does not
      ask for index.html: it names the base directory itself. */
  lemma RootWithQuery(base: string, query: string)
    ensures FilePath(base, "/?" + query) == base + "//"
  {
    BeforeFirstStops("/", query);
  }

  lemma {:induction false} BeforeFirstStops(s: string, rest: string)
    requires '?' !in s
    ensures BeforeFirst(s + "?" + rest, '?') == s
  {
    if s != [] {
      assert (s + "?" + rest)[1..] == s[1..] + "?" + rest;
      BeforeFirstStops(s[1..], rest);
    }
  }

  lemma {:induction false} BeforeFirstAll(s: string)
    requires '?' !in s
    ensures BeforeFirst(s, '?') == s
  {
    if s != [] {
      BeforeFirstAll(s[1..]);
    }
  }

}
