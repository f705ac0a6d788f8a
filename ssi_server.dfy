/**
 * The request handler of the SSI server: it maps a request to the file the
 * base static-file handler should send, renders `.html`/`.shtml` documents
 * into temporary files, and removes those files once the response is out.
 *
 * The include expansion itself is an opaque function `inline` from the
 * document's filesystem path and the request path to the rendered text.
 * The filesystem is abstract: `docs` is the set of paths `os.path.exists`
 * accepts, and a handler's `live` map holds the temporary files it created
 * that are still on disk, with their contents.
 */
module SsiServer {
  import opened Wrappers
  import opened PyPaths

  /** Directory index candidates, in the order they are probed. */
  const IndexNames: seq<string> := ["index.html", "index.htm", "index.shtml"]

  /** What a refused request is translated to, before the request path. */
  const NotFoundPrefix: string := "File not found: "

  /** The three ways `translate_path` can end. */
  datatype Target =
    | Refused(message: string)   // a script path: the error text is returned as the path
    | Render(source: string)     // an existing page, rendered into a fresh temporary file
    | Pass(path: string)         // anything else, handed to the base handler unchanged
  {
    /** The file chosen after index substitution, for a request that was not refused. */
    function Chosen(): string
      requires !Refused?
    {
      if Render? then source else path
    }

    /** The string `translate_path` returns, when a render gets the temporary name `stem + suffix`. */
    function Served(stem: string): string {
      match this
      case Refused(message) => message
      case Render(source) => stem + TempSuffix(source)
      case Pass(path) => path
    }
  }

  // ---------------------------------------------------------------------------
  // Path resolution
  // ---------------------------------------------------------------------------

  /** The filesystem path's last three characters lower-case to ".py", or its last four to ".pyc". */
  predicate IsScript(fsPath: string) {
    LowerEquals(Tail(fsPath, 3), ".py") || LowerEquals(Tail(fsPath, 4), ".pyc")
  }

  /** A document the include engine renders: the suffix test is case-sensitive. */
  predicate IsPage(p: string) {
    EndsWith(p, ".html") || EndsWith(p, ".shtml")
  }

  /** The first of `dir` joined with each of `names` that exists, or `dir` itself when none does. */
  function Probe(dir: string, names: seq<string>, docs: set<string>): string {
    if names == [] then dir
    else if Join(dir, names[0]) in docs then Join(dir, names[0])
    else Probe(dir, names[1..], docs)
  }

  /**
   * The index loop of translate_path: tries each name joined to the directory
   * in order and keeps the first that exists, or the directory when none does.
   */
  method ProbeIndex(dir: string, names: seq<string>, docs: set<string>) returns (fs: string)
    ensures fs == Probe(dir, names, docs)
  {
    fs := dir;
    var k := 0;
    while k < |names|
      invariant 0 <= k <= |names|
      invariant Probe(dir, names[k..], docs) == Probe(dir, names, docs)
    {
      var index := Join(dir, names[k]);
      if index in docs {
        assert Probe(dir, names[k..], docs) == index;
        return index;
      }
      assert names[k..][1..] == names[k + 1..];
      k := k + 1;
    }
    assert names[k..] == [];
  }

  /** Probing yields the directory itself or one of the joined candidates, which then exists. */
  lemma {:induction false} ProbeCandidate(dir: string, names: seq<string>, docs: set<string>)
    ensures var r := Probe(dir, names, docs);
      r == dir || (r in docs && exists i | 0 <= i < |names| :: r == Join(dir, names[i]))
  {
    if names != [] && Join(dir, names[0]) !in docs {
      ProbeCandidate(dir, names[1..], docs);
      var r := Probe(dir, names[1..], docs);
      if r != dir {
        var i :| 0 <= i < |names[1..]| && r == Join(dir, names[1..][i]);
        assert r == Join(dir, names[i + 1]);
      }
    }
  }

  /** The path after directory-index substitution, which only a request ending in '/' gets. */
  function Located(fsPath: string, requestPath: string, docs: set<string>): string {
    if EndsWith(requestPath, "/") then Probe(fsPath, IndexNames, docs) else fsPath
  }

  /**
   * The decision `translate_path` makes. `fsPath` is what the base handler
   * made of the request, `requestPath` is the handler's own request path
   * (tested for a trailing '/'), and `argPath` the path it was called with
   * (quoted in the error text).
   */
  function Resolve(fsPath: string, requestPath: string, argPath: string, docs: set<string>): Target {
    if IsScript(fsPath) then Refused(NotFoundPrefix + argPath)
    else
      var p := Located(fsPath, requestPath, docs);
      if IsPage(p) && p in docs then Render(p) else Pass(p)
  }

  /**
   * The three outcomes of a translation: exactly the script paths are
   * refused, with the request path in the error text; otherwise the chosen
   * file is the filesystem path itself or, for a request ending in '/', an
   * existing index candidate; and it is rendered exactly when it is an
   * existing page.
   */
  lemma ResolveOutcome(fsPath: string, requestPath: string, argPath: string, docs: set<string>)
    ensures var t := Resolve(fsPath, requestPath, argPath, docs);
      && (t.Refused? <==> IsScript(fsPath))
      && (t.Refused? ==> t.message == NotFoundPrefix + argPath)
      && (!t.Refused? ==> (t.Render? <==> IsPage(t.Chosen()) && t.Chosen() in docs))
      && (!t.Refused? && !EndsWith(requestPath, "/") ==> t.Chosen() == fsPath)
      && (!t.Refused? ==>
            t.Chosen() == fsPath ||
            (EndsWith(requestPath, "/") && t.Chosen() in docs &&
             exists i | 0 <= i < |IndexNames| :: t.Chosen() == Join(fsPath, IndexNames[i])))
  {
    ProbeCandidate(fsPath, IndexNames, docs);
  }

  /** A script path is refused exactly when some suffix of it lower-cases to ".py" or ".pyc". */
  lemma ScriptSuffix(p: string)
    ensures IsScript(p) <==> exists k | 0 <= k <= |p| :: Lower(p[k..]) == ".py" || Lower(p[k..]) == ".pyc"
  {
    LowerEqualsIff(Tail(p, 3), ".py");
    LowerEqualsIff(Tail(p, 4), ".pyc");
    if LowerEquals(Tail(p, 3), ".py") {
      assert |p| >= 3 && Tail(p, 3) == p[|p| - 3..];
    } else if LowerEquals(Tail(p, 4), ".pyc") {
      assert |p| >= 4 && Tail(p, 4) == p[|p| - 4..];
    }
    forall k | 0 <= k <= |p| && (Lower(p[k..]) == ".py" || Lower(p[k..]) == ".pyc")
      ensures IsScript(p)
    {
      assert |Lower(p[k..])| == |p| - k;
    }
  }

  /**
   * Probing picks the first candidate, in order, whose joined path exists,
   * and leaves `dir` alone when none does.
   */
  lemma {:induction false} ProbeFirst(dir: string, names: seq<string>, docs: set<string>, k: nat)
    requires k < |names| && Join(dir, names[k]) in docs
    requires forall j | 0 <= j < k :: Join(dir, names[j]) !in docs
    ensures Probe(dir, names, docs) == Join(dir, names[k])
  {
    if k > 0 {
      ProbeFirst(dir, names[1..], docs, k - 1);
    }
  }

  lemma {:induction false} ProbeNone(dir: string, names: seq<string>, docs: set<string>)
    requires forall j | 0 <= j < |names| :: Join(dir, names[j]) !in docs
    ensures Probe(dir, names, docs) == dir
  {
    if names != [] {
      ProbeNone(dir, names[1..], docs);
    }
  }

  /** For a directory request: index.html, then index.htm, then index.shtml, else the directory. */
  lemma IndexPriority(fsPath: string, requestPath: string, docs: set<string>)
    requires EndsWith(requestPath, "/")
    ensures var p := Located(fsPath, requestPath, docs);
      if Join(fsPath, "index.html") in docs then p == Join(fsPath, "index.html")
      else if Join(fsPath, "index.htm") in docs then p == Join(fsPath, "index.htm")
      else if Join(fsPath, "index.shtml") in docs then p == Join(fsPath, "index.shtml")
      else p == fsPath
  {
    if Join(fsPath, "index.html") in docs {
      ProbeFirst(fsPath, IndexNames, docs, 0);
    } else if Join(fsPath, "index.htm") in docs {
      ProbeFirst(fsPath, IndexNames, docs, 1);
    } else if Join(fsPath, "index.shtml") in docs {
      ProbeFirst(fsPath, IndexNames, docs, 2);
    } else {
      ProbeNone(fsPath, IndexNames, docs);
    }
  }

  /** A chosen `index.htm` is not a page, so it is passed to the base handler unrendered. */
  lemma HtmIndexPassedThrough(fsPath: string, requestPath: string, argPath: string, docs: set<string>)
    requires !IsScript(fsPath) && EndsWith(requestPath, "/")
    requires Join(fsPath, "index.html") !in docs && Join(fsPath, "index.htm") in docs
    ensures Resolve(fsPath, requestPath, argPath, docs) == Pass(Join(fsPath, "index.htm"))
  {
    ProbeFirst(fsPath, IndexNames, docs, 1);
    IndexHtmIsNoPage(fsPath);
  }

  /** A chosen `index.shtml` is rendered, and its temporary file is delivered as `.html`. */
  lemma ShtmlIndexRenderedAsHtml(fsPath: string, requestPath: string, argPath: string, docs: set<string>)
    requires !IsScript(fsPath) && EndsWith(requestPath, "/")
    requires Join(fsPath, "index.html") !in docs && Join(fsPath, "index.htm") !in docs
    requires Join(fsPath, "index.shtml") in docs
    ensures Resolve(fsPath, requestPath, argPath, docs) == Render(Join(fsPath, "index.shtml"))
    ensures TempSuffix(Join(fsPath, "index.shtml")) == ".html"
  {
    ProbeFirst(fsPath, IndexNames, docs, 2);
    JoinedSuffix(fsPath, "index.shtml", ".shtml");
    JoinedHasStem(fsPath, "index.shtml", 5);
    TempSuffixOfPage(Join(fsPath, "index.shtml"));
  }

  /** An index page is rendered when it is the first candidate, and delivered as `.html`. */
  lemma HtmlIndexRendered(fsPath: string, requestPath: string, argPath: string, docs: set<string>)
    requires !IsScript(fsPath) && EndsWith(requestPath, "/")
    requires Join(fsPath, "index.html") in docs
    ensures Resolve(fsPath, requestPath, argPath, docs) == Render(Join(fsPath, "index.html"))
    ensures TempSuffix(Join(fsPath, "index.html")) == ".html"
  {
    ProbeFirst(fsPath, IndexNames, docs, 0);
    JoinedSuffix(fsPath, "index.html", ".html");
    JoinedHasStem(fsPath, "index.html", 5);
    TempSuffixOfPage(Join(fsPath, "index.html"));
  }

  lemma IndexHtmIsNoPage(dir: string)
    ensures !IsPage(Join(dir, "index.htm"))
  {
    var p := Join(dir, "index.htm");
    JoinEndsWith(dir, "index.htm");
    assert p[|p| - 9..] == "index.htm";
    assert p[|p| - 1] == 'm';
  }

  lemma JoinedSuffix(dir: string, name: string, suffix: string)
    requires EndsWith(name, suffix)
    ensures EndsWith(Join(dir, name), suffix)
  {
    JoinEndsWith(dir, name);
    EndsWithTrans(Join(dir, name), name, suffix);
  }

  /** A name that starts with a non-dot and has no '/' keeps a stem when joined under any directory. */
  lemma JoinedHasStem(dir: string, name: string, dot: nat)
    requires 0 < dot < |name| && name[0] != '.' && name[dot] == '.'
    requires forall j | 0 <= j < |name| :: name[j] != '/'
    requires forall j | dot < j < |name| :: name[j] != '.'
    ensures HasStem(Join(dir, name))
  {
    var p := Join(dir, name);
    var n, m := |p|, |name|;
    JoinEndsWith(dir, name);
    assert p[n - m..] == name;
    assert forall j | n - m <= j < n :: p[j] == name[j - (n - m)];
    LastIndexBelow(p, '/', n - m);
    LastIndexAt(p, '.', n - m + dot);
    assert p[n - m] != '.';
  }

  // ---------------------------------------------------------------------------
  // Delivery suffix of a temporary file
  // ---------------------------------------------------------------------------

  /** The suffix a rendered document is delivered under: its own, except that `.shtml` becomes `.html`. */
  function DeliveryExt(ext: string): (r: string)
    ensures r != ".shtml"
    ensures r == ext || (ext == ".shtml" && r == ".html")
  {
    if ext == ".shtml" then ".html" else ext
  }

  /** The suffix of the temporary file made for the document at `originalPath`. */
  function TempSuffix(originalPath: string): string {
    DeliveryExt(Ext(originalPath))
  }

  /**
   * Every rendered document is delivered as `.html`, unless its file name is
   * all dots before the suffix (such as `.shtml`), in which case the
   * temporary file gets no suffix at all.
   */
  lemma TempSuffixOfPage(p: string)
    requires IsPage(p)
    ensures TempSuffix(p) == if HasStem(p) then ".html" else ""
  {
    var n := |p|;
    var m := if EndsWith(p, ".html") then 5 else 6;
    var sfx := if m == 5 then ".html" else ".shtml";
    assert p[n - m..] == sfx;
    assert forall j | n - m <= j < n :: p[j] == sfx[j - (n - m)];
    LastIndexAt(p, '.', n - m);
    if HasStem(p) {
      assert Ext(p) == sfx;
    }
  }

  /** Whatever `translate_path` renders goes to a temporary file with suffix `.html` (or none, as above). */
  lemma RenderedSuffix(fsPath: string, requestPath: string, argPath: string, docs: set<string>, stem: string)
    requires Resolve(fsPath, requestPath, argPath, docs).Render?
    ensures var src := Resolve(fsPath, requestPath, argPath, docs).source;
      src in docs &&
      Resolve(fsPath, requestPath, argPath, docs).Served(stem) ==
        stem + (if HasStem(src) then ".html" else "")
  {
    TempSuffixOfPage(Resolve(fsPath, requestPath, argPath, docs).source);
  }

  // ---------------------------------------------------------------------------
  // Temporary file bookkeeping
  // ---------------------------------------------------------------------------

  function Elems(s: seq<string>): set<string> {
    set x | x in s
  }

  lemma ElemsCons(f: string, s: seq<string>)
    ensures Elems([f] + s) == {f} + Elems(s)
  {
    assert forall x | x in [f] + s :: x == f || x in s;
  }

  predicate NoDups(s: seq<string>) {
    forall i, j | 0 <= i < j < |s| :: s[i] != s[j]
  }

  /** Nothing has been removed yet: the list names each file on disk exactly once. */
  predicate AllLive(files: seq<string>, disk: map<string, string>) {
    NoDups(files) && disk.Keys == Elems(files)
  }

  /** The OS hands out a name with a part no file on disk starts with. */
  predicate FreshStem(stem: string, disk: map<string, string>) {
    forall f | f in disk :: !(stem <= f)
  }

  /**
   * Removing `files` from `disk` one after the other, as the removal loop
   * does: the first name that is no longer on disk raises, which ends the
   * loop; the result is the disk left behind and that name, if any.
   */
  function Removal(files: seq<string>, disk: map<string, string>): (r: (map<string, string>, Option<string>))
    ensures r.0.Keys <= disk.Keys
    ensures r.1.Some? ==> r.1.value in files && r.1.value !in r.0
    ensures r.1.None? ==> r.0.Keys !! Elems(files)
  {
    if files == [] then (disk, None)
    else if files[0] !in disk then (disk, Some(files[0]))
    else Removal(files[1..], disk - {files[0]})
  }

  /**
   * Removal runs to the end exactly when the names are distinct and all on
   * disk, and then it removes exactly those names.
   */
  lemma {:induction false} RemovalSucceeds(files: seq<string>, disk: map<string, string>)
    ensures Removal(files, disk).1.None? <==> NoDups(files) && Elems(files) <= disk.Keys
    ensures Removal(files, disk).1.None? ==> Removal(files, disk).0 == disk - Elems(files)
  {
    if files != [] && files[0] in disk {
      var f, rest := files[0], files[1..];
      RemovalSucceeds(rest, disk - {f});
      assert Elems(files) == {f} + Elems(rest);
      assert NoDups(files) <==> NoDups(rest) && f !in rest by {
        if NoDups(rest) && f !in rest {
          forall i, j | 0 <= i < j < |files| ensures files[i] != files[j] {
            if i > 0 {
              assert files[i] == rest[i - 1] && files[j] == rest[j - 1];
            } else {
              assert files[j] == rest[j - 1];
            }
          }
        }
        if NoDups(files) {
          forall i, j | 0 <= i < j < |rest| ensures rest[i] != rest[j] {
            assert rest[i] == files[i + 1] && rest[j] == files[j + 1];
          }
          forall j | 0 <= j < |rest| ensures rest[j] != f {
            assert rest[j] == files[j + 1];
          }
        }
      }
      if Removal(files, disk).1.None? {
        assert Removal(files, disk).0 == (disk - {f}) - Elems(rest);
      }
    } else if files != [] {
      assert files[0] in Elems(files);
    }
  }

  /**
   * A removal that raises does so on the first name that is missing or
   * repeated: every name before it has been removed, and the rest of the disk
   * is untouched.
   */
  lemma {:induction false} RemovalStops(files: seq<string>, disk: map<string, string>, k: nat)
    requires k < |files|
    requires forall j | 0 <= j < k :: files[j] in disk && files[j] !in files[..j]
    requires files[k] !in disk || files[k] in files[..k]
    ensures Removal(files, disk) == (disk - Elems(files[..k]), Some(files[k]))
  {
    if k == 0 {
      assert files[..0] == [] && Elems(files[..0]) == {};
      assert files[0] !in disk && disk - {} == disk;
    } else {
      var f, rest := files[0], files[1..];
      assert files[..1] == [f];
      forall j | 0 <= j < k - 1
        ensures rest[j] in disk - {f} && rest[j] !in rest[..j]
      {
        assert rest[j] == files[j + 1] && files[..j + 1] == [f] + rest[..j];
      }
      assert files[..k] == [f] + rest[..k - 1];
      assert f in disk && rest[k - 1] == files[k];
      assert rest[k - 1] !in disk - {f} || rest[k - 1] in rest[..k - 1];
      RemovalStops(rest, disk - {f}, k - 1);
      assert Removal(files, disk) == Removal(rest, disk - {f});
      ElemsCons(f, rest[..k - 1]);
      assert (disk - {f}) - Elems(rest[..k - 1]) == disk - ({f} + Elems(rest[..k - 1]));
    }
  }

  /** After a removal that ran to the end, removing the same names again raises on the first one. */
  lemma SecondRemovalFails(files: seq<string>, disk: map<string, string>)
    requires files != [] && Removal(files, disk).1.None?
    ensures Removal(files, Removal(files, disk).0) == (Removal(files, disk).0, Some(files[0]))
  {
    RemovalSucceeds(files, disk);
    assert files[0] in Elems(files);
  }

  /** The temporary files on disk once translate_path has ended in `t`. */
  function Materialised(disk: map<string, string>, t: Target, stem: string,
                        inline: (string, string) -> string, argPath: string): map<string, string>
  {
    if t.Render? then disk[t.Served(stem) := inline(t.source, argPath)] else disk
  }

  /** The names translate_path adds to the handler's list when it ends in `t`. */
  function Minted(t: Target, stem: string): seq<string> {
    if t.Render? then [t.Served(stem)] else []
  }

  /**
   * One request handler. `path` is the request path the base handler parsed,
   * `tempFiles` the handler's list of temporary files, and `live` the
   * temporary files it created that are still on disk.
   */
  class Handler {
    var path: string
    var tempFiles: seq<string>
    var live: map<string, string>

    /** Every temporary file on disk is on the handler's list, so its removal loop reaches it. */
    ghost predicate Valid()
      reads this
    {
      live.Keys <= Elems(tempFiles)
    }

    constructor (requestPath: string)
      ensures path == requestPath && tempFiles == [] && live == map[]
      ensures Valid() && AllLive(tempFiles, live)
    {
      path := requestPath;
      tempFiles := [];
      live := map[];
    }

    /**
     * Writes `content` to a fresh temporary file whose suffix is the delivery
     * suffix of `originalPath`, records its name and returns it.
     */
    method CreateTempFile(originalPath: string, content: string, stem: string) returns (tmp: string)
      requires Valid() && FreshStem(stem, live)
      modifies this`tempFiles, this`live
      ensures Valid()
      ensures AllLive(old(tempFiles), old(live)) ==> AllLive(tempFiles, live)
      ensures tmp == stem + TempSuffix(originalPath) && tmp !in old(live)
      ensures tempFiles == old(tempFiles) + [tmp]
      ensures live == old(live)[tmp := content]
    {
      var ext := Ext(originalPath);
      if ext == ".shtml" {
        ext := ".html";
      }
      tmp := stem + ext;
      assert stem <= tmp;
      live := live[tmp := content];
      tempFiles := tempFiles + [tmp];
      assert Elems(tempFiles) == Elems(old(tempFiles)) + {tmp};
    }

    /**
     * Removes the listed files in order. The list itself is left as it is.
     * A name no longer on disk raises, and the files after it stay on disk.
     */
    method DeleteTempFiles() returns (failed: Option<string>)
      requires Valid()
      modifies this`live
      ensures Valid()
      ensures (live, failed) == Removal(tempFiles, old(live))
      ensures AllLive(old(tempFiles), old(live)) ==> failed.None? && live == map[]
      ensures failed.None? ==> live == map[]
    {
      ghost var result := Removal(tempFiles, live);
      if AllLive(tempFiles, live) {
        RemovalSucceeds(tempFiles, live);
        assert result.0 == map[];
      }
      failed := None;
      var i := 0;
      while i < |tempFiles|
        invariant 0 <= i <= |tempFiles|
        invariant live.Keys <= old(live).Keys
        invariant Removal(tempFiles[i..], live) == result
      {
        var tempFile := tempFiles[i];
        assert tempFiles[i..][0] == tempFile && tempFiles[i..][1..] == tempFiles[i + 1..];
        if tempFile !in live {
          failed := Some(tempFile);
          return;
        }
        live := live - {tempFile};
        i := i + 1;
      }
      assert tempFiles[i..] == [];
    }

    /**
     * Maps a request to the file the base handler should send: refuses
     * scripts, substitutes a directory index, and renders pages into a
     * temporary file.
     */
    method TranslatePath(argPath: string, fsPath: string, docs: set<string>,
                         inline: (string, string) -> string, stem: string) returns (r: string)
      requires Valid() && FreshStem(stem, live)
      modifies this`tempFiles, this`live
      ensures Valid()
      ensures AllLive(old(tempFiles), old(live)) ==> AllLive(tempFiles, live)
      ensures r == Resolve(fsPath, path, argPath, docs).Served(stem)
      ensures tempFiles == old(tempFiles) + Minted(Resolve(fsPath, path, argPath, docs), stem)
      ensures live == Materialised(old(live), Resolve(fsPath, path, argPath, docs), stem, inline, argPath)
    {
      if IsScript(fsPath) {
        r := NotFoundPrefix + argPath;
        return;
      }
      var fs := fsPath;
      if EndsWith(path, "/") {
        fs := ProbeIndex(fsPath, IndexNames, docs);
      }
      assert fs == Located(fsPath, path, docs);
      if IsPage(fs) && fs in docs {
        assert Resolve(fsPath, path, argPath, docs) == Render(fs);
        var content := inline(fs, argPath);
        fs := CreateTempFile(fs, content, stem);
      } else {
        assert Resolve(fsPath, path, argPath, docs) == Pass(fs);
      }
      r := fs;
    }

    /**
     * A GET: the base handler translates the handler's own request path and
     * sends the result, then the temporary files are removed. When the base
     * handler raises (`baseCompleted` false), removal is skipped.
     */
    method DoGet(fsPath: string, docs: set<string>, inline: (string, string) -> string,
                 stem: string, baseCompleted: bool) returns (served: string, failed: Option<string>)
      requires Valid() && FreshStem(stem, live)
      modifies this`tempFiles, this`live
      ensures Valid()
      ensures served == Resolve(fsPath, path, path, docs).Served(stem)
      ensures tempFiles == old(tempFiles) + Minted(Resolve(fsPath, path, path, docs), stem)
      ensures baseCompleted ==>
        (live, failed) == Removal(tempFiles, Materialised(old(live), Resolve(fsPath, path, path, docs), stem, inline, path))
      ensures !baseCompleted ==>
        failed.None? && live == Materialised(old(live), Resolve(fsPath, path, path, docs), stem, inline, path)
      ensures baseCompleted && AllLive(old(tempFiles), old(live)) ==> failed.None? && live == map[]
    {
      served := TranslatePath(path, fsPath, docs, inline, stem);
      failed := None;
      if baseCompleted {
        failed := DeleteTempFiles();
      }
    }

    /** A HEAD: the same translation and removal as a GET; only the body is not sent. */
    method DoHead(fsPath: string, docs: set<string>, inline: (string, string) -> string,
                  stem: string, baseCompleted: bool) returns (served: string, failed: Option<string>)
      requires Valid() && FreshStem(stem, live)
      modifies this`tempFiles, this`live
      ensures Valid()
      ensures served == Resolve(fsPath, path, path, docs).Served(stem)
      ensures tempFiles == old(tempFiles) + Minted(Resolve(fsPath, path, path, docs), stem)
      ensures baseCompleted ==>
        (live, failed) == Removal(tempFiles, Materialised(old(live), Resolve(fsPath, path, path, docs), stem, inline, path))
      ensures !baseCompleted ==>
        failed.None? && live == Materialised(old(live), Resolve(fsPath, path, path, docs), stem, inline, path)
      ensures baseCompleted && AllLive(old(tempFiles), old(live)) ==> failed.None? && live == map[]
    {
      served := TranslatePath(path, fsPath, docs, inline, stem);
      failed := None;
      if baseCompleted {
        failed := DeleteTempFiles();
      }
    }
  }

  /** Distinct stems give distinct temporary files for the same rendered page. */
  lemma ServedDistinct(t: Target, stemA: string, stemB: string)
    requires t.Render? && stemA != stemB
    ensures t.Served(stemA) != t.Served(stemB)
  {
    var a, b := t.Served(stemA), t.Served(stemB);
    if |stemA| == |stemB| {
      assert stemA == a[..|stemA|] && stemB == b[..|stemB|];
    }
  }

  /**
   * Two GETs of the same page on one handler, as happens when a handler
   * serves several requests on one persistent connection: the first cleans
   * up after itself; the second raises on the first request's file, already
   * gone, and leaves its own file on disk, because the list is never emptied.
   */
  method ReloadOnSameHandler(requestPath: string, fsPath: string, docs: set<string>,
                             inline: (string, string) -> string, stemA: string, stemB: string)
    returns (first: Option<string>, second: Option<string>, leaked: set<string>)
    requires Resolve(fsPath, requestPath, requestPath, docs).Render? && stemA != stemB
    ensures first == None
    ensures second == Some(Resolve(fsPath, requestPath, requestPath, docs).Served(stemA))
    ensures leaked == {Resolve(fsPath, requestPath, requestPath, docs).Served(stemB)}
  {
    var h := new Handler(requestPath);
    ghost var t := Resolve(fsPath, requestPath, requestPath, docs);
    ghost var a, b := t.Served(stemA), t.Served(stemB);
    ServedDistinct(t, stemA, stemB);
    var served;
    served, first := h.DoGet(fsPath, docs, inline, stemA, true);
    assert Minted(t, stemA) == [a];
    assert h.tempFiles == [a] && h.live == map[];
    served, second := h.DoGet(fsPath, docs, inline, stemB, true);
    ghost var disk := map[b := inline(t.source, requestPath)];
    assert Materialised(map[], t, stemB, inline, requestPath) == disk;
    assert h.tempFiles == [a, b] && a !in disk;
    assert Removal([a, b], disk) == (disk, Some(a));
    leaked := h.live.Keys;
  }
}
