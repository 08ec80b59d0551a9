// The site builder's small rules: page paths, theme addresses and their
// loaders, output file names, the layered asset file system, markdown
// unwrapping, and the bridge from background-task events to the hub.
module Hollow {
  import opened GoStrings
  import opened GoPath
  import opened WsHub
  import opened AsyncTask
  import opened EditorJobs

  datatype Option<T> = None | Some(value: T)

  // ---------------------------------------------------------------------
  // Page.GetPath

  /**
   * The page's "path" entry: a plain string, a script value exporting a
   * string, a script value exporting anything else, or anything else.
   */
  datatype PathValue = PathString(s: string) | ScriptString(s: string) | ScriptOther | PathOther

  /**
   * Page.GetPath: the path with every leading and trailing '/' removed, ""
   * when the entry is neither a string nor a script value.  A script value
   * exporting a non-string fails the type assertion and panics: None.
   */
  function GetPath(v: PathValue): (r: Option<string>)
    ensures r.None? <==> v.ScriptOther?
    ensures v.PathOther? ==> r == Some("")
    ensures (v.PathString? || v.ScriptString?) ==> r.Some? && |r.value| <= |v.s|
    ensures r.Some? ==> r.value == "" || (r.value[0] != '/' && r.value[|r.value| - 1] != '/')
  {
    match v
    case PathOther => Some("")
    case ScriptOther => None
    case PathString(s) => Some(Trim(s, '/'))
    case ScriptString(s) => Some(Trim(s, '/'))
  }

  /** Every character of `t` is '/'. */
  predicate AllSlashes(t: string) {
    forall i :: 0 <= i < |t| ==> t[i] == '/'
  }

  /** A suffix `l` of `s` after slashes, and a prefix `r` of `l` before slashes: `r` sits between two runs of slashes. */
  lemma Peel(s: string, l: string, r: string)
    requires |l| <= |s| && l == s[|s| - |l|..] && forall i :: 0 <= i < |s| - |l| ==> s[i] == '/'
    requires |r| <= |l| && r == l[..|r|] && forall i :: |r| <= i < |l| ==> l[i] == '/'
    ensures exists u, t :: AllSlashes(u) && AllSlashes(t) && s == u + r + t
  {
    var u := s[..|s| - |l|];
    var t := l[|r|..];
    assert s == u + l;
    assert l == r + t;
    assert AllSlashes(u) && AllSlashes(t);
    assert s == u + r + t;
  }

  /** The trimmed path is the original with nothing but '/' cut from either end. */
  lemma GetPathInside(s: string)
    ensures exists u, t :: AllSlashes(u) && AllSlashes(t) && s == u + GetPath(PathString(s)).value + t
  {
    var l := TrimLeft(s, '/');
    var r := TrimRight(l, '/');
    assert GetPath(PathString(s)).value == r;
    Peel(s, l, r);
    var u, t :| AllSlashes(u) && AllSlashes(t) && s == u + r + t;
    assert s == u + GetPath(PathString(s)).value + t;
  }

  /** Trimming is idempotent: a page path already trimmed stays as it is. */
  lemma GetPathIdempotent(s: string)
    ensures GetPath(PathString(GetPath(PathString(s)).value)).value == GetPath(PathString(s)).value
  {
    var r := GetPath(PathString(s)).value;
    assert TrimLeft(r, '/') == r;
    assert TrimRight(r, '/') == r;
  }

  // ---------------------------------------------------------------------
  // Theme addresses

  predicate HasScheme(url: string) {
    HasPrefix(url, "http://") || HasPrefix(url, "https://") || HasPrefix(url, "file://") || HasPrefix(url, "source://")
  }

  /** prepareThemeUrl: an address with a known scheme is kept, any other gets the default scheme in front. */
  function PrepareThemeUrl(url: string, defaultProtocol: string): (r: string)
    ensures HasScheme(url) ==> r == url
    ensures !HasScheme(url) ==> r == defaultProtocol + url
  {
    if HasPrefix(url, "http://") || HasPrefix(url, "https://") then url
    else if HasPrefix(url, "file://") then url
    else if HasPrefix(url, "source://") then url
    else defaultProtocol + url
  }

  lemma PrefixOfConcat(p: string, s: string)
    ensures HasPrefix(p + s, p)
  {
    assert (p + s)[..|p|] == p;
  }

  /** With a known default scheme the result always has a scheme, and preparing twice changes nothing. */
  lemma PrepareThemeUrlSettles(url: string, defaultProtocol: string)
    requires HasScheme(defaultProtocol)
    ensures HasScheme(PrepareThemeUrl(url, defaultProtocol))
    ensures PrepareThemeUrl(PrepareThemeUrl(url, defaultProtocol), defaultProtocol) == PrepareThemeUrl(url, defaultProtocol)
  {
    if !HasScheme(url) {
      var r := defaultProtocol + url;
      assert r[..|defaultProtocol|] == defaultProtocol;
      forall p | HasPrefix(defaultProtocol, p)
        ensures HasPrefix(r, p)
      {
        assert r[..|p|] == defaultProtocol[..|p|];
      }
    }
  }

  /** Hollow.prepareThemeUrl: the project's theme with "source://" by default, overridden by a non-empty fixed theme with "file://". */
  function ThemeUrl(projectTheme: string, fixedTheme: string): (r: string)
    ensures fixedTheme == "" ==> r == PrepareThemeUrl(projectTheme, "source://")
    ensures fixedTheme != "" ==> r == PrepareThemeUrl(fixedTheme, "file://")
  {
    var themeUrl := PrepareThemeUrl(projectTheme, "source://");
    if fixedTheme != "" then PrepareThemeUrl(fixedTheme, "file://") else themeUrl
  }

  datatype ThemeLoader =
    | GitLoader(url: string)        // http(s):// — a git repository
    | OsLoader(dir: string)         // file:// — a directory of the machine
    | SourceLoader(subdir: string)  // source:// — a directory of the project's own file system
    | LoaderError(msg: string)

  /**
   * GetThemeLoader.  "file://" paths starting with "." stay relative, others
   * become absolute; the project file system's Chroot may fail (`chrootOk`).
   */
  function GetThemeLoader(url: string, chrootOk: bool): (r: ThemeLoader)
    ensures (HasPrefix(url, "http://") || HasPrefix(url, "https://")) ==> r == GitLoader(url)
    ensures !HasScheme(url) ==> r.LoaderError?
    ensures r.OsLoader? ==> HasPrefix(url, "file://") && !HasPrefix(url, "http://") && !HasPrefix(url, "https://")
    ensures r.OsLoader? ==> var pa := TrimPrefix(url, "file://");
      r.dir == (if HasPrefix(pa, ".") then pa else "/" + pa)
  {
    if HasPrefix(url, "http://") || HasPrefix(url, "https://") then GitLoader(url)
    else if HasPrefix(url, "file://") then
      var pa := TrimPrefix(url, "file://");
      OsLoader(if HasPrefix(pa, ".") then pa else "/" + pa)
    else if HasPrefix(url, "source://") then
      if chrootOk then SourceLoader(TrimPrefix(url, "source://")) else LoaderError("chroot")
    else LoaderError("unsupported protocol, url: " + url)
  }

  /** The address the builder computes never hits the unsupported-protocol error. */
  lemma ThemeUrlSupported(projectTheme: string, fixedTheme: string, chrootOk: bool)
    ensures var r := GetThemeLoader(ThemeUrl(projectTheme, fixedTheme), chrootOk);
      r.LoaderError? ==> !chrootOk && HasPrefix(ThemeUrl(projectTheme, fixedTheme), "source://")
  {
    assert HasPrefix("source://", "source://");
    assert HasPrefix("file://", "file://");
    PrepareThemeUrlSettles(projectTheme, "source://");
    PrepareThemeUrlSettles(fixedTheme, "file://");
  }

  // ---------------------------------------------------------------------
  // Output file names

  /** BuildToFs: a page path with an extension is the file itself, any other is a directory holding index.html. */
  function OutputFile(name: string): (r: string) {
    if Ext(name) != "" then name else Join(name, "index.html")
  }

  lemma {:induction false} ExtAppend(y: string, s: string)
    requires Ext(s) != ""
    ensures Ext(y + s) == Ext(s)
    decreases |s|
  {
    var p := y + s;
    assert p[|p| - 1] == s[|s| - 1];
    if s[|s| - 1] != '.' {
      assert p[..|p| - 1] == y + s[..|s| - 1];
      ExtAppend(y, s[..|s| - 1]);
    }
  }

  /** A name made of a dot and then no dot or slash is its own extension. */
  lemma {:induction false} ExtOfDotName(x: string)
    requires '.' !in x && '/' !in x
    ensures Ext("." + x) == "." + x
    decreases |x|
  {
    var p := "." + x;
    if x != [] {
      assert p[..|p| - 1] == "." + x[..|x| - 1];
      ExtOfDotName(x[..|x| - 1]);
    }
  }

  lemma JoinWithSnoc(es: seq<string>, x: string)
    ensures es == [] ==> JoinWith(es + [x], '/') == x
    ensures es != [] ==> JoinWith(es + [x], '/') == JoinWith(es, '/') + "/" + x
    decreases |es|
  {
    if |es| > 1 {
      assert (es + [x])[1..] == es[1..] + [x];
      JoinWithSnoc(es[1..], x);
    } else if |es| == 1 {
      assert es + [x] == [es[0], x];
      assert [es[0], x][1..] == [x];
    }
  }

  /** Appending a plain element under a non-empty path appends it to the path's elements. */
  lemma ElementsSnoc(name: string, x: string)
    requires name != "" && Plain(x) && '/' !in x
    ensures Rooted(name + "/" + x) == Rooted(name)
    ensures Elements(name + "/" + x) == Elements(name) + [x]
  {
    var p := name + "/" + x;
    assert p == name + ['/'] + x;
    assert p[0] == name[0];
    SplitAppend(name, x, '/');
    SplitFree(x, '/');
    FoldAppend(Split(name, '/'), [x], Rooted(name), []);
    FoldPlain([x], Rooted(name), Elements(name));
  }

  /** A path joined with a plain element ends with that element. */
  lemma JoinEndsWith(name: string, x: string)
    requires Plain(x) && '/' !in x
    ensures HasSuffix(Join(name, x), x)
  {
    if name == "" {
      SplitFree(x, '/');
      FoldPlain([x], false, []);
      assert Join(name, x) == x;
    } else {
      var p := name + "/" + x;
      ElementsSnoc(name, x);
      var es := Elements(name);
      JoinWithSnoc(es, x);
      var j := JoinWith(es + [x], '/');
      assert HasSuffix(j, x) by {
        if es != [] {
          assert j == (JoinWith(es, '/') + "/") + x;
        }
      }
      if Rooted(p) {
        assert Clean(p) == "/" + j;
        assert (("/" + j)[|"/" + j| - |x|..]) == j[|j| - |x|..];
      }
    }
  }

  lemma IndexHtmlFacts()
    ensures Plain("index.html") && '/' !in "index.html"
    ensures Ext("index.html") == ".html"
  {
    assert "index.html" == "index" + ("." + "html");
    assert "." + "html" == ".html";
    ExtOfDotName("html");
    ExtAppend("index", ".html");
  }

  /** Every output file has an extension, so naming an output file again leaves it unchanged. */
  lemma OutputFileSettles(name: string)
    ensures Ext(OutputFile(name)) != ""
    ensures OutputFile(OutputFile(name)) == OutputFile(name)
  {
    if Ext(name) == "" {
      var f := Join(name, "index.html");
      IndexHtmlFacts();
      JoinEndsWith(name, "index.html");
      assert f == f[..|f| - 10] + "index.html";
      ExtAppend(f[..|f| - 10], "index.html");
    }
  }

  // ---------------------------------------------------------------------
  // MuitDir

  /** The first successful open among the layered file systems (each a function from name to file), or none. */
  function FirstOpen<F>(fss: seq<string -> Option<F>>, name: string): (r: Option<F>)
    ensures r.None? <==> forall i :: 0 <= i < |fss| ==> fss[i](name).None?
  {
    if fss == [] then None
    else if fss[0](name).Some? then fss[0](name)
    else
      assert forall i :: 1 <= i < |fss| ==> fss[i] == fss[1..][i - 1];
      FirstOpen(fss[1..], name)
  }

  /** A file that is found comes from the first layer that has it. */
  lemma {:induction false} FirstOpenIsFirst<F>(fss: seq<string -> Option<F>>, name: string, k: nat)
    requires k < |fss| && fss[k](name).Some?
    requires forall j :: 0 <= j < k ==> fss[j](name).None?
    ensures FirstOpen(fss, name) == fss[k](name)
    decreases k
  {
    if k > 0 {
      assert forall j :: 0 <= j < k - 1 ==> fss[1..][j] == fss[j + 1];
      FirstOpenIsFirst(fss[1..], name, k - 1);
    }
  }

  datatype OpenResult<F> = Opened(file: F) | ErrNotExist

  /** MuitDir.Open: try each file system in order and return the first file opened, else fs.ErrNotExist. */
  method MuitDirOpen<F>(fss: seq<string -> Option<F>>, name: string) returns (r: OpenResult<F>)
    ensures r.ErrNotExist? <==> FirstOpen(fss, name).None?
    ensures r.Opened? ==> FirstOpen(fss, name) == Some(r.file)
    ensures r.Opened? ==> exists i :: 0 <= i < |fss| && fss[i](name) == Some(r.file)
  {
    var i := 0;
    while i < |fss|
      invariant 0 <= i <= |fss|
      invariant forall j :: 0 <= j < i ==> fss[j](name).None?
    {
      var f := fss[i](name);
      if f.None? {
        i := i + 1;
        continue;
      }
      FirstOpenIsFirst(fss, name, i);
      return Opened(f.value);
    }
    return ErrNotExist;
  }

  // ---------------------------------------------------------------------
  // md

  /** hollow's md: with Unwrap, strips one leading <p> and one trailing </p>, but only when the output holds exactly one <p>. */
  function UnwrapHollow(s: string, unwrap: bool): (r: string) {
    if unwrap && Count(s, "<p>", 0) == 1 then TrimSuffix(TrimPrefix(s, "<p>"), "</p>") else s
  }

  lemma StripParagraph(x: string)
    ensures TrimSuffix(TrimPrefix("<p>" + x + "</p>", "<p>"), "</p>") == x
  {
    var s := "<p>" + x + "</p>";
    assert s[..3] == "<p>";
    assert TrimPrefix(s, "<p>") == x + "</p>";
    var t := x + "</p>";
    assert t[|t| - 4..] == "</p>";
  }

  /** Only a single wrapped paragraph is unwrapped; output with more or fewer than one <p> stays as it is. */
  lemma UnwrapRules(x: string, s: string)
    ensures Count("<p>" + x + "</p>", "<p>", 0) == 1 ==> UnwrapHollow("<p>" + x + "</p>", true) == x
    ensures Count(s, "<p>", 0) != 1 ==> UnwrapHollow(s, true) == s
    ensures UnwrapHollow(s, false) == s
  {
    StripParagraph(x);
  }

  // ---------------------------------------------------------------------
  // Task events to the hub

  /** The listener NewHollow installs: a done event closes the task's stream, any other sends its log text. */
  function OnEvent(h: State, key: string, e: Event): (r: State) {
    if e.isDone then CloseStep(h, key) else SendStep(h, key, e.log, false).0
  }

  method OnTaskEvent(hub: Hub, key: string, e: Event, fails: bool)
    modifies hub
    ensures hub.Snapshot() == OnEvent(old(hub.Snapshot()), key, e)
  {
    if e.isDone {
      var _ := hub.Close(key);
    } else {
      ghost var before := hub.Snapshot();
      var _ := hub.Send(key, e.log, fails);
      SendStateIgnoresFailure(before, key, e.log, fails);
    }
  }

  /** The hub after the listener has handled the manager's calls, in order. */
  function Replay(h: State, calls: seq<Call>): (r: State) {
    if calls == [] then h
    else
      var c := calls[|calls| - 1];
      OnEvent(Replay(h, calls[..|calls| - 1]), c.key, c.event)
  }

  /** The calls a task under `key` makes by logging `logs`, in order. */
  function LogCalls(id: nat, key: string, logs: seq<string>): (r: seq<Call>)
    ensures |r| == |logs|
    ensures forall i :: 0 <= i < |logs| ==> r[i] == Call(id, key, Event(false, logs[i]))
  {
    if logs == [] then [] else LogCalls(id, key, logs[..|logs| - 1]) + [Call(id, key, Event(false, logs[|logs| - 1]))]
  }

  lemma {:induction false} ReplayLogs(h: State, id: nat, key: string, logs: seq<string>)
    ensures Replay(h, LogCalls(id, key, logs)) == SendAllSteps(h, key, logs)
    decreases |logs|
  {
    if logs != [] {
      var calls := LogCalls(id, key, logs);
      assert calls[..|calls| - 1] == LogCalls(id, key, logs[..|logs| - 1]);
      ReplayLogs(h, id, key, logs[..|logs| - 1]);
    }
  }

  /**
   * A task's life as the hub sees it: its log lines and its done event
   * stream the lines under the task's key and then close that stream, just
   * like an editor job.
   */
  lemma TaskLifetime(h: State, id: nat, key: string, logs: seq<string>)
    ensures Replay(h, LogCalls(id, key, logs) + [Call(id, key, Event(true, ""))]) == AfterJob(h, key, logs)
  {
    var calls := LogCalls(id, key, logs) + [Call(id, key, Event(true, ""))];
    assert calls[..|calls| - 1] == LogCalls(id, key, logs);
    ReplayLogs(h, id, key, logs);
  }
}
