// The original bblog builder: output file names, the constructor's file
// system defaults, the static file server's path resolution, its markdown
// loader and the blog listing with sidecar metadata files.  MuitDir.Open is
// the same as hollow's (Hollow.MuitDirOpen).
module Bblog {
  import opened GoStrings
  import opened GoPath
  import opened Loaders
  import H = Hollow

  /** BuildToFs: the pages "" and "index" are the site's index.html, any other page is name/index.html. */
  function OutputFile(name: string): (r: string) {
    if name != "" && name != "index" then Join(name, "index.html") else "index.html"
  }

  /** Every page is written to a file named index.html, at the top for "" and "index" and below the page's path otherwise. */
  lemma OutputFileIsIndex(name: string)
    ensures HasSuffix(OutputFile(name), "index.html")
    ensures name == "" || name == "index" ==> OutputFile(name) == "index.html"
    ensures name != "" && name != "index" ==> OutputFile(name) == Join(name, "index.html")
  {
    H.IndexHtmlFacts();
    H.JoinEndsWith(name, "index.html");
    assert "index.html"[|"index.html"| - 10..] == "index.html";
  }

  /** NewBblog: the standard file system when none is given, and the project's file system as the theme's when no theme's is given. */
  function Defaults<F>(fs: Option<F>, themeFs: Option<F>, std: F): (r: (F, F))
    ensures fs.Some? ==> r.0 == fs.value
    ensures fs.None? ==> r.0 == std
    ensures themeFs.Some? ==> r.1 == themeFs.value
    ensures themeFs.None? ==> r.1 == r.0
  {
    var f := if fs.Some? then fs.value else std;
    (f, if themeFs.Some? then themeFs.value else f)
  }

  /** DirFs.Open: the name made absolute and cleaned, then joined under the prefix ("." when empty). */
  function DirFsPath(prefix: string, name: string): (r: string) {
    Join(if prefix == "" then "." else prefix, Clean("/" + name))
  }

  /**
   * The path opened is the prefix's elements followed by the name's cleaned
   * elements, none of which is "..": no name reaches above the prefix.
   */
  lemma DirFsStaysInside(prefix: string, name: string)
    ensures Elements(DirFsPath(prefix, name)) == Elements(if prefix == "" then "." else prefix) + Elements("/" + name)
    ensures forall i :: 0 <= i < |Elements("/" + name)| ==> Plain(Elements("/" + name)[i])
  {
    JoinRooted(if prefix == "" then "." else prefix, name);
    RootedNoDotDot("/" + name);
  }

  /** MDBlogLoader.Load: only .md and .html, named without the extension, rendered on demand and never eagerly. */
  function LoadBlog(path: string, read: Result<string>, parse: string -> Result<Meta>,
                    render: string -> string): (r: Result<Option<Loaded>>)
    ensures !Supported(Ext(path)) ==> r == Ok(None)
    ensures r.Ok? && r.value.Some? ==> !r.value.value.eager && r.value.value.content == "" && r.value.value.ext == Ext(path)
    ensures r.Ok? && r.value.Some? ==> r.value.value.name == BaseName(path, Ext(path))
  {
    var ext := Ext(path);
    if !Supported(ext) then Ok(None)
    else
      match read
      case Err(e) => Err(e)
      case Ok(raw) =>
        match ReadFrontMatter(raw, parse)
        case Err(e) => Err(e)
        case Ok((meta, body)) => Ok(Some(Loaded(BaseName(path, ext), ext, meta, "", body, false, (b: string) => Ok(render(b)))))
  }

  /** The sidecar path+".yaml" as read: missing, unreadable, or its text. */
  datatype Sidecar = Missing | ReadFailed(msg: string) | Read(text: string)

  /** One step of the directory walk: the path, the walk's own error for it, whether it is a directory, the file and its sidecar. */
  datatype WalkItem = WalkItem(path: string, walkErr: Option<string>, isDir: bool, file: Result<string>, sidecar: Sidecar)

  /**
   * The walk callback of getBlog.  Walk errors, unreadable sidecars and bad
   * sidecar YAML stop the walk; directories, unsupported files and files the
   * loader fails on are passed over; a sidecar's keys override the front
   * matter's; timestamps are then formatted.
   */
  function VisitItem(it: WalkItem, parse: string -> Result<Meta>, render: string -> string,
                     format: (int, string) -> string): (r: Result<Option<Loaded>>)
  {
    if it.walkErr.Some? then Err(it.walkErr.value)
    else if it.isDir then Ok(None)
    else
      match LoadBlog(it.path, it.file, parse, render)
      case Err(_) => Ok(None)
      case Ok(None) => Ok(None)
      case Ok(Some(b)) =>
        match it.sidecar
        case Missing => Ok(Some(b.(meta := FormatTimes(b.meta, format))))
        case ReadFailed(e) => Err("read meta file error: " + e)
        case Read(t) =>
          match parse(t)
          case Err(e) => Err("unmarshal meta file error: " + e)
          case Ok(m) => Ok(Some(b.(meta := FormatTimes(b.meta + m, format))))
  }

  /**
   * A listed file's metadata: every sidecar key with the sidecar's value,
   * every other front-matter key with its own, timestamps formatted; a
   * missing sidecar is no error.
   */
  lemma SidecarOverrides(it: WalkItem, parse: string -> Result<Meta>, render: string -> string,
                         format: (int, string) -> string)
    requires it.walkErr.None? && !it.isDir
    requires LoadBlog(it.path, it.file, parse, render).Ok? && LoadBlog(it.path, it.file, parse, render).value.Some?
    ensures var front := LoadBlog(it.path, it.file, parse, render).value.value.meta;
      var r := VisitItem(it, parse, render, format);
      && (it.sidecar.Missing? ==> r.Ok? && r.value.Some? && r.value.value.meta == FormatTimes(front, format))
      && (it.sidecar.Read? && parse(it.sidecar.text).Ok? ==>
            var side := parse(it.sidecar.text).value;
            r.Ok? && r.value.Some?
            && r.value.value.meta.Keys == front.Keys + side.Keys
            && (forall k :: k in side ==> r.value.value.meta[k] == FormatValue(side[k], format))
            && (forall k :: k in front && k !in side ==> r.value.value.meta[k] == FormatValue(front[k], format)))
  {
  }

  /** A walk's outcome after `items`: what each step lists, in order, or the error of the first step that failed. */
  function Collect<I, T>(items: seq<I>, step: I -> Result<Option<T>>): (r: Result<seq<T>>)
  {
    if items == [] then Ok([])
    else
      match Collect(items[..|items| - 1], step)
      case Err(e) => Err(e)
      case Ok(bs) =>
        match step(items[|items| - 1])
        case Err(e) => Err(e)
        case Ok(None) => Ok(bs)
        case Ok(Some(b)) => Ok(bs + [b])
  }

  function Step(parse: string -> Result<Meta>, render: string -> string,
                format: (int, string) -> string): (r: WalkItem -> Result<Option<Loaded>>)
  {
    (it: WalkItem) => VisitItem(it, parse, render, format)
  }

  /** getBlog: the listed blogs, or nothing at all (after logging) when the walk stopped on an error. */
  function GetBlog(items: seq<WalkItem>, parse: string -> Result<Meta>, render: string -> string,
                   format: (int, string) -> string): (r: seq<Loaded>)
  {
    match Collect(items, Step(parse, render, format))
    case Err(_) => []
    case Ok(bs) => bs
  }

  /** The walk fails exactly when some step fails. */
  lemma {:induction false} CollectFails<I, T>(items: seq<I>, step: I -> Result<Option<T>>)
    ensures Collect(items, step).Err? <==> exists i :: 0 <= i < |items| && step(items[i]).Err?
  {
    if items != [] {
      var init := items[..|items| - 1];
      CollectFails(init, step);
      assert forall i :: 0 <= i < |init| ==> init[i] == items[i];
    }
  }

  /** At most one result is listed per step, and every listed result is what some step listed. */
  lemma {:induction false} CollectListsSteps<I, T>(items: seq<I>, step: I -> Result<Option<T>>)
    ensures Collect(items, step).Ok? ==> |Collect(items, step).value| <= |items|
    ensures Collect(items, step).Ok? ==> forall b :: b in Collect(items, step).value ==>
      exists i :: 0 <= i < |items| && step(items[i]) == Ok(Some(b))
  {
    if items != [] {
      var init := items[..|items| - 1];
      CollectListsSteps(init, step);
      assert forall i :: 0 <= i < |init| ==> init[i] == items[i];
    }
  }

  /** A walk over directories only lists nothing. */
  lemma {:induction false} BlogsSkipDirectories(items: seq<WalkItem>, parse: string -> Result<Meta>, render: string -> string,
                                                format: (int, string) -> string)
    requires forall i :: 0 <= i < |items| ==> items[i].isDir && items[i].walkErr.None?
    ensures GetBlog(items, parse, render, format) == []
  {
    var step := Step(parse, render, format);
    assert forall i :: 0 <= i < |items| ==> step(items[i]) == Ok(None);
    NothingListed(items, step);
  }

  lemma {:induction false} NothingListed<I, T>(items: seq<I>, step: I -> Result<Option<T>>)
    requires forall i :: 0 <= i < |items| ==> step(items[i]) == Ok(None)
    ensures Collect(items, step) == Ok([])
  {
    if items != [] {
      var init := items[..|items| - 1];
      assert forall i :: 0 <= i < |init| ==> init[i] == items[i];
      NothingListed(init, step);
    }
  }

  /** The walk itself: the callback applied to each step in walk order, the first error ending it. */
  method GetBlogLoop(items: seq<WalkItem>, parse: string -> Result<Meta>, render: string -> string,
                     format: (int, string) -> string) returns (blogs: seq<Loaded>)
    ensures blogs == GetBlog(items, parse, render, format)
  {
    var step := Step(parse, render, format);
    blogs := [];
    var i := 0;
    while i < |items|
      invariant 0 <= i <= |items|
      invariant Collect(items[..i], step) == Ok(blogs)
    {
      assert items[..i + 1][..i] == items[..i];
      var v := VisitItem(items[i], parse, render, format);
      assert v == step(items[i]);
      if v.Err? {
        ErrSticks(items, i + 1, step);
        return [];
      }
      if v.value.Some? {
        blogs := blogs + [v.value.value];
      }
      i := i + 1;
    }
    assert items[..i] == items;
  }

  lemma {:induction false} ErrSticks<I, T>(items: seq<I>, k: nat, step: I -> Result<Option<T>>)
    requires k <= |items| && Collect(items[..k], step).Err?
    ensures Collect(items, step).Err?
    decreases |items| - k
  {
    if k < |items| {
      assert items[..k + 1][..k] == items[..k];
      ErrSticks(items, k + 1, step);
    } else {
      assert items[..k] == items;
    }
  }
}
