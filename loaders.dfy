// What the content loaders of hollow and bblog share: splitting the YAML
// front matter off a file, formatting the dates in its metadata, normalising
// the file's directory, rewriting asset URLs, and the deferred GetContent of a
// loaded file.  YAML parsing, markdown rendering, date formatting and HTML
// text extraction are function parameters.  File bodies are strings, one
// character per byte.
module Loaders {
  import opened GoStrings
  import opened GoPath

  datatype Result<T> = Ok(value: T) | Err(msg: string)

  datatype Option<T> = None | Some(value: T)

  // ---------------------------------------------------------------------
  // Front matter

  /** bytes.SplitN(s, sep, 3): at most three pieces, cut at the first two occurrences of `sep`. */
  function SplitN3(s: string, sep: string): (r: seq<string>)
    requires |sep| > 0
    ensures 1 <= |r| <= 3
    ensures |r| == 1 <==> IndexOfSub(s, sep, 0) == -1
    ensures |r| == 1 ==> r[0] == s
    ensures |r| == 2 ==> s == r[0] + sep + r[1] && IndexOfSub(s, sep, |r[0]| + |sep|) == -1
    ensures |r| == 3 ==> s == r[0] + sep + r[1] + sep + r[2]
    ensures |r| >= 2 ==> IndexOfSub(s, sep, 0) == |r[0]|
    ensures |r| == 3 ==> IndexOfSub(s, sep, |r[0]| + |sep|) == |r[0]| + |sep| + |r[1]|
  {
    var i := IndexOfSub(s, sep, 0);
    if i == -1 then [s]
    else
      var j := IndexOfSub(s, sep, i + |sep|);
      if j == -1 then
        CutOnce(s, sep, i);
        [s[..i], s[i + |sep|..]]
      else
        CutTwice(s, sep, i, j);
        [s[..i], s[i + |sep|..j], s[j + |sep|..]]
  }

  /** Cutting out an occurrence of `sep` leaves what comes before and after it. */
  lemma CutOnce(s: string, sep: string, i: nat)
    requires OccursAt(s, sep, i)
    ensures s == s[..i] + sep + s[i + |sep|..]
  {
    assert s == s[..i] + s[i..i + |sep|] + s[i + |sep|..];
  }

  /** Cutting out two occurrences of `sep`, the second after the first. */
  lemma CutTwice(s: string, sep: string, i: nat, j: nat)
    requires OccursAt(s, sep, i) && i + |sep| <= j && OccursAt(s, sep, j)
    ensures s == s[..i] + sep + s[i + |sep|..j] + sep + s[j + |sep|..]
  {
    CutOnce(s, sep, j);
    var t := s[..j];
    assert OccursAt(t, sep, i) by {
      assert t[i..i + |sep|] == s[i..i + |sep|];
    }
    CutOnce(t, sep, i);
    assert t[..i] == s[..i] && t[i + |sep|..] == s[i + |sep|..j];
  }

  /**
   * The loaders' front-matter rule: only a body starting with "---\n" that
   * splits into three pieces on "---" has front matter, the middle piece; the
   * body then becomes the third piece.
   */
  function SplitFrontMatter(body: string): (r: Option<(string, string)>)
  {
    if !HasPrefix(body, "---\n") then None
    else
      var bbs := SplitN3(body, "---");
      if |bbs| > 2 then Some((bbs[1], bbs[2])) else None
  }

  lemma DashesAtStart(body: string)
    requires HasPrefix(body, "---\n")
    ensures IndexOfSub(body, "---", 0) == 0
  {
    assert body[..3] == body[..4][..3];
  }

  /**
   * Front matter is found exactly when the body starts with "---\n" and a
   * second "---" follows; the body is then the dashes, the front matter, the
   * closing dashes and the rest, and the front matter holds no "---".
   */
  lemma SplitFrontMatterMeaning(body: string)
    ensures SplitFrontMatter(body).None? <==> !HasPrefix(body, "---\n") || IndexOfSub(body, "---", 3) == -1
    ensures SplitFrontMatter(body).Some? ==>
      var (meta, rest) := SplitFrontMatter(body).value;
      body == "---" + meta + "---" + rest && IndexOfSub(body, "---", 3) == 3 + |meta| && HasPrefix(meta, "\n")
  {
    if HasPrefix(body, "---\n") {
      DashesAtStart(body);
      var bbs := SplitN3(body, "---");
      assert |bbs| >= 2;
      if |bbs| == 3 {
        assert |bbs[0]| == 0;
        FrontMatterPieces(body, bbs[0], bbs[1], bbs[2]);
        NewlineOpens(body, bbs[1], bbs[2]);
      }
    }
  }

  lemma FrontMatterPieces(body: string, a: string, meta: string, rest: string)
    requires body == a + "---" + meta + "---" + rest && |a| == 0
    ensures body == "---" + meta + "---" + rest
  {
    assert a == "";
    assert a + "---" == "---";
  }

  /** After an opening "---\n", the front matter starts with the newline. */
  lemma NewlineOpens(body: string, meta: string, rest: string)
    requires HasPrefix(body, "---\n") && body == "---" + meta + "---" + rest
    ensures HasPrefix(meta, "\n")
  {
    assert body[3] == '\n';
    var tail := meta + ("---" + rest);
    assert body[3..] == tail;
    assert meta != "" by {
      assert tail[0] == body[3];
    }
    assert meta[0] == body[3];
  }

  lemma CloseFound(meta: string, rest: string)
    requires IndexOfSub(meta + "---", "---", 0) == |meta|
    ensures IndexOfSub("---" + meta + "---" + rest, "---", 3) == 3 + |meta|
  {
    IndexOfSubExtend(meta + "---", rest, "---", 0);
    assert "---" + meta + "---" + rest == "---" + (meta + "---" + rest);
    IndexOfSubShift("---", meta + "---" + rest, "---", 0);
  }

  lemma SamePieces(m: string, b: string, m': string, b': string)
    requires "---" + m + "---" + b == "---" + m' + "---" + b' && |m| == |m'|
    ensures m == m' && b == b'
  {
    var x := "---" + m + "---" + b;
    assert x[3..3 + |m|] == m;
    assert x[3..3 + |m'|] == m';
    assert x[6 + |m|..] == b;
    assert x[6 + |m'|..] == b';
  }

  /** Writing front matter and a body the way the loaders expect gives both back. */
  lemma FrontMatterRoundTrip(meta: string, rest: string)
    requires HasPrefix(meta, "\n")
    requires IndexOfSub(meta + "---", "---", 0) == |meta|
    ensures SplitFrontMatter("---" + meta + "---" + rest) == Some((meta, rest))
  {
    var body := "---" + meta + "---" + rest;
    assert body[..4] == "---" + meta[..1];
    CloseFound(meta, rest);
    SplitFrontMatterMeaning(body);
    var (m, b) := SplitFrontMatter(body).value;
    SamePieces(m, b, meta, rest);
  }

  // ---------------------------------------------------------------------
  // Metadata

  /** A metadata value as far as the loaders care: a YAML timestamp, or anything else. */
  datatype MetaValue = TimeValue(instant: int) | OtherValue(text: string)

  type Meta = map<string, MetaValue>

  /** The layout every timestamp is formatted with, chosen to be easy to parse in a script. */
  const TimeLayout: string := "Mon Jan 02 2006 15:04:05 GMT-0700 (MST)"

  function FormatValue(v: MetaValue, format: (int, string) -> string): (r: MetaValue) {
    if v.TimeValue? then OtherValue(format(v.instant, TimeLayout)) else v
  }

  /** The metadata with every timestamp replaced by its text in TimeLayout. */
  function FormatTimes(meta: Meta, format: (int, string) -> string): (r: Meta)
    ensures r.Keys == meta.Keys
  {
    map k | k in meta :: FormatValue(meta[k], format)
  }

  /** No timestamp is left, nothing else changes, and formatting again changes nothing. */
  lemma FormatTimesMeaning(meta: Meta, format: (int, string) -> string)
    ensures forall k :: k in FormatTimes(meta, format) ==> !FormatTimes(meta, format)[k].TimeValue?
    ensures forall k :: k in meta && !meta[k].TimeValue? ==> FormatTimes(meta, format)[k] == meta[k]
    ensures FormatTimes(FormatTimes(meta, format), format) == FormatTimes(meta, format)
  {
  }

  /** The range loop over the metadata that formats timestamps in place. */
  method FormatTimesLoop(meta: Meta, format: (int, string) -> string) returns (r: Meta)
    ensures r == FormatTimes(meta, format)
  {
    r := meta;
    var todo := meta.Keys;
    while todo != {}
      invariant todo <= meta.Keys && r.Keys == meta.Keys
      invariant forall k :: k in meta && k in todo ==> r[k] == meta[k]
      invariant forall k :: k in meta && k !in todo ==> r[k] == FormatValue(meta[k], format)
      decreases todo
    {
      var k :| k in todo;
      var v := r[k];
      if v.TimeValue? {
        r := r[k := OtherValue(format(v.instant, TimeLayout))];
      }
      todo := todo - {k};
    }
  }

  // ---------------------------------------------------------------------
  // Directories and asset URLs

  /** The file's directory (filepath.Split), made to start with "/". */
  function FileDir(filePath: string): (r: string)
    ensures HasPrefix(r, "/")
    ensures r + SplitPath(filePath).1 == filePath || r + SplitPath(filePath).1 == "/" + filePath
  {
    var d := SplitPath(filePath).0;
    if HasPrefix(d, "/") then d
    else
      SlashFront(d, SplitPath(filePath).1);
      "/" + d
  }

  lemma SlashFront(d: string, f: string)
    ensures HasPrefix("/" + d, "/") && ("/" + d) + f == "/" + (d + f)
  {
    assert ("/" + d)[..1] == "/";
  }

  /** The index of the first asset directory `a` for which `p` starts with "/"+a, from index `k` on; -1 if none. */
  function FirstAsset(p: string, assets: seq<string>, k: nat): (i: int)
    requires k <= |assets|
    ensures i == -1 || (k <= i < |assets| && HasPrefix(p, "/" + assets[i]))
    ensures forall j :: k <= j < |assets| && (i == -1 || j < i) ==> !HasPrefix(p, "/" + assets[j])
    decreases |assets| - k
  {
    if k == |assets| then -1
    else if HasPrefix(p, "/" + assets[k]) then k
    else FirstAsset(p, assets, k + 1)
  }

  /** The asset loop of the URL rewriter: only the first matching "/"+asset prefix is removed. */
  function StripAsset(p: string, assets: seq<string>): (r: string)
    ensures FirstAsset(p, assets, 0) == -1 ==> r == p
    ensures FirstAsset(p, assets, 0) != -1 ==> "/" + assets[FirstAsset(p, assets, 0)] + r == p
  {
    var i := FirstAsset(p, assets, 0);
    if i == -1 then p else TrimPrefix(p, "/" + assets[i])
  }

  /** The rewriter's loop, which breaks at the first asset prefix it removes. */
  method StripAssetLoop(p: string, assets: seq<string>) returns (r: string)
    ensures r == StripAsset(p, assets)
  {
    r := p;
    var k := 0;
    while k < |assets|
      invariant 0 <= k <= |assets|
      invariant FirstAsset(p, assets, 0) == FirstAsset(p, assets, k)
      invariant r == p
    {
      if HasPrefix(r, "/" + assets[k]) {
        r := TrimPrefix(r, "/" + assets[k]);
        return;
      }
      k := k + 1;
    }
  }

  /**
   * The URL rewriter given to the markdown renderer: a relative URL is joined
   * onto the file's directory first, then one asset prefix is removed.
   */
  function RewriteUrl(fileDir: string, assets: seq<string>, p: string): (r: string) {
    StripAsset(if IsAbs(p) then p else Join(fileDir, p), assets)
  }

  lemma JoinUnderRooted(dir: string, p: string)
    requires HasPrefix(dir, "/")
    ensures HasPrefix(Join(dir, p), "/")
  {
    var q := dir + "/" + p;
    assert q[0] == dir[0];
  }

  /**
   * A URL no asset prefix matches comes out absolute when the directory is,
   * and a relative one is resolved against the directory: the same URL in the
   * same directory always means the same place.
   */
  lemma RewriteUrlUnmatched(fileDir: string, assets: seq<string>, p: string)
    requires HasPrefix(fileDir, "/") && p != ""
    requires FirstAsset(if IsAbs(p) then p else Join(fileDir, p), assets, 0) == -1
    ensures HasPrefix(RewriteUrl(fileDir, assets, p), "/")
    ensures !IsAbs(p) ==> RewriteUrl(fileDir, assets, p) == Join(fileDir, p)
  {
    if !IsAbs(p) {
      JoinUnderRooted(fileDir, p);
    }
  }

  // ---------------------------------------------------------------------
  // Loaded content

  /**
   * A loaded file: its name, extension, metadata, eagerly rendered content
   * ("" when not requested), the body after the front matter, whether the
   * content was rendered at load time, and the renderer GetContent uses.
   */
  datatype Loaded = Loaded(name: string, ext: string, meta: Meta, content: string,
                           body: string, eager: bool, render: string -> Result<string>)

  /**
   * GetContent: the eager content, or a fresh render whose error is returned
   * as its text; with `pure`, the text of the HTML, or the extraction error's
   * text.
   */
  function GetContent(l: Loaded, pure: bool, textOf: string -> Result<string>): (r: string) {
    var s := if l.eager then Ok(l.content) else l.render(l.body);
    match s
    case Err(e) => e
    case Ok(html) =>
      if !pure then html
      else match textOf(html) { case Err(e) => e case Ok(t) => t }
  }

  /**
   * The second half of every loader: render now when asked, and otherwise
   * leave the content empty for GetContent to render.
   */
  function Finish(name: string, ext: string, meta: Meta, body: string, withContent: bool,
                  render: string -> Result<string>): (r: Result<Loaded>)
    ensures r.Err? <==> withContent && render(body).Err?
    ensures r.Ok? ==> r.value.name == name && r.value.ext == ext && r.value.meta == meta && r.value.body == body
    ensures r.Ok? && withContent ==> r.value.content == render(body).value
    ensures r.Ok? && !withContent ==> r.value.content == ""
  {
    if withContent then
      match render(body)
      case Err(e) => Err(e)
      case Ok(c) => Ok(Loaded(name, ext, meta, c, body, true, render))
    else Ok(Loaded(name, ext, meta, "", body, false, render))
  }

  /**
   * Eager and lazy loading agree: whenever the eager load succeeds, the lazy
   * one succeeds too and GetContent answers the same in both, with or
   * without `pure`.
   */
  lemma EagerMatchesLazy(name: string, ext: string, meta: Meta, body: string,
                         render: string -> Result<string>, pure: bool, textOf: string -> Result<string>)
    requires Finish(name, ext, meta, body, true, render).Ok?
    ensures Finish(name, ext, meta, body, false, render).Ok?
    ensures GetContent(Finish(name, ext, meta, body, true, render).value, pure, textOf)
         == GetContent(Finish(name, ext, meta, body, false, render).value, pure, textOf)
  {
  }

  /** A lazily loaded file whose body fails to render reports the error's text as its content. */
  lemma LazyRenderErrorIsText(name: string, ext: string, meta: Meta, body: string,
                              render: string -> Result<string>, pure: bool, textOf: string -> Result<string>)
    requires render(body).Err?
    ensures Finish(name, ext, meta, body, false, render).Ok?
    ensures GetContent(Finish(name, ext, meta, body, false, render).value, pure, textOf) == render(body).msg
  {
  }

  /** The front matter split and parsed: the metadata (empty without front matter) and the body, or the parse error. */
  function ReadFrontMatter(body: string, parse: string -> Result<Meta>): (r: Result<(Meta, string)>)
    ensures SplitFrontMatter(body).None? ==> r == Ok((map[], body))
    ensures SplitFrontMatter(body).Some? ==>
      var (m, rest) := SplitFrontMatter(body).value;
      (r.Err? <==> parse(m).Err?) && (r.Ok? ==> r.value == (parse(m).value, rest))
    ensures r.Err? ==> HasPrefix(r.msg, "parse file metadata error: ")
  {
    match SplitFrontMatter(body)
    case None => Ok((map[], body))
    case Some((m, rest)) =>
      match parse(m)
      case Err(e) =>
        assert HasPrefix("parse file metadata error: " + e, "parse file metadata error: ") by {
          PrefixOf("parse file metadata error: ", e);
        }
        Err("parse file metadata error: " + e)
      case Ok(meta) => Ok((meta, rest))
  }

  lemma PrefixOf(p: string, s: string)
    ensures HasPrefix(p + s, p)
  {
    assert (p + s)[..|p|] == p;
  }

  /** supportExt of bblog: the extensions its loaders accept. */
  predicate Supported(ext: string) {
    ext == ".md" || ext == ".html"
  }

  /** The name of a supported file: its base name without the extension. */
  function BaseName(filePath: string, ext: string): (r: string)
    ensures HasSuffix(SplitPath(filePath).1, ext) ==> r + ext == SplitPath(filePath).1
  {
    TrimSuffix(SplitPath(filePath).1, ext)
  }
}
