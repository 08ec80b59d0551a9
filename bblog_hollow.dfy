// bblog's site builder: the configuration's environment masking, the walk
// adapter that drops nameless entries, its two content loaders (which accept
// only .md and .html and strip the extension from the name), and its
// unconditional markdown unwrapping.  Page.GetPath and prepareThemeUrl are
// the same as hollow's (Hollow.GetPath, Hollow.PrepareThemeUrl) and bblog's
// ContentTrees.Flat is ContentTrees.FlatBblog.
module BblogHollow {
  import opened GoStrings
  import opened GoPath
  import opened Loaders
  import CT = ContentTrees
  import H = Hollow

  // ---------------------------------------------------------------------
  // LoadConfig

  /** The configuration text as os.Expand sees it: literal text and $NAME / ${NAME} references. */
  datatype Piece = Text(s: string) | EnvRef(name: string)

  /** os.Expand: every reference replaced by the mapping's value for it. */
  function Expand(pieces: seq<Piece>, mapping: string -> string): (r: string) {
    if pieces == [] then ""
    else
      var last := pieces[|pieces| - 1];
      Expand(pieces[..|pieces| - 1], mapping) + (match last case Text(s) => s case EnvRef(n) => mapping(n))
  }

  /** os.Getenv: the variable's value, "" when it is unset. */
  function Getenv(env: map<string, string>, name: string): (r: string) {
    if name in env then env[name] else ""
  }

  /**
   * LoadConfig's text: the real values, or with expandEnv false as many '*'
   * as each value has bytes (Go's len counts the UTF-8 encoding).
   */
  function ConfigText(pieces: seq<Piece>, env: map<string, string>, expandEnv: bool): (r: string)
  {
    if expandEnv then Expand(pieces, (n: string) => Getenv(env, n))
    else Expand(pieces, (n: string) => Repeat('*', Utf8Len(Getenv(env, n))))
  }

  /** What LoadConfig puts in place of one piece. */
  function PieceText(p: Piece, env: map<string, string>, expandEnv: bool): (r: string) {
    match p
    case Text(s) => s
    case EnvRef(n) => if expandEnv then Getenv(env, n) else Repeat('*', Utf8Len(Getenv(env, n)))
  }

  lemma ConfigTextLast(pieces: seq<Piece>, env: map<string, string>, expandEnv: bool)
    requires pieces != []
    ensures ConfigText(pieces, env, expandEnv)
         == ConfigText(pieces[..|pieces| - 1], env, expandEnv) + PieceText(pieces[|pieces| - 1], env, expandEnv)
  {
  }

  /** The masked configuration has exactly as many bytes as the real one. */
  lemma {:induction false} MaskingKeepsBytes(pieces: seq<Piece>, env: map<string, string>)
    ensures Utf8Len(ConfigText(pieces, env, false)) == Utf8Len(ConfigText(pieces, env, true))
  {
    if pieces != [] {
      var init, last := pieces[..|pieces| - 1], pieces[|pieces| - 1];
      MaskingKeepsBytes(init, env);
      ConfigTextLast(pieces, env, false);
      ConfigTextLast(pieces, env, true);
      var m0, e0 := ConfigText(init, env, false), ConfigText(init, env, true);
      var mv, ev := PieceText(last, env, false), PieceText(last, env, true);
      Utf8LenAppend(m0, mv);
      Utf8LenAppend(e0, ev);
      PieceKeepsBytes(last, env);
    }
  }

  lemma PieceKeepsBytes(p: Piece, env: map<string, string>)
    ensures Utf8Len(PieceText(p, env, false)) == Utf8Len(PieceText(p, env, true))
  {
    if p.EnvRef? {
      Utf8LenRepeat('*', Utf8Len(Getenv(env, p.name)));
    }
  }

  /** A value of one two-byte character is masked with two '*'. */
  lemma MaskCountsBytes()
    ensures ConfigText([EnvRef("A")], map["A" := "\U{e9}"], false) == "**"
    ensures ConfigText([EnvRef("A")], map["A" := "\U{e9}"], true) == "\U{e9}"
  {
    assert [EnvRef("A")][..0] == [];
    assert Utf8Len("\U{e9}") == 2;
  }

  /** `m` lines up with `e` character for character, and differs from it only where it shows '*'. */
  predicate Aligned(m: string, e: string) {
    |m| == |e| && forall i :: 0 <= i < |m| ==> m[i] == '*' || m[i] == e[i]
  }

  lemma AlignedAppend(a: string, b: string, c: string, d: string)
    requires Aligned(a, b) && Aligned(c, d)
    ensures Aligned(a + c, b + d)
  {
    forall i | 0 <= i < |a + c|
      ensures (a + c)[i] == '*' || (a + c)[i] == (b + d)[i]
    {
      if i >= |a| {
        assert (a + c)[i] == c[i - |a|] && (b + d)[i] == d[i - |a|];
      }
    }
  }

  /**
   * When every variable's value is ASCII, the masked configuration lines up
   * with the real one character for character, and differs from it only
   * where it shows '*'.
   */
  lemma {:induction false} MaskingHidesOnlyValues(pieces: seq<Piece>, env: map<string, string>)
    requires forall n :: n in env ==> IsAscii(env[n])
    ensures Aligned(ConfigText(pieces, env, false), ConfigText(pieces, env, true))
  {
    if pieces != [] {
      var init, last := pieces[..|pieces| - 1], pieces[|pieces| - 1];
      MaskingHidesOnlyValues(init, env);
      ConfigTextLast(pieces, env, false);
      ConfigTextLast(pieces, env, true);
      var m0, e0 := ConfigText(init, env, false), ConfigText(init, env, true);
      var mv, ev := PieceText(last, env, false), PieceText(last, env, true);
      PieceAligned(last, env);
      AlignedAppend(m0, e0, mv, ev);
    }
  }

  lemma PieceAligned(p: Piece, env: map<string, string>)
    requires forall n :: n in env ==> IsAscii(env[n])
    ensures Aligned(PieceText(p, env, false), PieceText(p, env, true))
  {
    if p.EnvRef? {
      Utf8LenAscii(Getenv(env, p.name));
    }
  }

  /** Configuration text without references reads the same masked or not. */
  lemma {:induction false} MaskingWithoutReferences(pieces: seq<Piece>, env: map<string, string>)
    requires forall i :: 0 <= i < |pieces| ==> pieces[i].Text?
    ensures ConfigText(pieces, env, false) == ConfigText(pieces, env, true)
  {
    if pieces != [] {
      MaskingWithoutReferences(pieces[..|pieces| - 1], env);
    }
  }

  // ---------------------------------------------------------------------
  // mapDir

  /** bblog's walk callback result made into a walk decision: a result with an empty name is left out with its subtree. */
  function Visit(r: CT.Result<CT.Content>): (v: CT.Visit)
    ensures r.Err? ==> v == CT.VisitErr(r.err)
    ensures r.Ok? && r.value.name == "" ==> v == CT.Skip
    ensures r.Ok? && r.value.name != "" ==> v == CT.Take(r.value)
  {
    match r
    case Err(e) => CT.VisitErr(e)
    case Ok(c) => if c.name == "" then CT.Skip else CT.Take(c)
  }

  function Adapt(fn: (string, CT.Entry) -> CT.Result<CT.Content>): (r: (string, CT.Entry) -> CT.Visit) {
    (p: string, e: CT.Entry) => Visit(fn(p, e))
  }

  /** No node of bblog's content tree, at any depth, is nameless. */
  lemma WalkHasNoNamelessNodes(dir: CT.Entry, name: string, fn: (string, CT.Entry) -> CT.Result<CT.Content>)
    requires CT.MapDir(dir, name, Adapt(fn)).Ok?
    ensures forall t :: t in CT.Nodes(CT.MapDir(dir, name, Adapt(fn)).value) ==> t.content.name != ""
  {
    var P := (c: CT.Content) => c.name != "";
    forall p, e | Adapt(fn)(p, e).Take?
      ensures P(Adapt(fn)(p, e).content)
    {
      assert Adapt(fn)(p, e) == Visit(fn(p, e));
    }
    CT.MapDirNodes(dir, name, Adapt(fn), P);
  }

  // ---------------------------------------------------------------------
  // Loaders

  /** A file's extension is a suffix of its base name. */
  lemma ExtOfBase(p: string)
    ensures HasSuffix(SplitPath(p).1, Ext(p))
  {
    SuffixAfterSlash(SplitPath(p).0, SplitPath(p).1, Ext(p));
  }

  /** A slash-free suffix of `d + base`, where `d` is empty or ends in '/', is a suffix of `base`. */
  lemma SuffixAfterSlash(d: string, base: string, e: string)
    requires d == "" || d[|d| - 1] == '/'
    requires HasSuffix(d + base, e) && '/' !in e
    ensures HasSuffix(base, e)
  {
    var s := d + base;
    assert forall i :: |s| - |e| <= i < |s| ==> s[i] == e[i - (|s| - |e|)];
    assert d != "" ==> s[|d| - 1] == '/';
    assert |e| <= |base|;
    assert s[|s| - |e|..] == base[|base| - |e|..];
  }

  /**
   * MDBlogLoader.Load: files other than .md and .html are not content (no
   * result and no error) and are not read; the name is the base name without
   * the extension; links are rewritten against the file's directory.
   */
  function MdLoad(filePath: string, read: Result<string>, parse: string -> Result<Meta>,
                  format: (int, string) -> string, assets: seq<string>,
                  md: (string -> string, string) -> string, withContent: bool): (r: Result<Option<Loaded>>)
  {
    var ext := Ext(filePath);
    if !Supported(ext) then Ok(None)
    else
      match read
      case Err(e) => Err(e)
      case Ok(raw) =>
        match ReadFrontMatter(raw, parse)
        case Err(e) => Err(e)
        case Ok((meta, body)) =>
          var dir := FileDir(filePath);
          match Finish(BaseName(filePath, ext), ext, FormatTimes(meta, format), body, withContent,
                       (b: string) => Ok(md((u: string) => RewriteUrl(dir, assets, u), b)))
          case Err(e) => Err(e)
          case Ok(l) => Ok(Some(l))
  }

  /** HtmlLoader.Load: the same rules, with the body itself as the content. */
  function HtmlLoad(filePath: string, read: Result<string>, parse: string -> Result<Meta>,
                    format: (int, string) -> string, withContent: bool): (r: Result<Option<Loaded>>)
  {
    var ext := Ext(filePath);
    if !Supported(ext) then Ok(None)
    else
      match read
      case Err(e) => Err(e)
      case Ok(raw) =>
        match ReadFrontMatter(raw, parse)
        case Err(e) => Err(e)
        case Ok((meta, body)) =>
          match Finish(BaseName(filePath, ext), ext, FormatTimes(meta, format), body, withContent,
                       (b: string) => Ok(b))
          case Err(e) => Err(e)
          case Ok(l) => Ok(Some(l))
  }

  /**
   * MDBlogLoader.Load: an unsupported extension gives no content and no
   * error; a supported one fails only on reading or on the metadata, and its
   * name and extension make up the base name again.
   */
  lemma MdLoadRules(filePath: string, read: Result<string>, parse: string -> Result<Meta>,
                    format: (int, string) -> string, assets: seq<string>,
                    md: (string -> string, string) -> string, withContent: bool)
    ensures var r := MdLoad(filePath, read, parse, format, assets, md, withContent);
      && (!Supported(Ext(filePath)) <==> r == Ok(None))
      && (Supported(Ext(filePath)) ==> (r.Err? <==> read.Err? || ReadFrontMatter(read.value, parse).Err?))
      && (r.Ok? && r.value.Some? ==> r.value.value.name + r.value.value.ext == SplitPath(filePath).1)
  {
    ExtOfBase(filePath);
  }

  /** HtmlLoader.Load: the same three rules. */
  lemma HtmlLoadRules(filePath: string, read: Result<string>, parse: string -> Result<Meta>,
                      format: (int, string) -> string, withContent: bool)
    ensures var r := HtmlLoad(filePath, read, parse, format, withContent);
      && (!Supported(Ext(filePath)) <==> r == Ok(None))
      && (Supported(Ext(filePath)) ==> (r.Err? <==> read.Err? || ReadFrontMatter(read.value, parse).Err?))
      && (r.Ok? && r.value.Some? ==> r.value.value.name + r.value.value.ext == SplitPath(filePath).1)
  {
    ExtOfBase(filePath);
  }

  // ---------------------------------------------------------------------
  // md

  /** bblog's md: with Unwrap, strips one leading <p> and one trailing </p>, whatever the output holds. */
  function Unwrap(s: string, unwrap: bool): (r: string)
    ensures !unwrap ==> r == s
    ensures unwrap && HasPrefix(s, "<p>") && HasSuffix(s, "</p>") && |s| >= 7 ==> "<p>" + r + "</p>" == s
  {
    if unwrap then TrimSuffix(TrimPrefix(s, "<p>"), "</p>") else s
  }

  /**
   * On a single wrapped paragraph bblog and hollow agree; where hollow
   * counts more than one <p> and leaves the output alone, bblog still strips.
   */
  lemma UnwrapComparedWithHollow(x: string)
    ensures Unwrap("<p>" + x + "</p>", true) == x
    ensures Count("<p>" + x + "</p>", "<p>", 0) == 1 ==> H.UnwrapHollow("<p>" + x + "</p>", true) == x
    ensures Count("<p>" + x + "</p>", "<p>", 0) != 1 ==> H.UnwrapHollow("<p>" + x + "</p>", true) == "<p>" + x + "</p>"
  {
    H.StripParagraph(x);
  }
}
