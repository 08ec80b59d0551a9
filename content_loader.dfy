// hollow's content loaders: the file-system view relative to a file's
// directory, the markdown loader (MDLoader.Load) and the HTML loader.
// Reading the file is the `read` parameter, YAML parsing `parse`, date
// formatting `format`, and the two renderers (the .mdx one over the file's
// directory, the markdown one with a URL rewriter) `mdx` and `md`.
module ContentLoader {
  import opened GoStrings
  import opened GoPath
  import opened Loaders

  /** relativeFs.Open: the underlying file system opens the name joined onto the relative directory. */
  function RelativeOpen<F>(open: string -> F, relative: string, name: string): (r: F)
    ensures r == open(Join(relative, name))
  {
    open(Join(relative, name))
  }

  /**
   * Under a file's directory (which always starts with "/"), every relative
   * open asks the underlying file system for an absolute path.
   */
  lemma RelativeOpenUnderDir(filePath: string, name: string)
    ensures HasPrefix(Join(FileDir(filePath), name), "/")
  {
    JoinUnderRooted(FileDir(filePath), name);
  }

  /** The renderer the markdown loader chooses: the .mdx one for ".mdx", else markdown with the asset URL rewriter. */
  function MdRenderer(ext: string, fileDir: string, assets: seq<string>,
                      mdx: (string, string) -> Result<string>,
                      md: (string -> string, string) -> Result<string>): (r: string -> Result<string>)
  {
    if ext == ".mdx" then (b: string) => mdx(fileDir, b)
    else (b: string) => md((u: string) => RewriteUrl(fileDir, assets, u), b)
  }

  /** MDLoader.Load: the file's name keeps its extension here. */
  function MdLoad(filePath: string, read: Result<string>, parse: string -> Result<Meta>,
                  format: (int, string) -> string, assets: seq<string>,
                  mdx: (string, string) -> Result<string>, md: (string -> string, string) -> Result<string>,
                  withContent: bool): (r: Result<Loaded>)
  {
    match read
    case Err(e) => Err(e)
    case Ok(raw) =>
      match ReadFrontMatter(raw, parse)
      case Err(e) => Err(e)
      case Ok((meta, body)) =>
        Finish(SplitPath(filePath).1, Ext(filePath), FormatTimes(meta, format), body, withContent,
               MdRenderer(Ext(filePath), FileDir(filePath), assets, mdx, md))
  }

  /**
   * What a successful markdown load holds: the base name and extension of
   * the path, the metadata without timestamps, the body after the front matter
   * (or the whole file), and rendered content exactly when it was requested.
   * Failures are the read error, the metadata error, or an eager render error.
   */
  lemma MdLoadMeaning(filePath: string, read: Result<string>, parse: string -> Result<Meta>,
                      format: (int, string) -> string, assets: seq<string>,
                      mdx: (string, string) -> Result<string>, md: (string -> string, string) -> Result<string>,
                      withContent: bool)
    ensures var r := MdLoad(filePath, read, parse, format, assets, mdx, md, withContent);
      && (read.Err? ==> r == Err(read.msg))
      && (r.Ok? ==> r.value.name == SplitPath(filePath).1 && r.value.ext == Ext(filePath))
      && (r.Ok? ==> forall k :: k in r.value.meta ==> !r.value.meta[k].TimeValue?)
      && (r.Ok? && SplitFrontMatter(read.value).None? ==> r.value.body == read.value && r.value.meta == map[])
      && (r.Ok? && SplitFrontMatter(read.value).Some? ==> r.value.body == SplitFrontMatter(read.value).value.1)
      && (r.Ok? && !withContent ==> r.value.content == "")
      && (r.Ok? && withContent ==> r.value.content == r.value.render(r.value.body).value)
      && (read.Ok? && SplitFrontMatter(read.value).None? && !withContent ==> r.Ok?)
  {
    if read.Ok? {
      match ReadFrontMatter(read.value, parse)
      case Err(e) =>
      case Ok((meta, body)) =>
        FormatTimesMeaning(meta, format);
    }
  }

  /** A non-.mdx file's relative links are rewritten against its own directory. */
  lemma MdLinksRewritten(filePath: string, assets: seq<string>,
                         mdx: (string, string) -> Result<string>, md: (string -> string, string) -> Result<string>,
                         body: string)
    requires Ext(filePath) != ".mdx"
    ensures MdRenderer(Ext(filePath), FileDir(filePath), assets, mdx, md)(body)
         == md((u: string) => RewriteUrl(FileDir(filePath), assets, u), body)
  {
  }

  /** HtmlLoader.Load: the body after the front matter is the content; nothing is rendered. */
  function HtmlLoad(filePath: string, read: Result<string>, parse: string -> Result<Meta>,
                    format: (int, string) -> string, withContent: bool): (r: Result<Loaded>)
  {
    match read
    case Err(e) => Err(e)
    case Ok(raw) =>
      match ReadFrontMatter(raw, parse)
      case Err(e) => Err(e)
      case Ok((meta, body)) =>
        Finish(SplitPath(filePath).1, Ext(filePath), FormatTimes(meta, format), body, withContent,
               (b: string) => Ok(b))
  }

  /**
   * An HTML load fails only on reading or on the metadata; its Content is
   * the body exactly when requested, and GetContent always returns the body.
   */
  lemma HtmlLoadMeaning(filePath: string, read: Result<string>, parse: string -> Result<Meta>,
                        format: (int, string) -> string, withContent: bool, textOf: string -> Result<string>)
    ensures var r := HtmlLoad(filePath, read, parse, format, withContent);
      && (r.Err? <==> read.Err? || ReadFrontMatter(read.value, parse).Err?)
      && (r.Ok? ==> r.value.content == (if withContent then r.value.body else ""))
      && (r.Ok? ==> GetContent(r.value, false, textOf) == r.value.body)
  {
  }
}
