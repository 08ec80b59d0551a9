// The editor pane for one file: the language is chosen from the file
// name's extension, edits reach the page's change handler only when the
// user made them (not when a file is loaded into the editor), the pane
// keeps its own copy of the body, and Meta+S saves the file with that body.
module FileEditor {
  import opened GoStrings

  datatype Option<T> = None | Some(value: T)

  /** The file shown: name, path, directory path, kind and body. */
  datatype FileInfo = FileInfo(name: string, path: string, dirPath: string, isDir: bool, body: string)

  /**
   * `{...props.file!, body}`: the file with its body replaced; with no file
   * only the body is set, the other fields being absent (shown empty).
   */
  function WithBody(file: Option<FileInfo>, body: string): (f: FileInfo)
    ensures f.body == body
    ensures file.Some? ==> f == file.value.(body := body)
  {
    match file
    case Some(fi) => fi.(body := body)
    case None => FileInfo("", "", "", false, body)
  }

  // ---------------------------------------------------------------------
  // Extension and language

  /** The last piece of a split on `c` is what follows the last `c`. */
  lemma {:induction false} SplitLast(s: string, c: char)
    requires c in s
    ensures |Split(s, c)| > 1
    ensures Split(s, c)[|Split(s, c)| - 1] == s[LastIndexOf(s, c) + 1..]
  {
    var k := LastIndexOf(s, c);
    var a := s[..k];
    var b := s[k + 1..];
    assert s == a + [c] + b;
    SplitAppend(a, b, c);
    SplitFree(b, c);
  }

  /**
   * The extension: the text after the last '.' of the name, or "" when
   * the name has no '.' or there is no file (the name split on '.' has
   * more than one piece exactly when it has a '.').
   */
  function Ext(file: Option<FileInfo>): (e: string)
    ensures file.None? ==> e == ""
    ensures file.Some? && '.' !in file.value.name ==> e == ""
    ensures file.Some? && '.' in file.value.name ==>
      e == file.value.name[LastIndexOf(file.value.name, '.') + 1..] && '.' !in e
  {
    if file.None? then ""
    else
      var s := Split(file.value.name, '.');
      SplitDots(file.value.name);
      if |s| > 1 then s[|s| - 1] else ""
  }

  lemma SplitDots(name: string)
    ensures '.' !in name ==> Split(name, '.') == [name]
    ensures '.' in name ==> var s := Split(name, '.');
      |s| > 1 && s[|s| - 1] == name[LastIndexOf(name, '.') + 1..] && '.' !in s[|s| - 1]
  {
    if '.' in name {
      SplitLast(name, '.');
      SplitPiecesFree(name, '.');
    } else {
      SplitFree(name, '.');
    }
  }

  /** A name made of a base, '.', and a dot-free extension has that extension. */
  lemma ExtOfDotted(f: FileInfo, base: string, ext: string)
    requires f.name == base + "." + ext && '.' !in ext
    ensures Ext(Some(f)) == ext
  {
    assert f.name == base + ['.'] + ext;
    LastIndexAfter(base, ext, '.');
    assert f.name[|base| + 1..] == ext;
  }

  /** The editor extensions: line wrapping, then the language mode. */
  datatype EditorExtension = LineWrapping | MarkdownMode | YamlMode | TsxMode

  /**
   * The editor extensions for an extension: line wrapping always; then
   * markdown for md, yaml for yaml and yml, tsx for js, jsx, ts and tsx,
   * and nothing more for anything else.
   */
  function Extensions(ext: string): (r: seq<EditorExtension>)
    ensures 1 <= |r| <= 2 && r[0] == LineWrapping
    ensures |r| == 2 <==> ext in {"md", "yaml", "yml", "js", "jsx", "ts", "tsx"}
    ensures |r| == 2 ==> (r[1] == MarkdownMode <==> ext == "md")
    ensures |r| == 2 ==> (r[1] == YamlMode <==> ext in {"yaml", "yml"})
    ensures |r| == 2 ==> (r[1] == TsxMode <==> ext in {"js", "jsx", "ts", "tsx"})
  {
    var e := [LineWrapping];
    if ext == "" then e
    else if ext == "md" then e + [MarkdownMode]
    else if ext == "yaml" || ext == "yml" then e + [YamlMode]
    else if ext == "js" || ext == "jsx" || ext == "ts" || ext == "tsx" then e + [TsxMode]
    else e
  }

  // ---------------------------------------------------------------------
  // The pane

  /** A change the editor reports: whether its first transaction carries a user-event annotation, or no update at all. */
  datatype Update = NoUpdate | Updated(userEvent: bool)

  /** The pane's state: its file, its own body, the editor's document, and what it passed on. */
  datatype Pane = Pane(file: Option<FileInfo>, body: string, doc: string, forwarded: seq<FileInfo>, saved: seq<FileInfo>)

  /** onChange: only a user change is passed on, as the file with the new body; the pane's body follows every change. */
  function Changed(p: Pane, e: string, u: Update): (r: Pane) {
    p.(body := e, forwarded := p.forwarded + (if u == Updated(true) then [WithBody(p.file, e)] else []))
  }

  class Editor {
    var file: Option<FileInfo>
    var body: string
    var doc: string
    var forwarded: seq<FileInfo>
    var saved: seq<FileInfo>

    function Snapshot(): (r: Pane)
      reads this
    {
      Pane(file, body, doc, forwarded, saved)
    }

    /** The pane starts from the file's body (or ""), with an empty editor and nothing passed on. */
    constructor (file: Option<FileInfo>)
      ensures Snapshot() == Pane(file, if file.Some? then file.value.body else "", "", [], [])
    {
      this.file := file;
      body := if file.Some? then file.value.body else "";
      doc := "";
      forwarded := [];
      saved := [];
    }

    /** onChange as the editor calls it. */
    method OnChange(e: string, u: Update)
      modifies this
      ensures Snapshot() == Changed(old(Snapshot()), e, u)
    {
      if u.Updated? {
        if u.userEvent {
          forwarded := forwarded + [WithBody(file, e)];
        }
      }
      body := e;
    }

    /** The user edits the document: the editor reports it with a user event. */
    method Edit(newDoc: string)
      modifies this
      ensures Snapshot() == Changed(old(Snapshot()).(doc := newDoc), newDoc, Updated(true))
    {
      doc := newDoc;
      OnChange(newDoc, Updated(true));
    }

    /**
     * A file is loaded: when its body differs from the document, the
     * document is replaced without a user event, so the pane's body follows
     * and nothing is passed on.
     */
    method Load(f: FileInfo)
      modifies this
      ensures file == Some(f) && doc == f.body && saved == old(saved)
      ensures forwarded == old(forwarded)
      ensures body == if old(doc) != f.body then f.body else old(body)
    {
      file := Some(f);
      if doc != f.body {
        doc := f.body;
        OnChange(doc, Updated(false));
      }
    }

    /** A key press: Meta+S saves the file with the pane's body. */
    method KeyDown(meta: bool, code: string)
      modifies this
      ensures Snapshot() == old(Snapshot()).(saved := old(saved) + (if meta && code == "KeyS" then [WithBody(file, body)] else []))
    {
      if meta && code == "KeyS" {
        saved := saved + [WithBody(file, body)];
      }
    }
  }
}
