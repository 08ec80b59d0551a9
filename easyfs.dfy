// easyfs: a small file API over a FUSE path file system (the FuseFs one, with
// an empty root): make and remove directories, remove a file, read a file
// with its attributes, write a file (making its directory first), and build
// a file tree to a given depth.
//
// The tree builder is shared with the editor's FsApi, which builds the same
// tree without directory paths and with status errors that carry no
// path; `Flavour` says which of the two is meant.
module EasyFs {
  import opened GoStrings
  import opened GoPath
  import opened KvStore
  import FuseFs
  import FuseFile

  /** easyfs.File: body is kept as bytes. */
  datatype File = File(name: string, path: string, dirPath: string, isDir: bool, createdAt: nat, modifyAt: nat, body: Bytes)

  /** easyfs.FileTree. */
  datatype FileTree = FileTree(file: File, items: seq<FileTree>)

  /** The errors: a status with the extra words statusError prints after it, or the empty file name. */
  datatype FsError = StatusErr(status: Status, detail: seq<string>) | EmptyFileName

  /** statusError: no error for OK, otherwise the status with its message words. */
  function StatusError(status: Status, detail: seq<string>): (r: Option<FsError>)
    ensures r.None? <==> status == OK
  {
    if status == OK then None else Some(StatusErr(status, detail))
  }

  /** Which FileTree: easyfs's, or the editor FsApi's (no DirPath, bare status errors). */
  datatype Flavour = Easy | Api

  /** OpenDir as FileTree sees it: a path's entries and status. */
  type Lister = string -> (seq<DirEntry>, Status)

  // ---------------------------------------------------------------------
  // FileTree, as a specification

  /** What follows the last '/' of a path: the file part of path.Split. */
  function AfterLastSlash(p: string): (r: string) {
    if p == "" || p[|p| - 1] == '/' then "" else AfterLastSlash(p[..|p| - 1]) + [p[|p| - 1]]
  }

  lemma {:induction false} AfterLastSlashIsSplit(p: string)
    ensures AfterLastSlash(p) == SplitPath(p).1
  {
    if p != "" && p[|p| - 1] != '/' {
      var q := p[..|p| - 1];
      AfterLastSlashIsSplit(q);
      var i := LastIndexOf(q, '/');
      assert LastIndexOf(p, '/') == i;
      assert p[i + 1..] == q[i + 1..] + [p[|p| - 1]];
    }
  }

  /** The node FileTree makes for the directory `base`: the last element of the path as its name. */
  function DirNode(base: string, fl: Flavour): (r: File) {
    File(AfterLastSlash(base), base, if fl == Easy then base else "", true, 0, 0, [])
  }

  /** The node FileTree makes for a non-directory entry of `base`. */
  function Leaf(base: string, e: DirEntry, fl: Flavour): (r: FileTree) {
    FileTree(File(e.name, Join(base, e.name), if fl == Easy then base else "", false, 0, 0, []), [])
  }

  /** The error for a failed OpenDir of `base`: easyfs names the path, FsApi does not. */
  function ListError(st: Status, base: string, fl: Flavour): (r: FsError) {
    StatusErr(st, if fl == Easy then [base] else [])
  }

  /** What FileTree returns: the tree built so far, and the error that stopped it. */
  datatype Built = Built(tree: FileTree, err: Option<FsError>)

  /** What one directory entry gives the loop: an item, or the error that ends it. */
  datatype Outcome = Ok(tree: FileTree) | Stop(err: FsError)

  /** FileTree's loop over the entries `es`: the items of each in turn, up to the first error. */
  function Gather(es: seq<DirEntry>, f: DirEntry -> Outcome): (r: (seq<FileTree>, Option<FsError>)) {
    if es == [] then ([], None)
    else
      var r := Gather(es[..|es| - 1], f);
      var o := f(es[|es| - 1]);
      if r.1.Some? then r
      else if o.Stop? then (r.0, Some(o.err))
      else (r.0 + [o.tree], None)
  }

  /** FileTree(base, deep). */
  function Tree(od: Lister, base: string, deep: nat, fl: Flavour): (r: Built)
    decreases deep, 2
  {
    if deep == 0 then Built(FileTree(DirNode(base, fl), []), None)
    else
      var l := od(base);
      if l.1 != OK then Built(FileTree(DirNode(base, fl), []), Some(ListError(l.1, base, fl)))
      else
        var r := Gather(l.0, EntryOf(od, base, deep, fl));
        Built(FileTree(DirNode(base, fl), r.0), r.1)
  }

  function EntryOf(od: Lister, base: string, deep: nat, fl: Flavour): (r: DirEntry -> Outcome)
    requires deep > 0
    decreases deep, 1
  {
    e => Entry(od, base, e, deep, fl)
  }

  /** One entry of `base`: a subdirectory's own tree one level less deep, or a leaf. */
  function Entry(od: Lister, base: string, e: DirEntry, deep: nat, fl: Flavour): (r: Outcome)
    requires deep > 0
    decreases deep, 0
  {
    if IsDirMode(e.mode) then
      var sub := Tree(od, Join(base, e.name), deep - 1, fl);
      if sub.err.Some? then Stop(sub.err.value) else Ok(sub.tree)
    else Ok(Leaf(base, e, fl))
  }

  // ---------------------------------------------------------------------
  // The loop, for any entries

  /** The loop finishes exactly when every entry gives an item, and then it has one item per entry, in order. */
  lemma {:induction false} GatherMeaning(es: seq<DirEntry>, f: DirEntry -> Outcome)
    ensures Gather(es, f).1.None? <==> forall i :: 0 <= i < |es| ==> f(es[i]).Ok?
    ensures Gather(es, f).1.None? ==>
      |Gather(es, f).0| == |es| && forall i :: 0 <= i < |es| ==> Gather(es, f).0[i] == f(es[i]).tree
  {
    if es != [] {
      var pre := es[..|es| - 1];
      var e := es[|es| - 1];
      GatherMeaning(pre, f);
      assert forall j :: 0 <= j < |pre| ==> pre[j] == es[j];
      var r := Gather(pre, f);
      if r.1.None? && f(e).Ok? {
        var full := Gather(es, f).0;
        assert full == r.0 + [f(e).tree];
        forall i | 0 <= i < |es|
          ensures full[i] == f(es[i]).tree
        {
          if i < |pre| {
            assert full[i] == r.0[i];
          }
        }
      }
    }
  }

  /** When the loop stops, it stops at the first entry with an error, with that error and the items of the entries before it. */
  lemma {:induction false} GatherFirstError(es: seq<DirEntry>, f: DirEntry -> Outcome)
    ensures var r := Gather(es, f);
      r.1.Some? ==> exists i :: 0 <= i < |es| && f(es[i]) == Stop(r.1.value)
                     && (forall j :: 0 <= j < i ==> f(es[j]).Ok?)
                     && |r.0| == i && (forall j :: 0 <= j < i ==> r.0[j] == f(es[j]).tree)
  {
    var r := Gather(es, f);
    if es != [] && r.1.Some? {
      var pre := es[..|es| - 1];
      var rp := Gather(pre, f);
      assert forall j :: 0 <= j < |pre| ==> pre[j] == es[j];
      if rp.1.Some? {
        GatherFirstError(pre, f);
        var i :| 0 <= i < |pre| && f(pre[i]) == Stop(rp.1.value)
                 && (forall j :: 0 <= j < i ==> f(pre[j]).Ok?)
                 && |rp.0| == i && (forall j :: 0 <= j < i ==> rp.0[j] == f(pre[j]).tree);
        assert f(es[i]) == Stop(r.1.value);
      } else {
        GatherMeaning(pre, f);
        assert f(es[|es| - 1]) == Stop(r.1.value);
      }
    }
  }

  /** Once a prefix of the entries has stopped the loop, the rest change nothing. */
  lemma {:induction false} GatherStops(es: seq<DirEntry>, k: nat, f: DirEntry -> Outcome)
    requires k <= |es| && Gather(es[..k], f).1.Some?
    ensures Gather(es, f) == Gather(es[..k], f)
    decreases |es|
  {
    if k < |es| {
      var pre := es[..|es| - 1];
      assert pre[..k] == es[..k];
      GatherStops(pre, k, f);
    } else {
      assert es[..k] == es;
    }
  }

  /** Every item the loop gathers is the item of one of the entries. */
  lemma {:induction false} GatherItems(es: seq<DirEntry>, f: DirEntry -> Outcome)
    ensures forall t :: t in Gather(es, f).0 ==> exists e :: e in es && f(e) == Ok(t)
  {
    if es != [] {
      var pre := es[..|es| - 1];
      GatherItems(pre, f);
      assert forall e :: e in pre ==> e in es;
    }
  }

  function MapOutcome(o: Outcome, m: FileTree -> FileTree, em: FsError -> FsError): (r: Outcome) {
    match o
    case Ok(t) => Ok(m(t))
    case Stop(x) => Stop(em(x))
  }

  function MapAll(ts: seq<FileTree>, m: FileTree -> FileTree): (r: seq<FileTree>)
    ensures |r| == |ts| && forall i :: 0 <= i < |ts| ==> r[i] == m(ts[i])
  {
    seq(|ts|, i requires 0 <= i < |ts| => m(ts[i]))
  }

  /** Entries whose outcomes are mapped give the mapped items and the mapped error. */
  lemma {:induction false} GatherMap(es: seq<DirEntry>, f: DirEntry -> Outcome, g: DirEntry -> Outcome,
                                     m: FileTree -> FileTree, em: FsError -> FsError)
    requires forall e :: e in es ==> g(e) == MapOutcome(f(e), m, em)
    ensures Gather(es, g).0 == MapAll(Gather(es, f).0, m)
    ensures Gather(es, g).1 == if Gather(es, f).1.Some? then Some(em(Gather(es, f).1.value)) else None
  {
    if es != [] {
      var pre := es[..|es| - 1];
      assert forall e :: e in pre ==> e in es;
      GatherMap(pre, f, g, m, em);
      var r := Gather(pre, f);
      var e := es[|es| - 1];
      if r.1.None? && f(e).Ok? {
        assert MapAll(r.0 + [f(e).tree], m) == MapAll(r.0, m) + [m(f(e).tree)];
      }
    }
  }

  // ---------------------------------------------------------------------
  // The tree

  /**
   * The tree's root is the directory `base` itself.  At depth 0 nothing is
   * listed; a failed listing gives the bare root and the listing's error.
   */
  lemma TreeMeaning(od: Lister, base: string, deep: nat, fl: Flavour)
    ensures var b := Tree(od, base, deep, fl);
      && b.tree.file.path == base && b.tree.file.isDir && b.tree.file.name == SplitPath(base).1
      && (fl == Easy ==> b.tree.file.dirPath == base) && (fl == Api ==> b.tree.file.dirPath == "")
      && (deep == 0 ==> b.tree.items == [] && b.err.None?)
      && (deep > 0 && od(base).1 != OK ==> b.tree.items == [] && b.err == Some(ListError(od(base).1, base, fl)))
  {
    AfterLastSlashIsSplit(base);
  }

  /**
   * A listed directory's tree fails exactly when one of its subdirectories
   * does; without a failure it has one item per entry, in the listing's
   * order; with one, the error is that of the first failing subdirectory and
   * the items are those of the entries before it.
   */
  lemma TreeListed(od: Lister, base: string, deep: nat, fl: Flavour)
    requires deep > 0 && od(base).1 == OK
    ensures var b := Tree(od, base, deep, fl);
      var es := od(base).0;
      && (b.err.None? <==> forall i :: 0 <= i < |es| ==> Entry(od, base, es[i], deep, fl).Ok?)
      && (b.err.None? ==>
            |b.tree.items| == |es| && forall i :: 0 <= i < |es| ==> b.tree.items[i] == Entry(od, base, es[i], deep, fl).tree)
      && (b.err.Some? ==>
            exists i :: 0 <= i < |es| && Entry(od, base, es[i], deep, fl) == Stop(b.err.value)
                        && (forall j :: 0 <= j < i ==> Entry(od, base, es[j], deep, fl).Ok?)
                        && |b.tree.items| == i
                        && (forall j :: 0 <= j < i ==> b.tree.items[j] == Entry(od, base, es[j], deep, fl).tree))
  {
    var es := od(base).0;
    var f := EntryOf(od, base, deep, fl);
    assert forall i :: 0 <= i < |es| ==> f(es[i]) == Entry(od, base, es[i], deep, fl);
    GatherMeaning(es, f);
    GatherFirstError(es, f);
  }

  /** A subdirectory entry stops the loop exactly when its own tree fails, with that error. */
  lemma EntryMeaning(od: Lister, base: string, e: DirEntry, deep: nat, fl: Flavour)
    requires deep > 0
    ensures var o := Entry(od, base, e, deep, fl);
      var sub := Tree(od, Join(base, e.name), deep - 1, fl);
      && (o.Stop? <==> IsDirMode(e.mode) && sub.err.Some?)
      && (o.Stop? ==> Some(o.err) == sub.err)
      && (o.Ok? && IsDirMode(e.mode) ==> o.tree == sub.tree)
      && (!IsDirMode(e.mode) ==> o.tree.file.path == Join(base, e.name) && o.tree.file.name == e.name
                                  && !o.tree.file.isDir && o.tree.items == [])
  {
  }

  /** A tree is at most `h` levels deep. */
  predicate HeightAtMost(t: FileTree, h: nat)
    decreases t
  {
    t.items == [] || (h > 0 && forall i :: 0 <= i < |t.items| ==> HeightAtMost(t.items[i], h - 1))
  }

  /** FileTree never goes deeper than asked, whether it succeeds or not. */
  lemma {:induction false} TreeBounded(od: Lister, base: string, deep: nat, fl: Flavour)
    ensures HeightAtMost(Tree(od, base, deep, fl).tree, deep)
    decreases deep, 2
  {
    var t := Tree(od, base, deep, fl).tree;
    if deep > 0 && od(base).1 == OK {
      var es := od(base).0;
      var f := EntryOf(od, base, deep, fl);
      forall e | e in es
        ensures f(e).Ok? ==> HeightAtMost(f(e).tree, deep - 1)
      {
        EntryBounded(od, base, e, deep, fl);
      }
      GatherItems(es, f);
      assert t.items == Gather(es, f).0;
      assert forall i :: 0 <= i < |t.items| ==> t.items[i] in t.items;
    } else {
      assert t.items == [];
    }
  }

  lemma {:induction false} EntryBounded(od: Lister, base: string, e: DirEntry, deep: nat, fl: Flavour)
    requires deep > 0
    ensures Entry(od, base, e, deep, fl).Ok? ==> HeightAtMost(Entry(od, base, e, deep, fl).tree, deep - 1)
    decreases deep, 0
  {
    if IsDirMode(e.mode) {
      TreeBounded(od, Join(base, e.name), deep - 1, fl);
    }
  }

  // ---------------------------------------------------------------------
  // The two flavours

  /** A tree with every DirPath emptied. */
  function EraseTree(t: FileTree): (r: FileTree)
    decreases t
  {
    FileTree(t.file.(dirPath := ""), seq(|t.items|, i requires 0 <= i < |t.items| => EraseTree(t.items[i])))
  }

  /** An error with the path words dropped. */
  function EraseError(e: FsError): (r: FsError) {
    if e.StatusErr? then e.(detail := []) else e
  }

  /**
   * The editor's FsApi builds easyfs's tree with the directory paths left
   * empty and the path left out of a listing error: the same shape, the same
   * names and paths, and the same point of failure.
   */
  lemma {:induction false} FlavoursAgree(od: Lister, base: string, deep: nat)
    ensures Tree(od, base, deep, Api).tree == EraseTree(Tree(od, base, deep, Easy).tree)
    ensures Tree(od, base, deep, Api).err == if Tree(od, base, deep, Easy).err.Some?
      then Some(EraseError(Tree(od, base, deep, Easy).err.value)) else None
    decreases deep, 2
  {
    if deep > 0 && od(base).1 == OK {
      var es := od(base).0;
      var f := EntryOf(od, base, deep, Easy);
      var g := EntryOf(od, base, deep, Api);
      forall e | e in es
        ensures g(e) == MapOutcome(f(e), EraseTree, EraseError)
      {
        EntryFlavoursAgree(od, base, e, deep);
      }
      GatherMap(es, f, g, EraseTree, EraseError);
      var items := Gather(es, f).0;
      assert EraseTree(Tree(od, base, deep, Easy).tree).items == MapAll(items, EraseTree);
    }
  }

  lemma {:induction false} EntryFlavoursAgree(od: Lister, base: string, e: DirEntry, deep: nat)
    requires deep > 0
    ensures Entry(od, base, e, deep, Api) == MapOutcome(Entry(od, base, e, deep, Easy), EraseTree, EraseError)
    decreases deep, 0
  {
    if IsDirMode(e.mode) {
      FlavoursAgree(od, Join(base, e.name), deep - 1);
    } else {
      assert EraseTree(Leaf(base, e, Easy)) == Leaf(base, e, Api);
    }
  }

  /** FileTree, with OpenDir as `od`: the tree to depth `deep` and the first error. */
  method BuildTree(od: Lister, base: string, deep: nat, fl: Flavour) returns (b: Built)
    ensures b == Tree(od, base, deep, fl)
    decreases deep
  {
    var node := DirNode(base, fl);
    if deep == 0 {
      return Built(FileTree(node, []), None);
    }
    var l := od(base);
    var es, st := l.0, l.1;
    if st != OK {
      return Built(FileTree(node, []), Some(ListError(st, base, fl)));
    }
    ghost var f := EntryOf(od, base, deep, fl);
    var items: seq<FileTree> := [];
    var i := 0;
    while i < |es|
      invariant 0 <= i <= |es|
      invariant Gather(es[..i], f) == (items, None)
    {
      assert es[..i + 1][..i] == es[..i];
      assert es[..i + 1][i] == es[i];
      var e := es[i];
      var p := Join(base, e.name);
      if IsDirMode(e.mode) {
        var sub := BuildTree(od, p, deep - 1, fl);
        assert f(e) == Entry(od, base, e, deep, fl);
        if sub.err.Some? {
          assert f(e) == Stop(sub.err.value);
          GatherStops(es, i + 1, f);
          return Built(FileTree(node, items), sub.err);
        }
        assert f(e) == Ok(sub.tree);
        items := items + [sub.tree];
      } else {
        assert f(e) == Entry(od, base, e, deep, fl);
        items := items + [Leaf(base, e, fl)];
      }
      i := i + 1;
    }
    assert es[..i] == es;
    b := Built(FileTree(node, items), None);
  }

  // ---------------------------------------------------------------------
  // Reading a whole file

  /** ioutil.ReadAll over an IOReader, with every buffer `bufLen` bytes long. */
  method ReadAll(r: FuseFs.IOReader, bufLen: nat) returns (bs: Bytes)
    requires bufLen > 0 && r.curr <= |r.f.value|
    modifies r
    ensures bs == r.f.value[old(r.curr)..]
  {
    bs := [];
    DrainDeliversRest(r.f.value, bufLen, r.curr);
    while true
      invariant r.curr <= |r.f.value|
      invariant bs + Drain(r.f.value, bufLen, r.curr) == r.f.value[old(r.curr)..]
      decreases |r.f.value| - r.curr
    {
      var d := r.Read(bufLen);
      bs := bs + d.data;
      if d.eof {
        return;
      }
    }
  }

  // ---------------------------------------------------------------------
  // The API

  /** The store once WriteFile has made the path's directory, when the path has one. */
  function Made(data: map<string, Bytes>, root: string, path: string): (r: map<string, Bytes>) {
    var dir := SplitPath(path).0;
    if dir == "" then data else data[FuseFs.DirKey(root, dir).value := []]
  }

  class Fs {
    const fs: FuseFs.FuseFS

    constructor (fs: FuseFs.FuseFS)
      ensures this.fs == fs
    {
      this.fs := fs;
    }

    /** Mkdir: the file system's Mkdir, its status as the error. */
    method Mkdir(name: string, putFails: bool) returns (err: Option<FsError>)
      modifies fs.store
      ensures err == (if name != "" && !putFails then None else Some(StatusErr(ENOENT, [])))
      ensures err.None? ==> fs.store.data == old(fs.store.data)[FuseFs.DirKey(fs.root, name).value := []]
      ensures err.Some? ==> fs.store.data == old(fs.store.data)
    {
      var status := fs.Mkdir(name, putFails);
      err := StatusError(status, []);
    }

    /** RmDir: the file system's Rmdir, which removes the directory's tree. */
    method RmDir(name: string, fails: bool) returns (err: Option<FsError>)
      modifies fs.store
      ensures err == (if fails then Some(StatusErr(EIO, [])) else None)
      ensures fs.store.data == if fails then old(fs.store.data) else DeleteTree(old(fs.store.data), TreePrefix(Join(fs.root, name)))
    {
      var status := fs.Rmdir(name, fails);
      err := StatusError(status, []);
    }

    /** RmFile: the file system's Unlink. */
    method RmFile(name: string, fails: bool) returns (err: Option<FsError>)
      modifies fs.store
      ensures err == (if fails then Some(StatusErr(EIO, [])) else None)
      ensures fs.store.data == if fails then old(fs.store.data) else old(fs.store.data) - {Join(fs.root, name)}
    {
      var status := fs.Unlink(name, fails);
      err := StatusError(status, []);
    }

    /**
     * GetFile: ENOENT unless the joined path is a key; otherwise the whole
     * value as the body, the path split into directory and name, a
     * directory only for a key ending in '/', and the zero times of a file
     * record that has none.  ReadAll's buffers are `bufLen` bytes long.
     */
    method GetFile(path: string, bufLen: nat) returns (fi: Option<File>, err: Option<FsError>)
      requires bufLen > 0
      ensures var k := Join(fs.root, path);
        && (k !in fs.store.data ==> fi == None && err == Some(StatusErr(ENOENT, [])))
        && (k in fs.store.data ==>
              err == None && fi == Some(File(SplitPath(path).1, path, SplitPath(path).0, |k| > 0 && k[|k| - 1] == '/', 0, 0, fs.store.data[k])))
    {
      var nf, status := fs.Open(path);
      if status != OK {
        return None, StatusError(status, []);
      }
      var a := nf.GetAttr(0);
      var reader := new FuseFs.IOReader(nf);
      var bs := ReadAll(reader, bufLen);
      ModeFacts();
      var sp := SplitPath(path);
      fi := Some(File(sp.1, path, sp.0, IsDirMode(a.mode), a.ctime, a.mtime, bs));
      err := None;
    }

    /**
     * WriteFile: refuses a path with no file name; makes the directory part
     * when there is one, creates the file and writes the content at offset
     * 0, stopping at the first failure.  On success the joined path holds
     * exactly the content, which GetFile then gives back.
     */
    method WriteFile(path: string, content: Bytes, now: nat, mkdirFails: bool, createFails: bool, writeFails: bool)
      returns (err: Option<FsError>)
      modifies fs.store
      ensures err.None? <==> SplitPath(path).1 != "" && (SplitPath(path).0 == "" || !mkdirFails) && !createFails && !writeFails
      ensures SplitPath(path).1 == "" ==> err == Some(EmptyFileName) && fs.store.data == old(fs.store.data)
      ensures SplitPath(path).1 != "" && SplitPath(path).0 != "" && mkdirFails ==>
        err == Some(StatusErr(ENOENT, [])) && fs.store.data == old(fs.store.data)
      ensures SplitPath(path).1 != "" && (SplitPath(path).0 == "" || !mkdirFails) && createFails ==>
        err == Some(StatusErr(EIO, [])) && fs.store.data == Made(old(fs.store.data), fs.root, path)
      ensures SplitPath(path).1 != "" && (SplitPath(path).0 == "" || !mkdirFails) && !createFails && writeFails ==>
        err == Some(StatusErr(EIO, [])) && fs.store.data == Made(old(fs.store.data), fs.root, path)[Join(fs.root, path) := []]
      ensures err.None? ==> fs.store.data == Made(old(fs.store.data), fs.root, path)[Join(fs.root, path) := content]
      ensures err.None? ==> fs.store.data[Join(fs.root, path)] == content
    {
      var sp := SplitPath(path);
      var dir, filename := sp.0, sp.1;
      if filename == "" {
        return Some(EmptyFileName);
      }
      var status := OK;
      if dir != "" {
        status := fs.Mkdir(dir, mkdirFails);
      }
      if status != OK {
        return StatusError(status, []);
      }
      assert |path| == |dir| + |filename|;
      ghost var made := fs.store.data;
      assert made == Made(old(fs.store.data), fs.root, path);
      err := CreateAndWrite(path, content, now, createFails, writeFails);
      assert err.None? ==> fs.store.data == made[Join(fs.root, path) := content];
    }

    /** The rest of WriteFile once the directory exists: create the file, then write the content into it at offset 0. */
    method CreateAndWrite(path: string, content: Bytes, now: nat, createFails: bool, writeFails: bool)
      returns (err: Option<FsError>)
      requires path != ""
      modifies fs.store
      ensures err.None? <==> !createFails && !writeFails
      ensures createFails ==> err == Some(StatusErr(EIO, [])) && fs.store.data == old(fs.store.data)
      ensures !createFails && writeFails ==>
        err == Some(StatusErr(EIO, [])) && fs.store.data == old(fs.store.data)[Join(fs.root, path) := []]
      ensures err.None? ==> fs.store.data == old(fs.store.data)[Join(fs.root, path) := content]
    {
      var nf, status := fs.Create(path, 0, now, createFails);
      if status != OK {
        return StatusError(status, []);
      }
      FuseFile.FirstWrite(nf.Snapshot(), fs.store.data, content, now, writeFails);
      var w := nf.Write(content, 0, now, writeFails);
      if !w.Wrote? {
        return StatusError(EIO, []);
      }
      err := None;
    }
  }
}
