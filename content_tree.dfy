// Content trees: the nested listing of a content directory, the two
// flattenings (hollow's and bblog's), the top-level filter, and the directory
// walk that builds the trees.
//
// Every list is built by appending in a loop in the source; each of those
// loops is a method here, proved equal to a specification function defined
// element by element from the end of the list.
module ContentTrees {
  import opened GoPath

  datatype Content = Content(name: string, isDir: bool, ext: string, body: string)

  datatype Tree = Tree(content: Content, children: seq<Tree>)

  /** Every node of the forest in pre-order: each node, then its descendants, then its next sibling. */
  function Nodes(cs: seq<Tree>): (r: seq<Tree>)
    decreases cs
  {
    if cs == [] then []
    else
      var last := cs[|cs| - 1];
      Nodes(cs[..|cs| - 1]) + [last] + Nodes(last.children)
  }

  /** The elements of `s` that `p` accepts, in order. */
  function Keep(s: seq<Tree>, p: Tree -> bool): (r: seq<Tree>)
    ensures |r| <= |s|
    ensures forall t :: t in r <==> t in s && p(t)
  {
    if s == [] then []
    else Keep(s[..|s| - 1], p) + (if p(s[|s| - 1]) then [s[|s| - 1]] else [])
  }

  lemma {:induction false} KeepAppend(a: seq<Tree>, b: seq<Tree>, p: Tree -> bool)
    ensures Keep(a + b, p) == Keep(a, p) + Keep(b, p)
    decreases |b|
  {
    if b != [] {
      assert (a + b)[..|a + b| - 1] == a + b[..|b| - 1];
      assert (a + b)[|a + b| - 1] == b[|b| - 1];
      KeepAppend(a, b[..|b| - 1], p);
      var x := b[|b| - 1];
      var tail := if p(x) then [x] else [];
      assert Keep(a + b, p) == Keep(a + b[..|b| - 1], p) + tail;
      assert Keep(b, p) == Keep(b[..|b| - 1], p) + tail;
    } else {
      assert a + b == a;
    }
  }

  lemma {:induction false} KeepAll(s: seq<Tree>, p: Tree -> bool)
    requires forall t :: t in s ==> p(t)
    ensures Keep(s, p) == s
    decreases |s|
  {
    if s != [] {
      KeepAll(s[..|s| - 1], p);
    }
  }

  // ---------------------------------------------------------------------
  // hollow's Flat

  /** hollow's ContentTrees.Flat: files always, directories only with includeDir, each followed by its own flattening. */
  function FlatHollow(cs: seq<Tree>, includeDir: bool): (r: seq<Tree>)
    decreases cs
  {
    if cs == [] then []
    else
      var v := cs[|cs| - 1];
      FlatHollow(cs[..|cs| - 1], includeDir)
        + (if !v.content.isDir || includeDir then [v] else [])
        + FlatHollow(v.children, includeDir)
  }

  function HollowKeeps(includeDir: bool): (r: Tree -> bool) {
    (t: Tree) => !t.content.isDir || includeDir
  }

  /** hollow's flattening is the pre-order listing with directories dropped unless includeDir. */
  lemma {:induction false} FlatHollowIsPreorder(cs: seq<Tree>, includeDir: bool)
    ensures FlatHollow(cs, includeDir) == Keep(Nodes(cs), HollowKeeps(includeDir))
    decreases cs
  {
    if cs != [] {
      var v := cs[|cs| - 1];
      var p := HollowKeeps(includeDir);
      FlatHollowIsPreorder(cs[..|cs| - 1], includeDir);
      FlatHollowIsPreorder(v.children, includeDir);
      KeepAppend(Nodes(cs[..|cs| - 1]) + [v], Nodes(v.children), p);
      KeepAppend(Nodes(cs[..|cs| - 1]), [v], p);
      assert Keep([v], p) == (if p(v) then [v] else []) by {
        assert [v][..0] == [];
      }
    }
  }

  /** With includeDir, hollow's flattening lists every node in pre-order. */
  lemma FlatHollowAll(cs: seq<Tree>)
    ensures FlatHollow(cs, true) == Nodes(cs)
  {
    FlatHollowIsPreorder(cs, true);
    KeepAll(Nodes(cs), HollowKeeps(true));
  }

  /** The Flat method: the source's loop, recursing into each element's children. */
  method FlatHollowLoop(cs: seq<Tree>, includeDir: bool) returns (s: seq<Tree>)
    ensures s == FlatHollow(cs, includeDir)
    decreases cs
  {
    s := [];
    var i := 0;
    while i < |cs|
      invariant 0 <= i <= |cs|
      invariant s == FlatHollow(cs[..i], includeDir)
    {
      var v := cs[i];
      if v.content.isDir {
        if includeDir {
          s := s + [v];
        }
      } else {
        s := s + [v];
      }
      var children := FlatHollowLoop(v.children, includeDir);
      s := s + children;
      assert cs[..i + 1][..i] == cs[..i];
      i := i + 1;
    }
    assert cs[..i] == cs;
  }

  // ---------------------------------------------------------------------
  // bblog's Flat

  /** bblog's ContentTrees.Flat: a node is kept when its own flattening is empty or includeDir holds. */
  function FlatBblog(cs: seq<Tree>, includeDir: bool): (r: seq<Tree>)
    decreases cs
  {
    if cs == [] then []
    else
      var v := cs[|cs| - 1];
      var children := FlatBblog(v.children, includeDir);
      FlatBblog(cs[..|cs| - 1], includeDir) + (if |children| == 0 || includeDir then [v] else []) + children
  }

  /** Every node contributes at least itself or a descendant, so only an empty forest flattens to nothing. */
  lemma {:induction false} FlatBblogEmpty(cs: seq<Tree>, includeDir: bool)
    ensures FlatBblog(cs, includeDir) == [] <==> cs == []
    decreases cs
  {
  }

  function IsLeaf(t: Tree): (r: bool) {
    t.children == []
  }

  /**
   * Without includeDir, bblog's flattening is the pre-order list of the
   * leaves: whether a node is a directory plays no part, so an empty
   * directory is listed and a non-empty one is not.
   */
  lemma {:induction false} FlatBblogLeaves(cs: seq<Tree>)
    ensures FlatBblog(cs, false) == Keep(Nodes(cs), IsLeaf)
    decreases cs
  {
    if cs != [] {
      var v := cs[|cs| - 1];
      FlatBblogLeaves(cs[..|cs| - 1]);
      FlatBblogLeaves(v.children);
      FlatBblogEmpty(v.children, false);
      KeepAppend(Nodes(cs[..|cs| - 1]) + [v], Nodes(v.children), IsLeaf);
      KeepAppend(Nodes(cs[..|cs| - 1]), [v], IsLeaf);
      assert Keep([v], IsLeaf) == (if IsLeaf(v) then [v] else []) by {
        assert [v][..0] == [];
      }
    }
  }

  /** With includeDir, bblog's flattening lists every node in pre-order, like hollow's. */
  lemma {:induction false} FlatBblogAll(cs: seq<Tree>)
    ensures FlatBblog(cs, true) == Nodes(cs)
    decreases cs
  {
    if cs != [] {
      FlatBblogAll(cs[..|cs| - 1]);
      FlatBblogAll(cs[|cs| - 1].children);
    }
  }

  /** The two flattenings differ on an empty directory: hollow drops it, bblog keeps it. */
  lemma EmptyDirFlattenings(name: string)
    ensures var t := Tree(Content(name, true, "", ""), []);
      FlatHollow([t], false) == [] && FlatBblog([t], false) == [t]
  {
    var t := Tree(Content(name, true, "", ""), []);
    assert [t][..0] == [];
  }

  method FlatBblogLoop(cs: seq<Tree>, includeDir: bool) returns (s: seq<Tree>)
    ensures s == FlatBblog(cs, includeDir)
    decreases cs
  {
    s := [];
    var i := 0;
    while i < |cs|
      invariant 0 <= i <= |cs|
      invariant s == FlatBblog(cs[..i], includeDir)
    {
      var v := cs[i];
      var children := FlatBblogLoop(v.children, includeDir);
      if |children| == 0 || includeDir {
        s := s + [v];
      }
      s := s + children;
      assert cs[..i + 1][..i] == cs[..i];
      i := i + 1;
    }
    assert cs[..i] == cs;
  }

  // ---------------------------------------------------------------------
  // Filter

  datatype Option<T> = None | Some(value: T)

  /** hollow's ContentTrees.Filter: no predicate returns the list itself; otherwise the accepted top-level elements, in order. */
  method Filter(cs: seq<Tree>, f: Option<Tree -> bool>) returns (s: seq<Tree>)
    ensures f.None? ==> s == cs
    ensures f.Some? ==> s == Keep(cs, f.value)
  {
    if f.None? {
      return cs;
    }
    s := [];
    var i := 0;
    while i < |cs|
      invariant 0 <= i <= |cs|
      invariant s == Keep(cs[..i], f.value)
    {
      if f.value(cs[i]) {
        s := s + [cs[i]];
      }
      assert cs[..i + 1][..i] == cs[..i];
      i := i + 1;
    }
    assert cs[..i] == cs;
  }

  // ---------------------------------------------------------------------
  // mapDir

  /** A directory entry of the walked file system; `readable` says whether listing it succeeds. */
  datatype Entry = Entry(name: string, isDir: bool, readable: bool, entries: seq<Entry>)

  /** What the walk callback makes of an entry: an error, "leave it out", or the content to list. */
  datatype Visit = VisitErr(err: string) | Skip | Take(content: Content)

  datatype Result<T> = Ok(value: T) | Err(err: string)

  /** mapDir: list `dir` (whose path is `name`) and turn its entries into trees, recursing into directories. */
  function MapDir(dir: Entry, name: string, fn: (string, Entry) -> Visit): (r: Result<seq<Tree>>)
    decreases dir, |dir.entries| + 1
  {
    if !dir.readable then Err("readdir " + name)
    else MapEntries(dir, |dir.entries|, name, fn)
  }

  /** The trees built from the first `k` entries of `dir`, or the first error met among them. */
  function MapEntries(dir: Entry, k: nat, name: string, fn: (string, Entry) -> Visit): (r: Result<seq<Tree>>)
    requires k <= |dir.entries|
    decreases dir, k
  {
    if k == 0 then Ok([])
    else
      match MapEntries(dir, k - 1, name, fn)
      case Err(e) => Err(e)
      case Ok(prev) =>
        var item := dir.entries[k - 1];
        var next := Join(name, item.name);
        match fn(next, item)
        case VisitErr(e) => Err(e)
        case Skip => Ok(prev)
        case Take(c) =>
          if !item.isDir then Ok(prev + [Tree(c, [])])
          else
            match MapDir(item, next, fn)
            case Err(e) => Err(e)
            case Ok(children) => Ok(prev + [Tree(c, children)])
  }

  /** The walk method: the source's loop over the listing, recursing into subdirectories. */
  method MapDirLoop(dir: Entry, name: string, fn: (string, Entry) -> Visit) returns (r: Result<seq<Tree>>)
    ensures r == MapDir(dir, name, fn)
    decreases dir, |dir.entries| + 1
  {
    if !dir.readable {
      return Err("readdir " + name);
    }
    var ats: seq<Tree> := [];
    var i := 0;
    while i < |dir.entries|
      invariant 0 <= i <= |dir.entries|
      invariant MapEntries(dir, i, name, fn) == Ok(ats)
    {
      var item := dir.entries[i];
      var nextName := Join(name, item.name);
      var a := fn(nextName, item);
      if a.VisitErr? {
        MapEntriesErrSticks(dir, i + 1, |dir.entries|, name, fn);
        return Err(a.err);
      }
      if a.Skip? {
        i := i + 1;
        continue;
      }
      var children: seq<Tree> := [];
      if item.isDir {
        var sub := MapDirLoop(item, nextName, fn);
        if sub.Err? {
          MapEntriesErrSticks(dir, i + 1, |dir.entries|, name, fn);
          return Err(sub.err);
        }
        children := sub.value;
      }
      ats := ats + [Tree(a.content, children)];
      i := i + 1;
    }
    return Ok(ats);
  }

  /** Once the walk has met an error, later entries keep that error. */
  lemma {:induction false} MapEntriesErrSticks(dir: Entry, k: nat, k': nat, name: string, fn: (string, Entry) -> Visit)
    requires k <= k' <= |dir.entries|
    requires MapEntries(dir, k, name, fn).Err?
    ensures MapEntries(dir, k', name, fn) == MapEntries(dir, k, name, fn)
    decreases k'
  {
    if k < k' {
      MapEntriesErrSticks(dir, k, k' - 1, name, fn);
    }
  }

  /** A property every content the callback chooses to list has along every path. */
  ghost predicate TakesAll(fn: (string, Entry) -> Visit, P: Content -> bool) {
    forall p, e :: fn(p, e).Take? ==> P(fn(p, e).content)
  }

  /** Every node of a successful walk, at any depth, carries content the callback chose to list. */
  lemma {:induction false} MapDirNodes(dir: Entry, name: string, fn: (string, Entry) -> Visit, P: Content -> bool)
    requires TakesAll(fn, P)
    requires MapDir(dir, name, fn).Ok?
    ensures forall t :: t in Nodes(MapDir(dir, name, fn).value) ==> P(t.content)
    decreases dir, |dir.entries| + 1
  {
    MapEntriesNodes(dir, |dir.entries|, name, fn, P);
  }

  lemma {:induction false} MapEntriesNodes(dir: Entry, k: nat, name: string, fn: (string, Entry) -> Visit, P: Content -> bool)
    requires k <= |dir.entries|
    requires TakesAll(fn, P)
    requires MapEntries(dir, k, name, fn).Ok?
    ensures forall t :: t in Nodes(MapEntries(dir, k, name, fn).value) ==> P(t.content)
    decreases dir, k
  {
    if k > 0 {
      MapEntriesNodes(dir, k - 1, name, fn, P);
      var prev := MapEntries(dir, k - 1, name, fn).value;
      var item := dir.entries[k - 1];
      var next := Join(name, item.name);
      var v := fn(next, item);
      if v.Take? {
        var children := if item.isDir then MapDir(item, next, fn).value else [];
        if item.isDir {
          MapDirNodes(item, next, fn, P);
        }
        var t := Tree(v.content, children);
        assert MapEntries(dir, k, name, fn).value == prev + [t];
        assert (prev + [t])[..|prev + [t]| - 1] == prev;
        assert Nodes(prev + [t]) == Nodes(prev) + [t] + Nodes(children);
      }
    }
  }

  /** A callback error on any entry of the listing fails the whole walk. */
  lemma {:induction false} MapEntriesError(dir: Entry, k: nat, j: nat, name: string, fn: (string, Entry) -> Visit)
    requires j < k <= |dir.entries|
    requires fn(Join(name, dir.entries[j].name), dir.entries[j]).VisitErr?
    ensures MapEntries(dir, k, name, fn).Err?
    decreases k
  {
    if j < k - 1 {
      MapEntriesError(dir, k - 1, j, name, fn);
    }
  }

  lemma MapDirError(dir: Entry, j: nat, name: string, fn: (string, Entry) -> Visit)
    requires j < |dir.entries|
    requires fn(Join(name, dir.entries[j].name), dir.entries[j]).VisitErr?
    ensures MapDir(dir, name, fn).Err?
  {
    if dir.readable {
      MapEntriesError(dir, |dir.entries|, j, name, fn);
    }
  }
}
