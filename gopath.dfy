// Lexical slash-separated path handling with the semantics of Go's `path`
// package (and of `path/filepath` on a system whose separator is '/').
module GoPath {
  import opened GoStrings

  /** An element that survives cleaning unchanged: not empty, not ".", not "..". */
  predicate Plain(e: string) {
    e != "" && e != "." && e != ".."
  }

  /**
   * The element-processing loop of path.Clean, as a fold over the pieces
   * between slashes: empty pieces and "." vanish, ".." removes the last kept
   * element when there is one that is not itself "..", is dropped at the
   * start of a rooted path, and is kept at the start of a relative one.
   */
  function Fold(parts: seq<string>, rooted: bool, acc: seq<string>): (r: seq<string>)
    decreases |parts|
  {
    if parts == [] then acc
    else
      var e := parts[0];
      var acc' :=
        if e == "" || e == "." then acc
        else if e == ".." then
          (if acc != [] && acc[|acc| - 1] != ".." then acc[..|acc| - 1]
           else if rooted then acc
           else acc + [".."])
        else acc + [e];
      Fold(parts[1..], rooted, acc')
  }

  predicate Rooted(p: string) {
    p != "" && p[0] == '/'
  }

  /** The elements of the cleaned form of `p`. */
  function Elements(p: string): (r: seq<string>) {
    Fold(Split(p, '/'), Rooted(p), [])
  }

  /** path.Clean. */
  function Clean(p: string): (r: string) {
    if p == "" then "."
    else
      var es := Elements(p);
      if Rooted(p) then "/" + JoinWith(es, '/')
      else if es == [] then "."
      else JoinWith(es, '/')
  }

  /** path.Join (and filepath.Join) of two elements. */
  function Join(a: string, b: string): (r: string) {
    if a == "" && b == "" then ""
    else if a == "" then Clean(b)
    else Clean(a + "/" + b)
  }

  /** path.Split / filepath.Split: everything up to and including the last '/', and the rest. */
  function SplitPath(p: string): (r: (string, string))
    ensures r.0 + r.1 == p
    ensures '/' !in r.1
    ensures r.0 == "" || r.0[|r.0| - 1] == '/'
  {
    var i := LastIndexOf(p, '/');
    (p[..i + 1], p[i + 1..])
  }

  /** filepath.Ext: the suffix from the last '.' of the final element, or "". */
  function Ext(p: string): (r: string)
    ensures r == "" || (r[0] == '.' && HasSuffix(p, r) && '/' !in r)
    decreases |p|
  {
    if p == [] || p[|p| - 1] == '/' then ""
    else if p[|p| - 1] == '.' then "."
    else
      var e := Ext(p[..|p| - 1]);
      if e == "" then "" else e + [p[|p| - 1]]
  }

  /** filepath.IsAbs on a slash-separated system. */
  predicate IsAbs(p: string) {
    HasPrefix(p, "/")
  }

  // ---------------------------------------------------------------------
  // Properties of Clean

  /** Folding a concatenation folds the halves in turn. */
  lemma {:induction false} FoldAppend(xs: seq<string>, ys: seq<string>, rooted: bool, acc: seq<string>)
    ensures Fold(xs + ys, rooted, acc) == Fold(ys, rooted, Fold(xs, rooted, acc))
    decreases |xs|
  {
    if xs != [] {
      assert (xs + ys)[0] == xs[0];
      assert (xs + ys)[1..] == xs[1..] + ys;
      var e := xs[0];
      var acc' :=
        if e == "" || e == "." then acc
        else if e == ".." then
          (if acc != [] && acc[|acc| - 1] != ".." then acc[..|acc| - 1]
           else if rooted then acc
           else acc + [".."])
        else acc + [e];
      FoldAppend(xs[1..], ys, rooted, acc');
    } else {
      assert xs + ys == ys;
    }
  }

  /** Plain elements are appended unchanged. */
  lemma {:induction false} FoldPlain(xs: seq<string>, rooted: bool, acc: seq<string>)
    requires forall i :: 0 <= i < |xs| ==> Plain(xs[i])
    ensures Fold(xs, rooted, acc) == acc + xs
    decreases |xs|
  {
    if xs != [] {
      FoldPlain(xs[1..], rooted, acc + [xs[0]]);
      assert acc + [xs[0]] + xs[1..] == acc + xs;
    }
  }

  /** The shape of a fold result: plain elements, preceded (only when not rooted) by a block of "..". */
  predicate Normal(es: seq<string>, rooted: bool) {
    exists k :: 0 <= k <= |es| && NormalAt(es, rooted, k)
  }

  predicate NormalAt(es: seq<string>, rooted: bool, k: int)
    requires 0 <= k <= |es|
  {
    (rooted ==> k == 0)
    && (forall i :: 0 <= i < k ==> es[i] == "..")
    && (forall i :: k <= i < |es| ==> Plain(es[i]))
  }

  lemma {:induction false} FoldNormal(parts: seq<string>, rooted: bool, acc: seq<string>, k: int)
    requires 0 <= k <= |acc| && NormalAt(acc, rooted, k)
    ensures Normal(Fold(parts, rooted, acc), rooted)
    decreases |parts|
  {
    if parts == [] {
      assert NormalAt(acc, rooted, k);
    } else {
      var e := parts[0];
      if e == "" || e == "." {
        FoldNormal(parts[1..], rooted, acc, k);
      } else if e == ".." {
        if acc != [] && acc[|acc| - 1] != ".." {
          var a := acc[..|acc| - 1];
          assert |acc| - 1 >= k;
          assert NormalAt(a, rooted, k);
          FoldNormal(parts[1..], rooted, a, k);
        } else if rooted {
          FoldNormal(parts[1..], rooted, acc, k);
        } else {
          // every element is "..": the block grows by one
          assert k == |acc| by {
            if acc != [] {
              assert acc[|acc| - 1] == "..";
              assert !Plain(acc[|acc| - 1]);
            }
          }
          var a := acc + [".."];
          assert NormalAt(a, rooted, |a|);
          FoldNormal(parts[1..], rooted, a, |a|);
        }
      } else {
        var a := acc + [e];
        assert NormalAt(a, rooted, k);
        FoldNormal(parts[1..], rooted, a, k);
      }
    }
  }

  /** Cleaned elements are normal: never empty, never ".", and ".." only at the head of a relative path. */
  lemma ElementsNormal(p: string)
    ensures Normal(Elements(p), Rooted(p))
  {
    assert NormalAt([], Rooted(p), 0);
    FoldNormal(Split(p, '/'), Rooted(p), [], 0);
  }

  /** A rooted path never cleans to anything containing a ".." element. */
  lemma RootedNoDotDot(p: string)
    requires Rooted(p)
    ensures forall i :: 0 <= i < |Elements(p)| ==> Plain(Elements(p)[i])
  {
    ElementsNormal(p);
    var es := Elements(p);
    var k :| 0 <= k <= |es| && NormalAt(es, true, k);
  }

  /** A normal element list folds to itself. */
  lemma {:induction false} FoldNormalFixed(es: seq<string>, rooted: bool)
    requires Normal(es, rooted)
    ensures Fold(es, rooted, []) == es
  {
    var k :| 0 <= k <= |es| && NormalAt(es, rooted, k);
    DotDotBlock(k, rooted);
    assert es == es[..k] + es[k..];
    assert es[..k] == Dots(k) by {
      assert forall i :: 0 <= i < k ==> es[..k][i] == "..";
    }
    FoldAppend(es[..k], es[k..], rooted, []);
    FoldPlain(es[k..], rooted, es[..k]);
  }

  function Dots(k: nat): (r: seq<string>)
    ensures |r| == k && forall i :: 0 <= i < k ==> r[i] == ".."
  {
    if k == 0 then [] else Dots(k - 1) + [".."]
  }

  /** A leading block of ".." folds to itself on a relative path (and is empty on a rooted one). */
  lemma {:induction false} DotDotBlock(k: nat, rooted: bool)
    requires rooted ==> k == 0
    ensures Fold(Dots(k), rooted, []) == Dots(k)
  {
    if k > 0 {
      DotDotBlock(k - 1, rooted);
      FoldAppend(Dots(k - 1), [".."], rooted, []);
      var d := Dots(k - 1);
      assert d == [] || d[|d| - 1] == "..";
    }
  }

  function IsSlashFree(es: seq<string>): (r: bool) {
    forall i :: 0 <= i < |es| ==> '/' !in es[i]
  }

  /** No cleaned element contains a slash. */
  lemma ElementsSlashFree(p: string)
    ensures IsSlashFree(Elements(p))
  {
    SplitPiecesFree(p, '/');
    FoldSlashFree(Split(p, '/'), Rooted(p), []);
  }

  lemma {:induction false} FoldSlashFree(parts: seq<string>, rooted: bool, acc: seq<string>)
    requires IsSlashFree(parts) && IsSlashFree(acc)
    ensures IsSlashFree(Fold(parts, rooted, acc))
    decreases |parts|
  {
    if parts != [] {
      var e := parts[0];
      var acc' :=
        if e == "" || e == "." then acc
        else if e == ".." then
          (if acc != [] && acc[|acc| - 1] != ".." then acc[..|acc| - 1]
           else if rooted then acc
           else acc + [".."])
        else acc + [e];
      assert IsSlashFree(acc');
      assert IsSlashFree(parts[1..]);
      FoldSlashFree(parts[1..], rooted, acc');
    }
  }

  /** Elements of the cleaned path are exactly the elements of the path. */
  lemma CleanElements(p: string)
    ensures Rooted(Clean(p)) == Rooted(p)
    ensures Elements(Clean(p)) == Elements(p)
  {
    var es := Elements(p);
    ElementsNormal(p);
    ElementsSlashFree(p);
    SplitFree(".", '/');
    if p == "" {
    } else if Rooted(p) {
      var j := JoinWith(es, '/');
      assert Clean(p) == "/" + j;
      if es == [] {
        assert Split("/", '/') == ["", ""];
        assert Fold(["", ""], true, []) == [];
      } else {
        assert "/" + j == [] + ['/'] + j;
        SplitAppend([], j, '/');
        SplitJoin(es, '/');
        assert Split("/" + j, '/') == [""] + es;
        assert Fold([""] + es, true, []) == Fold(es, true, []) by {
          FoldAppend([""], es, true, []);
        }
        FoldNormalFixed(es, true);
      }
    } else if es == [] {
    } else {
      SplitJoin(es, '/');
      FoldNormalFixed(es, false);
      var j := JoinWith(es, '/');
      assert j != "" && j[0] != '/' by {
        var k :| 0 <= k <= |es| && NormalAt(es, false, k);
        assert es[0] != "";
        Head(es);
        assert '/' !in es[0];
      }
    }
  }

  /** A non-empty normal element list joins to a string that does not start with '/'. */
  lemma Head(es: seq<string>)
    requires es != [] && es[0] != ""
    ensures JoinWith(es, '/') != "" && JoinWith(es, '/')[0] == es[0][0]
  {
    if |es| > 1 {
      assert JoinWith(es, '/') == es[0] + ['/'] + JoinWith(es[1..], '/');
    }
  }

  /** path.Clean is idempotent. */
  lemma CleanIdempotent(p: string)
    ensures Clean(Clean(p)) == Clean(p)
  {
    CleanElements(p);
    var c := Clean(p);
    assert c != "";
  }

  /**
   * Appending the clean form of a rooted path to a directory keeps every
   * element of the directory: the joined path's elements are the directory's
   * cleaned elements followed by the rooted path's elements.
   */
  lemma JoinRooted(dir: string, name: string)
    requires dir != ""
    ensures Elements(Join(dir, Clean("/" + name))) == Elements(dir) + Elements("/" + name)
  {
    var c := Clean("/" + name);
    var es := Elements("/" + name);
    assert Rooted("/" + name);
    RootedNoDotDot("/" + name);
    var whole := dir + "/" + c;
    assert Join(dir, c) == Clean(whole);
    CleanElements(whole);
    assert c == "/" + JoinWith(es, '/');
    assert whole == dir + ['/'] + ("/" + JoinWith(es, '/'));
    SplitAppend(dir, "/" + JoinWith(es, '/'), '/');
    CleanElements("/" + name);
    assert Elements(c) == es;
    assert Rooted(whole) == Rooted(dir);
    var sc := Split(c, '/');
    FoldAppend(Split(dir, '/'), sc, Rooted(dir), []);
    ElementsSlashFree("/" + name);
    RootedTail(es, Rooted(dir), Elements(dir));
  }

  /** The pieces of a rooted clean path append its elements to whatever came before. */
  lemma RootedTail(es: seq<string>, rooted: bool, acc: seq<string>)
    requires forall i :: 0 <= i < |es| ==> Plain(es[i])
    requires IsSlashFree(es)
    ensures Fold(Split("/" + JoinWith(es, '/'), '/'), rooted, acc) == acc + es
  {
    if es == [] {
      assert Split("/", '/') == ["", ""];
    } else {
      assert "/" + JoinWith(es, '/') == [] + ['/'] + JoinWith(es, '/');
      SplitAppend([], JoinWith(es, '/'), '/');
      SplitJoin(es, '/');
      FoldAppend([""], es, rooted, acc);
      FoldPlain(es, rooted, acc);
    }
  }
}
