// ContentTrees.Sort: sort.Slice on one level of content trees with the
// theme's comparison, then the same on every tree's children.  The source
// sorts in place; here the sorted forest is returned as a value.
module ContentSort {
  import opened ContentTrees
  import Sorting

  /** The contents of a list of trees, in order. */
  function Contents(s: seq<Tree>): (r: seq<Content>)
    ensures |r| == |s|
    ensures forall i :: 0 <= i < |s| ==> r[i] == s[i].content
    decreases |s|
  {
    if s == [] then [] else [s[0].content] + Contents(s[1..])
  }

  /** Every node's content, at any depth: the forest with its shape forgotten. */
  function NodeBag(s: seq<Tree>): (r: multiset<Content>)
    decreases s
  {
    if s == [] then multiset{}
    else multiset{s[0].content} + NodeBag(s[0].children) + NodeBag(s[1..])
  }

  /** Every tree sort.Slice leaves in the list was in it before. */
  lemma SortedFrom(cs: seq<Tree>, less: (Tree, Tree) -> bool)
    ensures forall t :: t in Sorting.Sort(cs, less) ==> t in cs
  {
    forall t | t in Sorting.Sort(cs, less)
      ensures t in cs
    {
      assert t in multiset(Sorting.Sort(cs, less));
    }
  }

  /** The trees of `p`, in order, each with its children sorted; `top` is the list `p` was drawn from. */
  function SortedChildren(p: seq<Tree>, top: seq<Tree>, less: (Tree, Tree) -> bool): (r: seq<Tree>)
    requires forall t :: t in p ==> t in top
    ensures |r| == |p|
    decreases top, 0, |p|
  {
    if p == [] then []
    else
      var v := p[|p| - 1];
      assert v in p;
      SortedChildren(p[..|p| - 1], top, less) + [Tree(v.content, SortedForest(v.children, less))]
  }

  /**
   * ContentTrees.Sort: sort.Slice orders this level with `less`, comparing
   * the trees as they are (their children not yet sorted), and then every
   * tree's children are sorted the same way.
   */
  function SortedForest(cs: seq<Tree>, less: (Tree, Tree) -> bool): (r: seq<Tree>)
    ensures |r| == |cs|
    decreases cs, 1
  {
    SortedFrom(cs, less);
    SortedChildren(Sorting.Sort(cs, less), cs, less)
  }

  lemma {:induction false} SortedChildrenAt(p: seq<Tree>, top: seq<Tree>, less: (Tree, Tree) -> bool, i: nat)
    requires forall t :: t in p ==> t in top
    requires i < |p|
    ensures SortedChildren(p, top, less)[i] == Tree(p[i].content, SortedForest(p[i].children, less))
    decreases |p|
  {
    var n := |p| - 1;
    if i < n {
      SortedChildrenAt(p[..n], top, less, i);
    }
  }

  lemma SortedChildrenNext(p: seq<Tree>, top: seq<Tree>, less: (Tree, Tree) -> bool, i: nat)
    requires forall t :: t in p ==> t in top
    requires i < |p|
    ensures SortedChildren(p[..i + 1], top, less) == SortedChildren(p[..i], top, less) + [Tree(p[i].content, SortedForest(p[i].children, less))]
  {
    assert p[..i + 1][..i] == p[..i];
  }

  lemma WholePrefix(p: seq<Tree>)
    ensures p[..|p|] == p
  {
  }

  /** Contents of a list with one tree inserted: the old ones plus its own. */
  lemma {:induction false} ContentsInsert(x: Tree, s: seq<Tree>, less: (Tree, Tree) -> bool)
    ensures multiset(Contents(Sorting.Insert(x, s, less))) == multiset(Contents(s)) + multiset{x.content}
    decreases |s|
  {
    if s == [] {
      ContentsCons(x, s);
      assert [x] + s == [x];
    } else if less(x, s[0]) {
      assert Sorting.Insert(x, s, less) == [x] + s;
      ContentsCons(x, s);
    } else {
      var r := Sorting.Insert(x, s[1..], less);
      assert Sorting.Insert(x, s, less) == [s[0]] + r;
      ContentsInsert(x, s[1..], less);
      ContentsCons(s[0], r);
    }
  }

  lemma ContentsCons(x: Tree, s: seq<Tree>)
    ensures multiset(Contents([x] + s)) == multiset{x.content} + multiset(Contents(s))
  {
    assert ([x] + s)[1..] == s;
  }

  lemma {:induction false} ContentsSort(cs: seq<Tree>, less: (Tree, Tree) -> bool)
    ensures multiset(Contents(Sorting.Sort(cs, less))) == multiset(Contents(cs))
    decreases |cs|
  {
    if cs != [] {
      ContentsSort(cs[1..], less);
      ContentsInsert(cs[0], Sorting.Sort(cs[1..], less), less);
    }
  }

  /**
   * One level of Sort: tree i of the result is one of the input's trees,
   * with the same content and its own children sorted.
   */
  lemma LevelTree(cs: seq<Tree>, less: (Tree, Tree) -> bool, i: nat)
    requires i < |cs|
    ensures var r := SortedForest(cs, less);
      exists j :: 0 <= j < |cs| && r[i].content == cs[j].content && r[i].children == SortedForest(cs[j].children, less)
  {
    SortedForestAt(cs, less, i);
    var p := Sorting.Sort(cs, less);
    SortedFrom(cs, less);
    assert p[i] in cs;
    var j :| 0 <= j < |cs| && cs[j] == p[i];
  }

  /** One level of Sort keeps the level's contents, in some order. */
  lemma LevelContents(cs: seq<Tree>, less: (Tree, Tree) -> bool)
    ensures multiset(Contents(SortedForest(cs, less))) == multiset(Contents(cs))
  {
    var p := Sorting.Sort(cs, less);
    var r := SortedForest(cs, less);
    forall i | 0 <= i < |r|
      ensures r[i].content == p[i].content
    {
      SortedForestAt(cs, less, i);
    }
    SameContents(r, p);
    ContentsSort(cs, less);
  }

  /** Tree i of the sorted level is tree i of sort.Slice's order with its children sorted. */
  lemma SortedForestAt(cs: seq<Tree>, less: (Tree, Tree) -> bool, i: nat)
    requires i < |cs|
    ensures var p := Sorting.Sort(cs, less);
      SortedForest(cs, less)[i] == Tree(p[i].content, SortedForest(p[i].children, less))
  {
    var p := Sorting.Sort(cs, less);
    SortedFrom(cs, less);
    SortedChildrenAt(p, cs, less, i);
  }

  lemma SameContents(r: seq<Tree>, p: seq<Tree>)
    requires |r| == |p| && forall i :: 0 <= i < |r| ==> r[i].content == p[i].content
    ensures Contents(r) == Contents(p)
  {
    assert forall i :: 0 <= i < |r| ==> Contents(r)[i] == Contents(p)[i];
  }

  lemma {:induction false} NodeBagInsert(x: Tree, s: seq<Tree>, less: (Tree, Tree) -> bool)
    ensures NodeBag(Sorting.Insert(x, s, less)) == NodeBag(s) + NodeBag([x])
    decreases |s|
  {
    NodeBagOne(x);
    if s == [] {
    } else if less(x, s[0]) {
      NodeBagCons(x, s);
    } else {
      var r := Sorting.Insert(x, s[1..], less);
      NodeBagInsert(x, s[1..], less);
      NodeBagCons(s[0], r);
    }
  }

  lemma {:induction false} NodeBagSort(cs: seq<Tree>, less: (Tree, Tree) -> bool)
    ensures NodeBag(Sorting.Sort(cs, less)) == NodeBag(cs)
    decreases |cs|
  {
    if cs != [] {
      NodeBagSort(cs[1..], less);
      NodeBagInsert(cs[0], Sorting.Sort(cs[1..], less), less);
      assert [cs[0]][1..] == [];
    }
  }

  lemma NodeBagCons(x: Tree, s: seq<Tree>)
    ensures NodeBag([x] + s) == multiset{x.content} + NodeBag(x.children) + NodeBag(s)
  {
    assert ([x] + s)[0] == x && ([x] + s)[1..] == s;
  }

  lemma ConsSplit(a: seq<Tree>, b: seq<Tree>)
    requires a != []
    ensures a == [a[0]] + a[1..] && a + b == [a[0]] + (a[1..] + b)
  {
  }

  lemma {:induction false} NodeBagAppend(a: seq<Tree>, b: seq<Tree>)
    ensures NodeBag(a + b) == NodeBag(a) + NodeBag(b)
    decreases |a|
  {
    if a == [] {
      assert a + b == b;
    } else {
      NodeBagAppend(a[1..], b);
      ConsSplit(a, b);
      NodeBagCons(a[0], a[1..] + b);
      NodeBagCons(a[0], a[1..]);
    }
  }

  lemma {:induction false} NodeBagChildren(p: seq<Tree>, top: seq<Tree>, less: (Tree, Tree) -> bool)
    requires forall t :: t in p ==> t in top
    requires forall t :: t in p ==> NodeBag(SortedForest(t.children, less)) == NodeBag(t.children)
    ensures NodeBag(SortedChildren(p, top, less)) == NodeBag(p)
    decreases |p|
  {
    if p != [] {
      var n := |p| - 1;
      var v := p[n];
      var t := Tree(v.content, SortedForest(v.children, less));
      assert v in p;
      NodeBagChildren(p[..n], top, less);
      NodeBagAppend(SortedChildren(p[..n], top, less), [t]);
      NodeBagOne(t);
      SnocSplit(p);
      NodeBagAppend(p[..n], [v]);
      NodeBagOne(v);
    }
  }

  lemma SnocSplit(p: seq<Tree>)
    requires p != []
    ensures p[..|p| - 1] + [p[|p| - 1]] == p
  {
  }

  lemma NodeBagOne(t: Tree)
    ensures NodeBag([t]) == multiset{t.content} + NodeBag(t.children)
  {
    assert [t][1..] == [];
  }

  /** Sorting keeps every node of the forest, at every depth, and adds none. */
  lemma {:induction false} SortKeepsNodes(cs: seq<Tree>, less: (Tree, Tree) -> bool)
    ensures NodeBag(SortedForest(cs, less)) == NodeBag(cs)
    decreases cs
  {
    var p := Sorting.Sort(cs, less);
    SortedFrom(cs, less);
    forall t | t in p
      ensures NodeBag(SortedForest(t.children, less)) == NodeBag(t.children)
    {
      SortKeepsNodes(t.children, less);
    }
    NodeBagChildren(p, cs, less);
    NodeBagSort(cs, less);
  }

  /** A comparison that looks at the trees' contents only, as the themes' comparators do. */
  ghost predicate ByContent(less: (Tree, Tree) -> bool) {
    forall a: Tree, b: Tree, a': Tree, b': Tree :: a.content == a'.content && b.content == b'.content ==> less(a, b) == less(a', b')
  }

  /** Every level of the forest sorted. */
  ghost predicate EveryLevelSorted(s: seq<Tree>, less: (Tree, Tree) -> bool)
    decreases s
  {
    && Sorting.Sorted(s, less)
    && forall i :: 0 <= i < |s| ==> EveryLevelSorted(s[i].children, less)
  }

  /**
   * Under a strict order on contents, Sort leaves every level of the
   * forest sorted.
   */
  lemma {:induction false} SortEveryLevel(cs: seq<Tree>, less: (Tree, Tree) -> bool)
    requires Sorting.StrictOrder(less) && ByContent(less)
    ensures EveryLevelSorted(SortedForest(cs, less), less)
    decreases cs
  {
    var p := Sorting.Sort(cs, less);
    var r := SortedForest(cs, less);
    SortedFrom(cs, less);
    Sorting.SortSorted(cs, less);
    forall i | 0 <= i < |r|
      ensures r[i] == Tree(p[i].content, SortedForest(p[i].children, less))
      ensures EveryLevelSorted(r[i].children, less)
    {
      SortedChildrenAt(p, cs, less, i);
      assert p[i] in cs;
      SortEveryLevel(p[i].children, less);
    }
    forall i, j | 0 <= i < j < |r|
      ensures !less(r[j], r[i])
    {
      assert !less(p[j], p[i]);
    }
  }

  /**
   * sort.Slice is not stable, but when `less` orders every two different
   * trees of the level, every sorted permutation is the one modelled.
   */
  lemma SortLevelUnique(cs: seq<Tree>, q: seq<Tree>, less: (Tree, Tree) -> bool)
    requires Sorting.StrictOrder(less)
    requires forall x, y :: x in cs && y in cs && x != y ==> less(x, y) || less(y, x)
    requires multiset(q) == multiset(cs) && Sorting.Sorted(q, less)
    ensures q == Sorting.Sort(cs, less)
  {
    var p := Sorting.Sort(cs, less);
    Sorting.SortSorted(cs, less);
    forall x | x in p
      ensures x in cs
    {
      assert x in multiset(p);
    }
    Sorting.SortedUnique(p, q, less);
  }

  /** The Sort method: sort.Slice on this level, then the range loop sorting each tree's children. */
  method Sort(cs: seq<Tree>, less: (Tree, Tree) -> bool) returns (r: seq<Tree>)
    ensures r == SortedForest(cs, less)
    decreases cs
  {
    var p := Sorting.Sort(cs, less);
    SortedFrom(cs, less);
    r := [];
    var i := 0;
    while i < |p|
      invariant 0 <= i <= |p|
      invariant r == SortedChildren(p[..i], cs, less)
    {
      var v := p[i];
      assert v in cs;
      var children := Sort(v.children, less);
      SortedChildrenNext(p, cs, less, i);
      r := r + [Tree(v.content, children)];
      i := i + 1;
    }
    WholePrefix(p);
  }
}
