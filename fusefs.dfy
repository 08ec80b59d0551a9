// fusefs.FuseFS: a FUSE path file system over a flat key/value store.  A
// key ending in '/' is a directory; every name the kernel passes is joined
// onto the root (which never starts with '/' and always ends with '/',
// except the root "/" itself).
//
// The store's outcomes that depend on the database (a failing Put, Delete,
// DeleteTree or List) are parameters; a missing key is the only way Get
// fails.
module FuseFs {
  import opened GoStrings
  import opened GoPath
  import opened KvStore
  import opened Sorting
  import FuseFile

  // ---------------------------------------------------------------------
  // Keys

  /** NewFuseFs: one leading '/' removed, a trailing '/' added when missing. */
  function NormRoot(r: string): (root: string)
    ensures HasSuffix(root, "/")
    ensures |root| <= |r| + 1
    ensures HasPrefix(r, "/") ==> HasPrefix(root, r[1..])
    ensures !HasPrefix(r, "/") ==> HasPrefix(root, r)
  {
    var t := if r != "" && r[0] == '/' then r[1..] else r;
    if HasSuffix(t, "/") then t else t + "/"
  }

  /** Mkdir's key: none for "", the root itself for "/", otherwise the joined name with a trailing '/'. */
  function DirKey(root: string, name: string): (r: Option<string>)
    ensures r.None? <==> name == ""
    ensures r.Some? ==> HasSuffix(r.value, "/")
  {
    if name == "" then None
    else
      var k := Join(root, if name == "/" then "" else name);
      Some(if HasSuffix(k, "/") then k else k + "/")
  }

  /** OpenDir's key: filepath.Join of the root and the name, with a trailing '/'. */
  function OpenDirKey(root: string, name: string): (k: string)
    ensures HasSuffix(k, "/")
  {
    var j := Join(root, name);
    if HasSuffix(j, "/") then j else j + "/"
  }

  /** Mkdir stores exactly the key that OpenDir of the same name looks for; Mkdir("/") the key of OpenDir(""). */
  lemma MkdirKeyIsOpenDirKey(root: string, name: string)
    ensures name != "" && name != "/" ==> DirKey(root, name) == Some(OpenDirKey(root, name))
    ensures DirKey(root, "/") == Some(OpenDirKey(root, ""))
  {
  }

  lemma SplitRootPaths()
    ensures Split("a//a/", '/') == ["a", "", "a", ""]
    ensures Split("a//", '/') == ["a", "", ""]
  {
    assert "a"[1..] == [] && "a"[0] == 'a';
    assert Split([], '/') == [""];
    assert Split("a", '/') == [['a'] + ""] + [""][1..];
    assert ['a'] + "" == "a" && [""][1..] == [];
    assert "a/" == "a" + ['/'] + "";
    SplitAppend("a", "", '/');
    assert "/a/" == "" + ['/'] + "a/";
    SplitAppend("", "a/", '/');
    assert "a//a/" == "a" + ['/'] + "/a/";
    SplitAppend("a", "/a/", '/');
    assert "/" == "" + ['/'] + "";
    SplitAppend("", "", '/');
    assert "a//" == "a" + ['/'] + "/";
    SplitAppend("a", "/", '/');
  }

  lemma CleanRootPaths()
    ensures Clean("a//a/") == "a/a"
    ensures Clean("a//") == "a"
  {
    SplitRootPaths();
    var p := ["a", "", "a", ""];
    assert p[1..] == ["", "a", ""] && p[1..][1..] == ["a", ""] && p[1..][1..][1..] == [""];
    assert Fold([""], false, ["a", "a"]) == ["a", "a"];
    assert Fold(["a", ""], false, ["a"]) == ["a", "a"];
    assert Fold(p, false, []) == ["a", "a"];
    assert JoinWith(["a", "a"], '/') == "a/a";
    var q := ["a", "", ""];
    assert q[1..] == ["", ""] && q[1..][1..] == [""];
    assert Fold(q, false, []) == ["a"];
  }

  /**
   * NewFuseFs as the source has it calls Mkdir(root) with the already
   * normalised root, which joins the root onto itself: for the root "a" the
   * directory made is "a/a/", not the "a/" that OpenDir("") looks for.
   */
  lemma AsWrittenRootKey()
    ensures NormRoot("a") == "a/"
    ensures DirKey(NormRoot("a"), NormRoot("a")) == Some("a/a/")
    ensures OpenDirKey(NormRoot("a"), "") == "a/"
  {
    NormRootA();
    SelfJoinedDirKey();
    RootOpenDirKey();
  }

  lemma NormRootA()
    ensures NormRoot("a") == "a/"
  {
    assert !HasSuffix("a", "/");
  }

  lemma SelfJoinedDirKey()
    ensures DirKey("a/", "a/") == Some("a/a/")
  {
    CleanRootPaths();
    assert "a/" + "/" + "a/" == "a//a/";
    assert Join("a/", "a/") == "a/a";
    assert !HasSuffix("a/a", "/");
    assert "a/a" + "/" == "a/a/";
  }

  lemma RootOpenDirKey()
    ensures OpenDirKey("a/", "") == "a/"
  {
    CleanRootPaths();
    assert "a/" + "/" + "" == "a//";
    assert Join("a/", "") == "a";
    assert !HasSuffix("a", "/");
  }

  // ---------------------------------------------------------------------
  // OpenDir

  /**
   * What OpenDir lists for one key found under the directory key `path`:
   * nothing for the directory itself or anything deeper than one level;
   * a directory key under its relative name (trailing '/' kept); any other
   * key as a regular file under its base name.
   */
  function ChildEntry(path: string, key: string): (r: Option<DirEntry>) {
    var (dir, fi) := SplitPath(key);
    if dir == path && fi == "" then None
    else
      var rm := TrimPrefix(TrimPrefix(key, path), "/");
      var index := IndexOf(rm, '/');
      if index != -1 && index != |rm| - 1 then None
      else if HasSuffix(rm, "/") then Some(DirEntry(TrimPrefix(rm, "/"), S_IFDIR))
      else Some(DirEntry(fi, S_IFREG))
  }

  /** The entries of the listed keys, in listing order. */
  function Listing(path: string, keys: seq<string>): (r: seq<DirEntry>) {
    Listed(keys, k => ChildEntry(path, k))
  }

  /** OpenDir's order: directories first, then by name. */
  function EntryLess(a: DirEntry, b: DirEntry): (r: bool) {
    var ad, bd := IsDirMode(a.mode), IsDirMode(b.mode);
    if ad && !bd then true
    else if !ad && bd then false
    else StrLess(a.name, b.name)
  }

  /** The directory itself is never listed. */
  lemma DirectoryItselfSkipped(path: string)
    requires HasSuffix(path, "/")
    ensures ChildEntry(path, path) == None
  {
    assert path == path[..|path| - 1] + ['/'] + [];
    LastIndexAfter(path[..|path| - 1], [], '/');
  }

  /**
   * A key one level below the directory (its rest not starting with '/')
   * is listed exactly when the rest has no '/' (a regular file named by the
   * rest) or only a final '/' (a directory named by the rest, '/' kept).
   */
  lemma ChildEntryMeaning(path: string, rest: string)
    requires HasSuffix(path, "/") && rest != "" && rest[0] != '/'
    ensures var i := IndexOf(rest, '/');
      ChildEntry(path, path + rest) ==
        if i == -1 then Some(DirEntry(rest, S_IFREG))
        else if i == |rest| - 1 then Some(DirEntry(rest, S_IFDIR))
        else None
  {
    KeyRest(path, rest);
    if IndexOf(rest, '/') == -1 {
      FileKey(path, rest);
    }
  }

  /** The rest of a key below the directory, and the key is not the directory itself. */
  lemma KeyRest(path: string, rest: string)
    requires HasSuffix(path, "/") && rest != "" && rest[0] != '/'
    ensures TrimPrefix(TrimPrefix(path + rest, path), "/") == rest
    ensures !(SplitPath(path + rest).0 == path && SplitPath(path + rest).1 == "")
  {
    var key := path + rest;
    assert key[..|path|] == path;
    assert TrimPrefix(key, path) == rest;
    assert !HasPrefix(rest, "/");
  }

  /** A slash-free rest under the directory splits off as the base name. */
  lemma FileKey(path: string, rest: string)
    requires HasSuffix(path, "/") && '/' !in rest
    ensures SplitPath(path + rest) == (path, rest)
  {
    var key := path + rest;
    var p0 := path[..|path| - 1];
    assert key == p0 + ['/'] + rest;
    LastIndexAfter(p0, rest, '/');
    assert key[..|path|] == path && key[|path|..] == rest;
  }

  /** Every key yields a directory or a regular file, if anything. */
  lemma ChildEntryModes(path: string, key: string)
    ensures ChildEntry(path, key).Some? ==> ChildEntry(path, key).value.mode in {S_IFDIR, S_IFREG}
  {
  }

  /** An entry is listed exactly when some listed key yields it; each is a directory or a regular file. */
  lemma ListingMeaning(path: string, keys: seq<string>, e: DirEntry)
    ensures e in Listing(path, keys) <==> exists i :: 0 <= i < |keys| && ChildEntry(path, keys[i]) == Some(e)
    ensures e in Listing(path, keys) ==> e.mode == S_IFDIR || e.mode == S_IFREG
  {
    ListedMeaning(keys, k => ChildEntry(path, k), e);
    if e in Listing(path, keys) {
      var i :| 0 <= i < |keys| && ChildEntry(path, keys[i]) == Some(e);
      ChildEntryModes(path, keys[i]);
    }
  }

  lemma EntryLessStrict()
    ensures StrictOrder(EntryLess)
  {
    forall a: DirEntry
      ensures !EntryLess(a, a)
    {
      StrLessIrreflexive(a.name);
    }
    forall a: DirEntry, b: DirEntry, c: DirEntry | EntryLess(a, b) && EntryLess(b, c)
      ensures EntryLess(a, c)
    {
      if IsDirMode(a.mode) == IsDirMode(b.mode) && IsDirMode(b.mode) == IsDirMode(c.mode) {
        StrLessTransitive(a.name, b.name, c.name);
      }
    }
  }

  lemma EntryLessTotal(a: DirEntry, b: DirEntry)
    requires a != b
    requires a.mode == S_IFDIR || a.mode == S_IFREG
    requires b.mode == S_IFDIR || b.mode == S_IFREG
    ensures EntryLess(a, b) || EntryLess(b, a)
  {
    ModeFacts();
    if IsDirMode(a.mode) == IsDirMode(b.mode) {
      assert a.mode == b.mode;
      StrLessTotal(a.name, b.name);
    }
  }

  /**
   * OpenDir's result is a sorted permutation of what the listing yields
   * (directories before files, each group by name), and no other order of
   * those entries is sorted: whatever algorithm sort.Slice uses, this is
   * the result.
   */
  lemma OpenDirOrder(path: string, keys: seq<string>, other: seq<DirEntry>)
    ensures var r := Sort(Listing(path, keys), EntryLess);
      && multiset(r) == multiset(Listing(path, keys))
      && Sorted(r, EntryLess)
      && (Sorted(other, EntryLess) && multiset(other) == multiset(Listing(path, keys)) ==> other == r)
  {
    var l := Listing(path, keys);
    var r := Sort(l, EntryLess);
    EntryLessStrict();
    SortSorted(l, EntryLess);
    if Sorted(other, EntryLess) && multiset(other) == multiset(l) {
      forall x, y | x in other && y in other && x != y
        ensures EntryLess(x, y) || EntryLess(y, x)
      {
        assert x in multiset(l) && y in multiset(l);
        ListingMeaning(path, keys, x);
        ListingMeaning(path, keys, y);
        EntryLessTotal(x, y);
      }
      SortedUnique(other, r, EntryLess);
    }
  }

  // ---------------------------------------------------------------------
  // GetAttr, Rename, Truncate on the store's contents

  /**
   * GetAttr: the joined name, or the same name with a trailing '/' when the
   * name is not a key; a key without a trailing '/' is a 0644 regular file of
   * its value's size, anything else a 0755 directory with the current time.
   */
  function AttrOf(data: map<string, Bytes>, root: string, name: string, now: nat): (r: (Status, Attr)) {
    var n := Join(root, name);
    var dir := Attr(DirMode, 0, now, now);
    if n == "" then (OK, dir)
    else
      var key := if n in data then n else n + "/";
      if key !in data then (ENOENT, dir)
      else if !HasSuffix(key, "/") then (OK, Attr(RegMode, |data[key]|, now, now))
      else (OK, dir)
  }

  /**
   * GetAttr fails exactly when neither the name nor the name with a trailing
   * '/' is a key; a plain key is a regular file sized by its value.
   */
  lemma AttrOfMeaning(data: map<string, Bytes>, root: string, name: string, now: nat)
    requires Join(root, name) != ""
    ensures var n := Join(root, name);
      var (st, a) := AttrOf(data, root, name, now);
      && (st == ENOENT <==> n !in data && n + "/" !in data)
      && (n in data && !HasSuffix(n, "/") ==> st == OK && a == Attr(RegMode, |data[n]|, now, now))
      && (n !in data && n + "/" in data ==> st == OK && a.mode == DirMode)
  {
    var n := Join(root, name);
    assert HasSuffix(n + "/", "/");
  }

  /** After a successful Mkdir, GetAttr of the same name reports a directory unless a file already has that name. */
  lemma MkdirThenAttr(data: map<string, Bytes>, root: string, name: string, now: nat)
    requires name != "" && name != "/"
    requires Join(root, name) != "" && Join(root, name) !in data
    ensures AttrOf(data[DirKey(root, name).value := []], root, name, now).1.mode == DirMode
  {
    var n := Join(root, name);
    if HasSuffix(n, "/") {
      assert DirKey(root, name).value == n;
    } else {
      assert DirKey(root, name).value == n + "/";
      assert HasSuffix(n + "/", "/");
    }
  }

  /**
   * Rename on the store: Put the value under the new key, then Delete the
   * old key; when the Delete fails the undo puts the old key back and either
   * puts back the new key's previous value or deletes the new key.  The
   * undo's own Puts and Delete are taken to succeed.
   */
  function RenameStep(data: map<string, Bytes>, oldKey: string, newKey: string, putFails: bool, deleteFails: bool): (r: (map<string, Bytes>, Status)) {
    if oldKey !in data || putFails then (data, EIO)
    else
      var v := data[oldKey];
      var moved := data[newKey := v];
      if !deleteFails then (moved - {oldKey}, OK)
      else
        var undone := moved[oldKey := v];
        (if newKey in data then undone[newKey := data[newKey]] else undone - {newKey}, EIO)
  }

  /**
   * Rename is all or nothing: it succeeds exactly when the old key exists
   * and neither store call fails, and then the value has moved to the new
   * key with every other key untouched; on any failure the store is as it was.
   */
  lemma RenameAllOrNothing(data: map<string, Bytes>, oldKey: string, newKey: string, putFails: bool, deleteFails: bool)
    ensures var (d, st) := RenameStep(data, oldKey, newKey, putFails, deleteFails);
      && (st == OK <==> oldKey in data && !putFails && !deleteFails)
      && (st != OK ==> st == EIO && d == data)
      && (st == OK && oldKey != newKey ==>
            && newKey in d && d[newKey] == data[oldKey] && oldKey !in d
            && forall k :: k != oldKey && k != newKey ==> (k in d <==> k in data) && (k in d ==> d[k] == data[k]))
  {
    var (d, st) := RenameStep(data, oldKey, newKey, putFails, deleteFails);
    if oldKey in data && !putFails && deleteFails {
      assert d.Keys == data.Keys;
      assert forall k :: k in d ==> d[k] == data[k];
    }
  }

  /** Renaming a key onto itself removes it: the Put is undone by the Delete of the same key. */
  lemma RenameOntoItself(data: map<string, Bytes>, key: string)
    requires key in data
    ensures RenameStep(data, key, key, false, false) == (data - {key}, OK)
  {
    assert data[key := data[key]] == data;
  }

  /** Truncate on the store: the value cut to the requested size, never extended. */
  function TruncateStep(data: map<string, Bytes>, key: string, size: nat, putFails: bool): (r: (map<string, Bytes>, Status)) {
    if key !in data then (data, EIO)
    else
      var v := data[key];
      var n := if size > |v| then |v| else size;
      if putFails then (data, EIO) else (data[key := v[..n]], OK)
  }

  /**
   * Truncate never grows a file: on success the value becomes its own
   * prefix of the requested length, or stays whole when that is longer; a
   * missing key or a failing Put changes nothing.
   */
  lemma TruncateNeverGrows(data: map<string, Bytes>, key: string, size: nat, putFails: bool)
    ensures var (d, st) := TruncateStep(data, key, size, putFails);
      && (st == OK <==> key in data && !putFails)
      && (st == OK ==> d.Keys == data.Keys && |d[key]| <= |data[key]| && |d[key]| <= size
                       && d[key] == data[key][..|d[key]|]
                       && (size >= |data[key]| ==> d[key] == data[key]))
      && (st != OK ==> d == data)
  {
  }

  // ---------------------------------------------------------------------
  // The file system

  class FuseFS {
    const store: Store
    const root: string

    /**
     * NewFuseFs with the root directory made by Mkdir("/"), which stores the
     * root's own key (see AsWrittenRootKey for the source's Mkdir(root)).  Its
     * status is ignored, as in the source.
     */
    constructor (rootOption: string, store: Store, putFails: bool)
      modifies store
      ensures this.store == store && root == NormRoot(rootOption)
      ensures store.data == if putFails then old(store.data) else old(store.data)[OpenDirKey(root, "") := []]
    {
      this.store := store;
      root := NormRoot(rootOption);
      new;
      var _ := Mkdir("/", putFails);
    }

    /** Create: EACCES for "", otherwise a new file at the joined name, written empty. */
    method Create(name: string, mode: bv32, now: nat, putFails: bool) returns (f: FuseFile.File?, status: Status)
      modifies store
      ensures name == "" ==> f == null && status == EACCES && store.data == old(store.data)
      ensures name != "" ==> f != null && fresh(f) && f.store == store && f.key == Join(root, name) && f.value == []
      ensures name != "" ==> status == (if putFails then EIO else OK)
      ensures name != "" ==> store.data == if putFails then old(store.data) else old(store.data)[Join(root, name) := []]
    {
      if name == "" {
        return null, EACCES;
      }
      f := new FuseFile.File(store, Join(root, name), [], mode);
      var w := f.Write([], 0, now, putFails);
      status := if w.Wrote? then OK else EIO;
    }

    /** Open: ENOENT unless the joined name is a key; the file holds that key's value. */
    method Open(name: string) returns (f: FuseFile.File?, status: Status)
      ensures var k := Join(root, name);
        && (k !in store.data ==> f == null && status == ENOENT)
        && (k in store.data ==> f != null && fresh(f) && status == OK && f.store == store
                                && f.Snapshot() == FuseFile.NewFile(k, store.data[k], 0))
    {
      var k := Join(root, name);
      if k !in store.data {
        return null, ENOENT;
      }
      f := new FuseFile.File(store, k, store.data[k], 0);
      status := OK;
    }

    /**
     * OpenDir: ENOENT unless the directory's key exists and the listing
     * succeeds.  `listing` is what the store's List returns for the
     * directory's key (every key with that prefix) and `listFails` whether it
     * fails.
     */
    method OpenDir(name: string, listing: seq<string>, listFails: bool) returns (entries: seq<DirEntry>, status: Status)
      requires forall k :: k in listing <==> k in store.data && HasPrefix(k, OpenDirKey(root, name))
      ensures status == OK <==> OpenDirKey(root, name) in store.data && !listFails
      ensures status != OK ==> status == ENOENT && entries == []
      ensures status == OK ==> entries == Sort(Listing(OpenDirKey(root, name), listing), EntryLess)
    {
      var path := Join(root, name);
      if !HasSuffix(path, "/") {
        path := path + "/";
      }
      if path !in store.data || listFails {
        return [], ENOENT;
      }
      entries := [];
      var i := 0;
      while i < |listing|
        invariant 0 <= i <= |listing|
        invariant entries == Listing(path, listing[..i])
      {
        assert listing[..i + 1][..i] == listing[..i];
        var e := ChildEntry(path, listing[i]);
        if e.Some? {
          entries := entries + [e.value];
        }
        i := i + 1;
      }
      assert listing[..i] == listing;
      entries := Sort(entries, EntryLess);
      status := OK;
    }

    /** GetAttr, with `now` for the clock. */
    method GetAttr(name: string, now: nat) returns (a: Attr, status: Status)
      ensures (status, a) == AttrOf(store.data, root, name, now)
    {
      var n := Join(root, name);
      a := Attr(DirMode, 0, now, now);
      if n == "" {
        return a, OK;
      }
      var key := n;
      if key !in store.data {
        key := n + "/";
        if key !in store.data {
          return a, ENOENT;
        }
      }
      if !HasSuffix(key, "/") {
        a := Attr(RegMode, |store.data[key]|, now, now);
      }
      status := OK;
    }

    /** Mkdir: ENOENT for "" or a failing Put; otherwise the directory key stored with an empty value. */
    method Mkdir(name: string, putFails: bool) returns (status: Status)
      modifies store
      ensures status == OK <==> name != "" && !putFails
      ensures status == OK ==> store.data == old(store.data)[DirKey(root, name).value := []]
      ensures status != OK ==> status == ENOENT && store.data == old(store.data)
    {
      if name == "" {
        return ENOENT;
      }
      var n := if name == "/" then "" else name;
      var k := Join(root, n);
      if !HasSuffix(k, "/") {
        k := k + "/";
      }
      if putFails {
        return ENOENT;
      }
      store.data := store.data[k := []];
      status := OK;
    }

    /** Rename, with undo when deleting the old key fails. */
    method Rename(oldName: string, newName: string, putFails: bool, deleteFails: bool) returns (status: Status)
      modifies store
      ensures (store.data, status) == RenameStep(old(store.data), Join(root, oldName), Join(root, newName), putFails, deleteFails)
    {
      var o := Join(root, oldName);
      var n := Join(root, newName);
      if o !in store.data {
        return EIO;
      }
      var v := store.data[o];
      var hadNew := n in store.data;
      var prev := if hadNew then store.data[n] else [];
      if putFails {
        return EIO;
      }
      store.data := store.data[n := v];
      if deleteFails {
        store.data := store.data[o := v];
        if hadNew {
          store.data := store.data[n := prev];
        } else {
          store.data := store.data - {n};
        }
        return EIO;
      }
      store.data := store.data - {o};
      status := OK;
    }

    /**
     * Rmdir: DeleteTree of the joined directory's tree, EIO when it fails.
     * The source deletes by the bare joined name, which also takes siblings
     * extending it (KvStore.AsWrittenDeleteTakesSiblings).
     */
    method Rmdir(name: string, fails: bool) returns (status: Status)
      modifies store
      ensures status == (if fails then EIO else OK)
      ensures store.data == if fails then old(store.data) else DeleteTree(old(store.data), TreePrefix(Join(root, name)))
    {
      if fails {
        return EIO;
      }
      store.data := DeleteTree(store.data, TreePrefix(Join(root, name)));
      status := OK;
    }

    /** Unlink: Delete of the joined name, EIO when it fails. */
    method Unlink(name: string, fails: bool) returns (status: Status)
      modifies store
      ensures status == (if fails then EIO else OK)
      ensures store.data == if fails then old(store.data) else old(store.data) - {Join(root, name)}
    {
      if fails {
        return EIO;
      }
      store.data := store.data - {Join(root, name)};
      status := OK;
    }

    /** Truncate: the value cut to at most `size` bytes. */
    method Truncate(name: string, size: nat, putFails: bool) returns (status: Status)
      modifies store
      ensures (store.data, status) == TruncateStep(old(store.data), Join(root, name), size, putFails)
    {
      var k := Join(root, name);
      if k !in store.data {
        return EIO;
      }
      var v := store.data[k];
      var n := size;
      if n > |v| {
        n := |v|;
      }
      if putFails {
        return EIO;
      }
      store.data := store.data[k := v[..n]];
      status := OK;
    }
  }

  // ---------------------------------------------------------------------
  // IOReader

  /** What one Read gives the caller: the bytes and whether io.EOF comes with them, or the panic of the file's Read. */
  datatype ReaderResult = Delivered(data: Bytes, eof: bool) | ReaderPanic

  /** IOReader: an io.Reader over an open file, with its own cursor. */
  class IOReader {
    const f: FuseFile.File
    var curr: nat

    constructor (f: FuseFile.File)
      ensures this.f == f && curr == 0
    {
      this.f := f;
      curr := 0;
    }

    /** Read with a buffer of `bufLen` bytes. */
    method Read(bufLen: nat) returns (r: ReaderResult)
      modifies this
      ensures ReaderStep(f.value, bufLen, old(curr)).None? ==> r == ReaderPanic && curr == old(curr)
      ensures ReaderStep(f.value, bufLen, old(curr)).Some? ==>
        var s := ReaderStep(f.value, bufLen, old(curr)).value;
        r == Delivered(s.data, s.eof) && curr == s.curr
    {
      var rr := f.Read(bufLen, curr);
      if rr.None? {
        return ReaderPanic;
      }
      var size := |rr.value|;
      if size == 0 || size < bufLen {
        return Delivered(rr.value, true);
      }
      curr := curr + size;
      r := Delivered(rr.value, false);
    }
  }
}
