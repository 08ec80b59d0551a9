// kvfs (internal/fs.FS): the older FUSE path file system over the same kind
// of key/value store.  Names are joined onto the root with path.Join, so
// they carry no trailing '/'; directory keys do.  Files are opened as KvFile
// files, whose stored values start with a 17-byte attribute header.
module KvFs {
  import opened GoStrings
  import opened GoPath
  import opened KvStore
  import FuseFs
  import KvFile

  // ---------------------------------------------------------------------
  // OpenDir

  /** The prefix every key inside the directory `name` starts with. */
  function DirPrefix(name: string): (p: string)
    ensures HasSuffix(p, "/") && HasPrefix(p, name)
  {
    if HasSuffix(name, "/") then name else name + "/"
  }

  /**
   * OpenDir's filter as the source has it: the directory's own key is
   * skipped and a file is kept only when its parent is the directory, but a
   * directory key is never filtered, and is listed under its whole path
   * with only the leading '/' removed.
   */
  function ChildEntryAsWritten(name: string, key: string): (r: Option<DirEntry>) {
    var sp := SplitPath(key);
    if sp.0 == name + "/" && sp.1 == "" then None
    else if sp.0 != name && Clean(sp.0) != name && sp.1 != "" then None
    else if key != "" && key[|key| - 1] == '/' then Some(DirEntry(TrimPrefix(key[..|key| - 1], "/"), S_IFDIR))
    else Some(DirEntry(sp.1, S_IFREG))
  }

  /**
   * OpenDir's filter with the parent check applied to directory keys too:
   * only keys one element below the directory are kept, each under that
   * element's name.
   */
  function ChildEntry(name: string, key: string): (r: Option<DirEntry>) {
    var p := DirPrefix(name);
    if !HasPrefix(key, p) then None else ElementEntry(key[|p|..])
  }

  /** The entry for what follows the directory's prefix: one element is a file, one element and '/' a directory. */
  function ElementEntry(rest: string): (r: Option<DirEntry>) {
    var i := IndexOf(rest, '/');
    if rest == "" || i == 0 then None
    else if i == -1 then Some(DirEntry(rest, S_IFREG))
    else if i == |rest| - 1 then Some(DirEntry(rest[..i], S_IFDIR))
    else None
  }

  /** A key ending in '/' is its own directory part, with nothing after it. */
  lemma SplitDirKey(key: string)
    requires HasSuffix(key, "/")
    ensures SplitPath(key) == (key, "")
  {
    assert key == key[..|key| - 1] + ['/'] + [];
    LastIndexAfter(key[..|key| - 1], [], '/');
    assert LastIndexOf(key, '/') + 1 == |key|;
    assert key[..|key|] == key && key[|key|..] == "";
  }

  /** A key with no '/' after the directory's prefix splits into that prefix and the rest. */
  lemma SplitFileKey(p: string, rest: string)
    requires HasSuffix(p, "/") && '/' !in rest
    ensures SplitPath(p + rest) == (p, rest)
  {
    assert p + rest == p[..|p| - 1] + ['/'] + rest;
    LastIndexAfter(p[..|p| - 1], rest, '/');
    assert (p + rest)[..|p|] == p;
  }

  /** As written, a directory key other than the directory's own is listed under its path with the leading '/' removed. */
  lemma AsWrittenDirKey(name: string, key: string)
    requires HasSuffix(key, "/") && key != name + "/"
    ensures ChildEntryAsWritten(name, key) == Some(DirEntry(TrimPrefix(key[..|key| - 1], "/"), S_IFDIR))
  {
    SplitDirKey(key);
  }

  /** A '/' inside a name survives the removal of a leading '/'. */
  lemma SlashInside(name: string, c: string)
    requires name != "" && !HasSuffix(name, "/")
    ensures '/' in TrimPrefix(name + "/" + c, "/")
  {
    var t := name + "/" + c;
    if HasPrefix(t, "/") {
      assert t[1..][|name| - 1] == '/';
    } else {
      assert t[|name|] == '/';
    }
  }

  /**
   * As written, a directory two levels down -- the key `name/c/` of the
   * subdirectory `c` -- is listed under the name "name/c" with the
   * directory's own path in it, where the intended entry is just `c`.
   */
  lemma AsWrittenSubdirectoryName(name: string, c: string)
    requires name != "" && !HasSuffix(name, "/") && c != "" && '/' !in c
    ensures var key := name + "/" + c + "/";
      var e := ChildEntryAsWritten(name, key);
      && e == Some(DirEntry(TrimPrefix(name + "/" + c, "/"), S_IFDIR))
      && '/' in e.value.name
      && ChildEntry(name, key) == Some(DirEntry(c, S_IFDIR))
  {
    var key := name + "/" + c + "/";
    assert HasSuffix(key, "/");
    assert |key| > |name + "/"|;
    assert key[..|key| - 1] == name + "/" + c;
    AsWrittenDirKey(name, key);
    SlashInside(name, c);
    assert DirPrefix(name) == name + "/";
    ChildEntryDir(name, c);
  }

  /**
   * As written, a directory key that merely starts with the directory's
   * name -- the sibling `names/` of `name` -- is listed inside it, where the
   * intended listing leaves it out.
   */
  lemma AsWrittenSiblingListed(name: string, s: string)
    requires name != "" && !HasSuffix(name, "/") && s != "" && s[0] != '/'
    ensures var key := name + s + "/";
      && ChildEntryAsWritten(name, key) == Some(DirEntry(TrimPrefix(name + s, "/"), S_IFDIR))
      && ChildEntry(name, key) == None
  {
    var key := name + s + "/";
    assert HasSuffix(key, "/");
    assert |key| > |name + "/"|;
    assert key[..|key| - 1] == name + s;
    AsWrittenDirKey(name, key);
    assert DirPrefix(name) == name + "/";
    assert key[|name|] == s[0];
    assert (name + "/")[|name|] == '/';
  }

  /** The intended listing names a file directly inside the directory by its base name. */
  lemma ChildEntryFile(name: string, rest: string)
    requires rest != "" && '/' !in rest
    ensures ChildEntry(name, DirPrefix(name) + rest) == Some(DirEntry(rest, S_IFREG))
  {
    var p := DirPrefix(name);
    assert (p + rest)[..|p|] == p && (p + rest)[|p|..] == rest;
  }

  /** The intended listing names a subdirectory directly inside the directory by its own name, without the '/'. */
  lemma ChildEntryDir(name: string, c: string)
    requires c != "" && '/' !in c
    ensures ChildEntry(name, DirPrefix(name) + c + "/") == Some(DirEntry(c, S_IFDIR))
  {
    var p := DirPrefix(name);
    var key := p + c + "/";
    assert key[..|p|] == p;
    assert key[|p|..] == c + "/";
    ElementEntryDir(c);
  }

  lemma ElementEntryDir(c: string)
    requires c != "" && '/' !in c
    ensures ElementEntry(c + "/") == Some(DirEntry(c, S_IFDIR))
  {
    var s := c + "/";
    var i := IndexOf(s, '/');
    assert s[|c|] == '/';
    assert forall j :: 0 <= j < |c| ==> s[j] == c[j];
    assert s[..|c|] == c;
  }

  /**
   * Everything the intended listing keeps is directly inside the directory:
   * the entry's name is one element (not empty, no '/'), and the prefix
   * followed by the name (and '/' for a directory) is the key again.
   */
  lemma ChildEntryShape(name: string, key: string, e: DirEntry)
    requires ChildEntry(name, key) == Some(e)
    ensures e.name != "" && '/' !in e.name
    ensures e.mode == S_IFREG || e.mode == S_IFDIR
  {
    ElementEntryShape(key[|DirPrefix(name)|..], e);
  }

  /** The directory's prefix followed by the entry's name, and '/' for a directory, is the key it came from. */
  lemma ChildEntryKey(name: string, key: string, e: DirEntry)
    requires ChildEntry(name, key) == Some(e)
    ensures e.mode == S_IFREG ==> key == DirPrefix(name) + e.name
    ensures e.mode == S_IFDIR ==> key == DirPrefix(name) + e.name + "/"
  {
    var p := DirPrefix(name);
    var rest := key[|p|..];
    PrefixRest(key, p);
    ElementEntryShape(rest, e);
    AppendSlash(p, e.name);
  }

  lemma PrefixRest(key: string, p: string)
    requires HasPrefix(key, p)
    ensures key == p + key[|p|..]
  {
  }

  lemma AppendSlash(p: string, n: string)
    ensures p + (n + "/") == p + n + "/"
  {
  }

  lemma ElementEntryShape(rest: string, e: DirEntry)
    requires ElementEntry(rest) == Some(e)
    ensures e.name != "" && '/' !in e.name
    ensures (e.mode == S_IFREG && rest == e.name) || (e.mode == S_IFDIR && rest == e.name + "/")
  {
    var i := IndexOf(rest, '/');
    if i != -1 {
      assert rest == rest[..i] + "/";
    }
  }

  /**
   * On file keys the intended listing is what the source computes: where the
   * directory's prefix cleans back to its name (as every name path.Join
   * makes does), a file directly inside is listed under its base name either way.
   */
  lemma FilesAgree(name: string, rest: string)
    requires rest != "" && '/' !in rest
    requires DirPrefix(name) == name || Clean(DirPrefix(name)) == name
    ensures ChildEntryAsWritten(name, DirPrefix(name) + rest) == Some(DirEntry(rest, S_IFREG))
    ensures ChildEntry(name, DirPrefix(name) + rest) == Some(DirEntry(rest, S_IFREG))
  {
    var p := DirPrefix(name);
    var key := p + rest;
    SplitFileKey(p, rest);
    assert key[|key| - 1] == rest[|rest| - 1];
    ChildEntryFile(name, rest);
  }

  /** OpenDir's entries, in store order: every listed key's entry, where it has one. */
  function Listing(name: string, keys: seq<string>): (r: seq<DirEntry>) {
    Listed(keys, k => ChildEntry(name, k))
  }

  /** Every entry of a listing comes from a key inside the directory, and names it. */
  lemma ListingMeaning(name: string, keys: seq<string>, e: DirEntry)
    ensures e in Listing(name, keys) <==> exists i :: 0 <= i < |keys| && ChildEntry(name, keys[i]) == Some(e)
    ensures e in Listing(name, keys) ==> '/' !in e.name && e.name != ""
  {
    ListedMeaning(keys, k => ChildEntry(name, k), e);
    if e in Listing(name, keys) {
      var i :| 0 <= i < |keys| && ChildEntry(name, keys[i]) == Some(e);
      ChildEntryShape(name, keys[i], e);
    }
  }

  // ---------------------------------------------------------------------
  // GetAttr and Truncate on the store's contents

  /**
   * GetAttr with a regular file's size counted without the attribute
   * header, as the file's own GetAttr counts it.
   */
  function AttrOf(data: map<string, Bytes>, root: string, name: string, now: nat): (r: (Status, Attr)) {
    var (st, a) := FuseFs.AttrOf(data, root, name, now);
    var n := Join(root, name);
    if st == OK && a.mode == RegMode && n in data then (st, a.(size := |KvFile.Opened(n, data[n]).value|))
    else (st, a)
  }

  /**
   * GetAttr agrees with the file it names: a plain key's size is the size
   * an open file of it reports; status and mode are as the source computes them.
   */
  lemma AttrOfMatchesFile(data: map<string, Bytes>, root: string, name: string, now: nat, outMode: bv32)
    requires Join(root, name) != "" && Join(root, name) in data && !HasSuffix(Join(root, name), "/")
    ensures var n := Join(root, name);
      var (st, a) := AttrOf(data, root, name, now);
      && st == OK && a.mode == RegMode
      && a.size == KvFile.AttrOf(KvFile.Opened(n, data[n]), outMode).size
      && FuseFs.AttrOf(data, root, name, now).0 == st
  {
    FuseFs.AttrOfMeaning(data, root, name, now);
  }

  /**
   * As written, GetAttr counts the 17 header bytes into the size: a file just
   * created (its stored value is a bare header) is reported 17 bytes long
   * while the open file reports 0.
   */
  lemma AsWrittenAttrSize(data: map<string, Bytes>, root: string, name: string, now: KvFile.U64)
    requires Join(root, name) != "" && !HasSuffix(Join(root, name), "/")
    ensures var n := Join(root, name);
      var stored := KvFile.WithTimes(KvFile.ZeroHeader(), now, now);
      var d := data[n := stored];
      && FuseFs.AttrOf(d, root, name, now).1.size == 17
      && KvFile.Opened(n, stored).value == []
      && AttrOf(d, root, name, now).1.size == 0
  {
    var n := Join(root, name);
    var stored := KvFile.WithTimes(KvFile.ZeroHeader(), now, now);
    FuseFs.AttrOfMeaning(data[n := stored], root, name, now);
    assert stored[KvFile.HeaderSize..] == [];
  }

  /**
   * Truncate with the size counted in content bytes: the header is kept and
   * the content after it cut, never extended.
   */
  function TruncateStep(data: map<string, Bytes>, key: string, size: nat, putFails: bool): (r: (map<string, Bytes>, Status)) {
    if key !in data then (data, EIO)
    else
      var v := data[key];
      var cut :=
        if |v| >= KvFile.HeaderSize then
          var c := v[KvFile.HeaderSize..];
          v[..KvFile.HeaderSize] + c[..if size > |c| then |c| else size]
        else v[..if size > |v| then |v| else size];
      if putFails then (data, EIO) else (data[key := cut], OK)
  }

  /**
   * Truncate keeps the file's header and times and cuts its content to the
   * requested size, never growing it; a missing key or a failing Put
   * changes nothing.
   */
  lemma TruncateKeepsHeader(data: map<string, Bytes>, key: string, size: nat, putFails: bool)
    ensures var (d, st) := TruncateStep(data, key, size, putFails);
      && (st == OK <==> key in data && !putFails)
      && (st != OK ==> st == EIO && d == data)
      && (st == OK ==>
            var before := KvFile.Opened(key, data[key]);
            var after := KvFile.Opened(key, d[key]);
            && d.Keys == data.Keys
            && after.header == before.header
            && after.value == before.value[..if size > |before.value| then |before.value| else size])
  {
    if key in data && !putFails {
      var v := data[key];
      var (d, _) := TruncateStep(data, key, size, putFails);
      if |v| >= KvFile.HeaderSize {
        var c := v[KvFile.HeaderSize..];
        var n := if size > |c| then |c| else size;
        var cut := v[..KvFile.HeaderSize] + c[..n];
        assert cut[..KvFile.HeaderSize] == v[..KvFile.HeaderSize] && cut[KvFile.HeaderSize..] == c[..n];
      }
    }
  }

  /**
   * As written, Truncate counts the header into the size: truncating a file
   * whose content starts with a byte other than 0 to fewer than 17 bytes
   * keeps only header bytes, so reopening gives header bytes (its byte 0 is
   * 0) as content instead of the content's first bytes.
   */
  lemma AsWrittenTruncateLosesContent(data: map<string, Bytes>, key: string, h: Bytes, c: Bytes, size: nat)
    requires |h| == KvFile.HeaderSize && h[0] == 0 && c != [] && c[0] != 0
    requires 0 < size < KvFile.HeaderSize
    ensures var (d, st) := FuseFs.TruncateStep(data[key := h + c], key, size, false);
      && st == OK
      && KvFile.Opened(key, d[key]).value == h[..size]
      && KvFile.Opened(key, d[key]).value != c[..if size > |c| then |c| else size]
      && KvFile.Opened(key, TruncateStep(data[key := h + c], key, size, false).0[key]).value
           == c[..if size > |c| then |c| else size]
  {
    var (d, _) := FuseFs.TruncateStep(data[key := h + c], key, size, false);
    assert d[key] == (h + c)[..size] == h[..size];
    assert h[..size][0] == 0;
    TruncateKeepsHeader(data[key := h + c], key, size, false);
    assert (h + c)[KvFile.HeaderSize..] == c;
  }

  // ---------------------------------------------------------------------
  // The file system

  class KvFS {
    const store: Store
    const root: string

    /** NewKVFS: the root normalised as FuseFs does; the store is left as it is. */
    constructor (rootOption: string, store: Store)
      ensures this.store == store && root == FuseFs.NormRoot(rootOption)
    {
      this.store := store;
      root := FuseFs.NormRoot(rootOption);
    }

    /** Create: EACCES for "", otherwise a new file at the joined name, written empty (so its stored value is a bare header). */
    method Create(name: string, now: KvFile.U64, putFails: bool) returns (f: KvFile.File?, status: Status)
      modifies store
      ensures name == "" ==> f == null && status == EACCES && store.data == old(store.data)
      ensures name != "" ==> f != null && fresh(f) && f.store == store && f.key == Join(root, name) && f.value == []
      ensures name != "" ==> f.Valid() && f.header == KvFile.WithTimes(KvFile.ZeroHeader(), now, now)
      ensures name != "" ==> status == (if putFails then EIO else OK)
      ensures name != "" && !putFails ==>
        store.data == old(store.data)[Join(root, name) := KvFile.WithTimes(KvFile.ZeroHeader(), now, now)]
      ensures name != "" && putFails ==> store.data == old(store.data)
    {
      if name == "" {
        return null, EACCES;
      }
      f := new KvFile.File(store, Join(root, name), []);
      KvFile.ZeroHeaderTimes();
      var w := f.Write([], 0, now, putFails);
      assert KvFile.WithTimes(KvFile.ZeroHeader(), now, now) + [] == KvFile.WithTimes(KvFile.ZeroHeader(), now, now);
      status := if w.Wrote? then OK else EIO;
    }

    /** Open: ENOENT unless the joined name is a key; the file holds that key's value, header stripped. */
    method Open(name: string) returns (f: KvFile.File?, status: Status)
      ensures var k := Join(root, name);
        && (k !in store.data ==> f == null && status == ENOENT)
        && (k in store.data ==> f != null && fresh(f) && status == OK && f.store == store
                                && f.Snapshot() == KvFile.Opened(k, store.data[k]))
    {
      var k := Join(root, name);
      if k !in store.data {
        return null, ENOENT;
      }
      f := new KvFile.File(store, k, store.data[k]);
      status := OK;
    }

    /**
     * OpenDir: ENOENT only when the listing fails.  `listing` is what the
     * store's List returns for the joined name (every key with that
     * prefix), in store order, which the result keeps.
     */
    method OpenDir(name: string, listing: seq<string>, listFails: bool) returns (entries: seq<DirEntry>, status: Status)
      requires forall k :: k in listing <==> k in store.data && HasPrefix(k, Join(root, name))
      ensures status == (if listFails then ENOENT else OK)
      ensures status == OK ==> entries == Listing(Join(root, name), listing)
      ensures status != OK ==> entries == []
    {
      var n := Join(root, name);
      if listFails {
        return [], ENOENT;
      }
      entries := [];
      var i := 0;
      while i < |listing|
        invariant 0 <= i <= |listing|
        invariant entries == Listing(n, listing[..i])
      {
        assert listing[..i + 1][..i] == listing[..i];
        var e := ChildEntry(n, listing[i]);
        if e.Some? {
          entries := entries + [e.value];
        }
        i := i + 1;
      }
      assert listing[..i] == listing;
      status := OK;
    }

    /** GetAttr, with `now` for the clock and a file's size counted without its header. */
    method GetAttr(name: string, now: nat) returns (a: Attr, status: Status)
      ensures (status, a) == AttrOf(store.data, root, name, now)
    {
      var n := Join(root, name);
      a := Attr(DirMode, 0, now, now);
      if n == "" {
        return a, OK;
      }
      var key := n;
      if key !in store.data {
        key := n + "/";
        if key !in store.data {
          return a, ENOENT;
        }
      }
      if !HasSuffix(key, "/") {
        a := Attr(RegMode, |KvFile.Opened(key, store.data[key]).value|, now, now);
      }
      status := OK;
    }

    /** Mkdir: the joined name with a trailing '/' stored with an empty value; ENOENT when the Put fails. */
    method Mkdir(name: string, putFails: bool) returns (status: Status)
      modifies store
      ensures status == (if putFails then ENOENT else OK)
      ensures status == OK ==> store.data == old(store.data)[Join(root, name) + "/" := []]
      ensures status != OK ==> store.data == old(store.data)
    {
      if putFails {
        return ENOENT;
      }
      store.data := store.data[Join(root, name) + "/" := []];
      status := OK;
    }

    /** Rename, with undo when deleting the old key fails, exactly as FuseFs does it. */
    method Rename(oldName: string, newName: string, putFails: bool, deleteFails: bool) returns (status: Status)
      modifies store
      ensures (store.data, status) == FuseFs.RenameStep(old(store.data), Join(root, oldName), Join(root, newName), putFails, deleteFails)
    {
      var o := Join(root, oldName);
      var n := Join(root, newName);
      if o !in store.data {
        return EIO;
      }
      var v := store.data[o];
      var hadNew := n in store.data;
      var prev := if hadNew then store.data[n] else [];
      if putFails {
        return EIO;
      }
      store.data := store.data[n := v];
      if deleteFails {
        store.data := store.data[o := v];
        if hadNew {
          store.data := store.data[n := prev];
        } else {
          store.data := store.data - {n};
        }
        return EIO;
      }
      store.data := store.data - {o};
      status := OK;
    }

    /**
     * Rmdir: DeleteTree of the joined directory's tree, EIO when it fails.
     * The source deletes by the bare joined name, which also takes siblings
     * extending it (KvStore.AsWrittenDeleteTakesSiblings).
     */
    method Rmdir(name: string, fails: bool) returns (status: Status)
      modifies store
      ensures status == (if fails then EIO else OK)
      ensures store.data == if fails then old(store.data) else DeleteTree(old(store.data), TreePrefix(Join(root, name)))
    {
      if fails {
        return EIO;
      }
      store.data := DeleteTree(store.data, TreePrefix(Join(root, name)));
      status := OK;
    }

    /** Unlink: Delete of the joined name, EIO when it fails. */
    method Unlink(name: string, fails: bool) returns (status: Status)
      modifies store
      ensures status == (if fails then EIO else OK)
      ensures store.data == if fails then old(store.data) else old(store.data) - {Join(root, name)}
    {
      if fails {
        return EIO;
      }
      store.data := store.data - {Join(root, name)};
      status := OK;
    }

    /** Truncate: the content cut to at most `size` bytes, the header kept. */
    method Truncate(name: string, size: nat, putFails: bool) returns (status: Status)
      modifies store
      ensures (store.data, status) == TruncateStep(old(store.data), Join(root, name), size, putFails)
    {
      var k := Join(root, name);
      if k !in store.data {
        return EIO;
      }
      var v := store.data[k];
      var cut: Bytes;
      if |v| >= KvFile.HeaderSize {
        var c := v[KvFile.HeaderSize..];
        var n := if size > |c| then |c| else size;
        cut := v[..KvFile.HeaderSize] + c[..n];
      } else {
        var n := if size > |v| then |v| else size;
        cut := v[..n];
      }
      if putFails {
        return EIO;
      }
      store.data := store.data[k := cut];
      status := OK;
    }
  }

  /** IOReader over a kvfs file: the same cursor logic as FuseFs's. */
  class IOReader {
    const f: KvFile.File
    var curr: nat

    constructor (f: KvFile.File)
      ensures this.f == f && curr == 0
    {
      this.f := f;
      curr := 0;
    }

    /** Read with a buffer of `bufLen` bytes. */
    method Read(bufLen: nat) returns (r: FuseFs.ReaderResult)
      modifies this
      ensures ReaderStep(f.value, bufLen, old(curr)).None? ==> r == FuseFs.ReaderPanic && curr == old(curr)
      ensures ReaderStep(f.value, bufLen, old(curr)).Some? ==>
        var s := ReaderStep(f.value, bufLen, old(curr)).value;
        r == FuseFs.Delivered(s.data, s.eof) && curr == s.curr
    {
      var rr := f.Read(bufLen, curr);
      if rr.None? {
        return FuseFs.ReaderPanic;
      }
      var size := |rr.value|;
      if size == 0 || size < bufLen {
        return FuseFs.Delivered(rr.value, true);
      }
      curr := curr + size;
      r := FuseFs.Delivered(rr.value, false);
    }
  }
}
