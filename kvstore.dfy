// What the two KV-backed FUSE file systems share: the flat key/value store
// they are built on (a key ending in '/' is a directory), FUSE status codes,
// mode bits, directory entries, and the cursor logic of their IOReader.
module KvStore {
  import opened GoStrings

  /** A byte, as Go's []byte holds them. */
  newtype byte = x: int | 0 <= x < 256

  type Bytes = seq<byte>

  datatype Option<T> = None | Some(value: T)

  /** The fuse.Status values the modelled code returns. */
  datatype Status = OK | ENOENT | EACCES | EIO

  const S_IFDIR: bv32 := 0x4000
  const S_IFREG: bv32 := 0x8000
  /** S_IFDIR | 0755 */
  const DirMode: bv32 := 0x41ED
  /** S_IFREG | 0644 */
  const RegMode: bv32 := 0x81A4

  /** `mode & S_IFDIR == S_IFDIR`, the test every caller uses. */
  predicate IsDirMode(m: bv32) {
    m & S_IFDIR == S_IFDIR
  }

  lemma ModeFacts()
    ensures IsDirMode(S_IFDIR) && !IsDirMode(S_IFREG)
    ensures IsDirMode(DirMode) && !IsDirMode(RegMode)
    ensures !IsDirMode(0)
  {
  }

  /** fuse.DirEntry. */
  datatype DirEntry = DirEntry(name: string, mode: bv32)

  /** The fields of fuse.Attr the code sets; times are whole seconds. */
  datatype Attr = Attr(mode: bv32, size: nat, ctime: nat, mtime: nat)

  /** The libkv store: a map from keys to values, shared by a file system and the files it opens. */
  class Store {
    var data: map<string, Bytes>

    constructor (data: map<string, Bytes>)
      ensures this.data == data
    {
      this.data := data;
    }
  }

  /** DeleteTree: every key that starts with the prefix is removed. */
  function DeleteTree(data: map<string, Bytes>, prefix: string): (r: map<string, Bytes>)
    ensures forall k :: k in r <==> k in data && !HasPrefix(k, prefix)
    ensures forall k :: k in r ==> r[k] == data[k]
  {
    map k | k in data && !HasPrefix(k, prefix) :: data[k]
  }

  /**
   * The prefix of directory `dir`'s tree: its own key `dir + "/"` and every
   * key below it start with it, and no sibling does.
   */
  function TreePrefix(dir: string): (r: string)
    ensures |r| == |dir| + 1 && HasPrefix(r, dir) && r[|dir|] == '/'
  {
    dir + "/"
  }

  /**
   * Rmdir as written: DeleteTree of the directory's bare joined name also
   * removes a sibling `dir + s` whose name extends it, which is not in the
   * directory's tree.
   */
  lemma AsWrittenDeleteTakesSiblings(data: map<string, Bytes>, dir: string, s: string)
    requires s != "" && s[0] != '/' && dir + s in data
    ensures dir + s !in DeleteTree(data, dir)
    ensures !HasPrefix(dir + s, TreePrefix(dir))
  {
    assert (dir + s)[..|dir|] == dir;
    assert (dir + s)[|dir|] == s[0];
  }

  /**
   * Rmdir corrected: DeleteTree of the tree prefix keeps every such sibling
   * with its value, and removes no key the as-written call keeps.
   */
  lemma DeleteTreeKeepsSiblings(data: map<string, Bytes>, dir: string, s: string)
    requires s != "" && s[0] != '/' && dir + s in data
    ensures dir + s in DeleteTree(data, TreePrefix(dir))
    ensures DeleteTree(data, TreePrefix(dir))[dir + s] == data[dir + s]
    ensures forall k :: k in DeleteTree(data, dir) ==> k in DeleteTree(data, TreePrefix(dir))
  {
    AsWrittenDeleteTakesSiblings(data, dir, s);
  }

  /** OpenDir's loop: each listed key's entry, where it has one, in listing order. */
  function Listed<K, E>(keys: seq<K>, entry: K -> Option<E>): (r: seq<E>) {
    if keys == [] then []
    else
      var init := Listed(keys[..|keys| - 1], entry);
      match entry(keys[|keys| - 1])
      case None => init
      case Some(e) => init + [e]
  }

  /** An entry is listed exactly when some listed key yields it. */
  lemma {:induction false} ListedMeaning<K, E>(keys: seq<K>, entry: K -> Option<E>, e: E)
    ensures e in Listed(keys, entry) <==> exists i :: 0 <= i < |keys| && entry(keys[i]) == Some(e)
  {
    if keys != [] {
      var init := keys[..|keys| - 1];
      ListedMeaning(init, entry, e);
      assert forall i :: 0 <= i < |init| ==> init[i] == keys[i];
      assert keys[|keys| - 1] == keys[|init|];
    }
  }

  /** Listing order follows the keys: two keyed entries come out in the order of their keys. */
  lemma {:induction false} ListedAppend<K, E>(a: seq<K>, b: seq<K>, entry: K -> Option<E>)
    ensures Listed(a + b, entry) == Listed(a, entry) + Listed(b, entry)
    decreases |b|
  {
    if b == [] {
      assert a + b == a;
    } else {
      var b0 := b[..|b| - 1];
      assert (a + b)[..|a + b| - 1] == a + b0;
      ListedAppend(a, b0, entry);
    }
  }

  // ---------------------------------------------------------------------
  // IOReader

  /** A file's Read(buf, off): the slice value[off:min(off+len(buf), len(value))], None where Go's slice expression panics. */
  function ReadAt(value: Bytes, bufLen: nat, off: nat): (r: Option<Bytes>)
    ensures r.None? <==> off > |value|
    ensures r.Some? ==> r.value == value[off..if off + bufLen <= |value| then off + bufLen else |value|]
  {
    var end := if off + bufLen > |value| then |value| else off + bufLen;
    if off > end then None else Some(value[off..end])
  }

  /** What one IOReader.Read gives: the bytes, whether it reports io.EOF, and the new cursor. */
  datatype ReadStep = ReadStep(data: Bytes, eof: bool, curr: nat)

  /**
   * IOReader.Read: a read that returns nothing or less than the buffer holds
   * is reported as io.EOF and leaves the cursor where it was; a full read
   * advances the cursor by its size.
   */
  function ReaderStep(value: Bytes, bufLen: nat, curr: nat): (r: Option<ReadStep>)
    ensures r.None? <==> curr > |value|
    ensures r.Some? ==> curr + |r.value.data| <= |value| && r.value.data == value[curr..curr + |r.value.data|]
    ensures r.Some? ==> (r.value.eof <==> |r.value.data| == 0 || |r.value.data| < bufLen)
    ensures r.Some? ==> r.value.curr == if r.value.eof then curr else curr + bufLen
  {
    match ReadAt(value, bufLen, curr)
    case None => None
    case Some(d) =>
      if |d| == 0 || |d| < bufLen then Some(ReadStep(d, true, curr))
      else Some(ReadStep(d, false, curr + |d|))
  }

  /** Everything a reader delivers from `curr` on, up to and including the read that reports io.EOF. */
  function Drain(value: Bytes, bufLen: nat, curr: nat): (r: Bytes)
    requires curr <= |value|
    decreases |value| - curr
  {
    var s := ReaderStep(value, bufLen, curr).value;
    if s.eof then s.data else s.data + Drain(value, bufLen, s.curr)
  }

  /**
   * Reading to the end delivers exactly the rest of the file, in order,
   * whatever the buffer size; an empty buffer meets io.EOF at once and
   * delivers nothing.
   */
  lemma {:induction false} DrainDeliversRest(value: Bytes, bufLen: nat, curr: nat)
    requires curr <= |value|
    ensures bufLen > 0 ==> Drain(value, bufLen, curr) == value[curr..]
    ensures bufLen == 0 ==> Drain(value, bufLen, curr) == []
    decreases |value| - curr
  {
    var s := ReaderStep(value, bufLen, curr).value;
    if !s.eof {
      DrainDeliversRest(value, bufLen, s.curr);
      assert value[curr..] == value[curr..s.curr] + value[s.curr..];
    }
  }
}
