// stdfs: the io/fs view of a FUSE path file system.  Opening a name tries
// a file first and a directory second (the root only as a directory); a
// directory is the entry list OpenDir gave, and a file reads forward from a
// cursor through the file's own Read.
module StdFs {
  import opened GoStrings
  import opened GoPath
  import opened KvStore
  import FuseFs
  import FuseFile
  import Sorting

  /** An open directory: the entries OpenDir gave and the name it was opened under. */
  datatype DirFile = DirFile(entries: seq<DirEntry>, name: string)

  /** The fields of an fs.FileInfo the adapter fills in. */
  datatype FileInfo = FileInfo(name: string, size: nat, mode: bv32, isDir: bool)

  /** What Open gives: a file, a directory, or os.ErrNotExist. */
  datatype Handle = FileHandle(file: SFile) | DirHandle(dir: DirFile) | NotExist

  /** DirStat: the directory's name, size 0, a 0755 directory. */
  function DirStat(d: DirFile): (i: FileInfo)
    ensures i.name == d.name && i.size == 0 && i.isDir && IsDirMode(i.mode)
  {
    ModeFacts();
    FileInfo(d.name, 0, DirMode, true)
  }

  /** DirFile.Read: nothing read and no error, whatever the buffer. */
  function DirRead(d: DirFile, bufLen: nat): (r: (nat, bool))
    ensures r.0 == 0 && !r.1
  {
    (0, false)
  }

  /** DirFile.ReadDir: `n` is ignored; one entry per listed entry, in order. */
  function ReadDir(d: DirFile, n: int): (r: seq<DirEntry>)
    ensures |r| == |d.entries|
    ensures forall i :: 0 <= i < |r| ==> r[i] == d.entries[i]
  {
    d.entries
  }

  /** DirFileInfo.Mode: a zero mode is shown as a 0755 directory, any other as it is. */
  function InfoMode(e: DirEntry): (r: bv32) {
    if e.mode == 0 then DirMode else e.mode
  }

  /** DirFileInfo.IsDir and DirEntry.IsDir: the S_IFDIR bit of the raw mode. */
  predicate EntryIsDir(e: DirEntry) {
    IsDirMode(e.mode)
  }

  /** DirEntry.Info: the entry's name, size 0, the mode as DirFileInfo.Mode shows it and the S_IFDIR bit. */
  function EntryInfo(e: DirEntry): (i: FileInfo)
    ensures i.name == e.name && i.size == 0
    ensures i.isDir <==> IsDirMode(e.mode)
    ensures e.mode != 0 ==> i.mode == e.mode
  {
    FileInfo(e.name, 0, InfoMode(e), EntryIsDir(e))
  }

  /**
   * Mode and IsDir agree on every non-zero mode, and disagree on the zero
   * mode: Mode says directory, IsDir says not.
   */
  lemma InfoModeVersusIsDir(e: DirEntry)
    ensures e.mode != 0 ==> (IsDirMode(InfoMode(e)) <==> EntryIsDir(e))
    ensures e.mode == 0 ==> IsDirMode(InfoMode(e)) && !EntryIsDir(e)
  {
    ModeFacts();
  }

  /** The entries FuseFs lists never have the zero mode, so for them the two agree. */
  lemma ListedModesAgree(path: string, keys: seq<string>, e: DirEntry)
    requires e in FuseFs.Listing(path, keys)
    ensures IsDirMode(InfoMode(e)) <==> EntryIsDir(e)
  {
    FuseFs.ListingMeaning(path, keys, e);
    ModeFacts();
  }

  // ---------------------------------------------------------------------
  // sFile

  /** What one sFile.Read gives: the bytes, or io.EOF when none came back, or the panic of the file's Read. */
  datatype ReadResult = Bytes(data: Bytes) | EOF | ReadPanic

  /** A file read forward from a cursor. */
  class SFile {
    const f: FuseFile.File
    var readOffset: nat
    const name: string

    constructor (f: FuseFile.File, name: string)
      ensures this.f == f && this.name == name && readOffset == 0
    {
      this.f := f;
      this.name := name;
      readOffset := 0;
    }

    /** Stat: size and mode from the file's GetAttr over a zero record; never a directory. */
    method Stat() returns (i: FileInfo)
      ensures var a := FuseFile.AttrOf(f.Snapshot(), 0);
        i == FileInfo(name, a.size, a.mode, false)
    {
      var a := f.GetAttr(0);
      i := FileInfo(name, a.size, a.mode, false);
    }

    /** Read: the file's bytes from the cursor (the status is ignored); the cursor moves past them; none is io.EOF. */
    method Read(bufLen: nat) returns (r: ReadResult)
      modifies this
      ensures ReadAt(f.value, bufLen, old(readOffset)).None? ==> r == ReadPanic && readOffset == old(readOffset)
      ensures ReadAt(f.value, bufLen, old(readOffset)) == Some([]) ==> r == EOF && readOffset == old(readOffset)
      ensures ReadAt(f.value, bufLen, old(readOffset)).Some? && ReadAt(f.value, bufLen, old(readOffset)) != Some([]) ==>
        var d := ReadAt(f.value, bufLen, old(readOffset)).value;
        r == Bytes(d) && readOffset == old(readOffset) + |d|
    {
      var x := f.Read(bufLen, readOffset);
      if x.None? {
        return ReadPanic;
      }
      if |x.value| == 0 {
        return EOF;
      }
      readOffset := readOffset + |x.value|;
      r := Bytes(x.value);
    }
  }

  /** Everything a run of sFile reads delivers from offset `off` until io.EOF. */
  function ReadToEOF(value: Bytes, bufLen: nat, off: nat): (r: Bytes)
    requires off <= |value| && bufLen > 0
    decreases |value| - off
  {
    var d := ReadAt(value, bufLen, off).value;
    if d == [] then [] else d + ReadToEOF(value, bufLen, off + |d|)
  }

  /**
   * Reading an sFile to io.EOF delivers the rest of the file, in order, for
   * any non-empty buffer: the same bytes an IOReader delivers, though the
   * two end on different reads (an sFile goes on after a short read).
   */
  lemma {:induction false} ReadToEOFDeliversRest(value: Bytes, bufLen: nat, off: nat)
    requires off <= |value| && bufLen > 0
    ensures ReadToEOF(value, bufLen, off) == value[off..]
    ensures ReadToEOF(value, bufLen, off) == Drain(value, bufLen, off)
  {
    ReadToEOFIsRest(value, bufLen, off);
    DrainDeliversRest(value, bufLen, off);
  }

  lemma {:induction false} ReadToEOFIsRest(value: Bytes, bufLen: nat, off: nat)
    requires off <= |value| && bufLen > 0
    ensures ReadToEOF(value, bufLen, off) == value[off..]
    decreases |value| - off
  {
    var end := if off + bufLen <= |value| then off + bufLen else |value|;
    var d := value[off..end];
    assert ReadAt(value, bufLen, off).value == d;
    if d != [] {
      ReadToEOFIsRest(value, bufLen, end);
      assert value[off..] == d + value[end..];
    }
  }

  // ---------------------------------------------------------------------
  // Open

  /** The adapter over a FuseFs file system. */
  class Fs {
    const fs: FuseFs.FuseFS

    constructor (fs: FuseFs.FuseFS)
      ensures this.fs == fs
    {
      this.fs := fs;
    }

    /**
     * Open: the root only through OpenDir; any other name as a file when
     * the file opens, otherwise as a directory when OpenDir succeeds,
     * otherwise os.ErrNotExist.  `listing` and `listFails` stand for the
     * store's List of the directory's key.
     */
    method Open(name: string, listing: seq<string>, listFails: bool) returns (h: Handle)
      requires forall k :: k in listing <==> k in fs.store.data && HasPrefix(k, FuseFs.OpenDirKey(fs.root, name))
      ensures var fileKey := Join(fs.root, name);
        var dirOk := FuseFs.OpenDirKey(fs.root, name) in fs.store.data && !listFails;
        var entries := Sorting.Sort(FuseFs.Listing(FuseFs.OpenDirKey(fs.root, name), listing), FuseFs.EntryLess);
        && (name != "/" && fileKey in fs.store.data ==>
              h.FileHandle? && fresh(h.file) && fresh(h.file.f) && h.file.readOffset == 0 && h.file.name == name
              && h.file.f.Snapshot() == FuseFile.NewFile(fileKey, fs.store.data[fileKey], 0))
        && ((name == "/" || fileKey !in fs.store.data) ==>
              h == if dirOk then DirHandle(DirFile(entries, name)) else NotExist)
    {
      if name == "/" {
        var d, status := fs.OpenDir(name, listing, listFails);
        if status == OK {
          return DirHandle(DirFile(d, name));
        }
        return NotExist;
      }
      var nf, status := fs.Open(name);
      if status == OK {
        var s := new SFile(nf, name);
        return FileHandle(s);
      }
      var d, dirStatus := fs.OpenDir(name, listing, listFails);
      if dirStatus == OK {
        return DirHandle(DirFile(d, name));
      }
      h := NotExist;
    }
  }
}
