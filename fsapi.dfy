// The blog editor's file API over the key/value file system (KvFs, with an
// empty root).  It is easyfs's API with directories left implicit: making
// and removing a directory do nothing, writing a file neither checks the
// name nor makes its directory, files carry no directory path, and the file
// tree is easyfs's tree in its Api flavour (EasyFs.Tree with Api).
module FsApi {
  import opened GoStrings
  import opened GoPath
  import opened KvStore
  import EasyFs
  import KvFs
  import KvFile

  /** ioutil.ReadAll over a kvfs IOReader, with every buffer `bufLen` bytes long. */
  method ReadAll(r: KvFs.IOReader, bufLen: nat) returns (bs: Bytes)
    requires bufLen > 0 && r.curr <= |r.f.value|
    modifies r
    ensures bs == r.f.value[old(r.curr)..]
  {
    bs := [];
    DrainDeliversRest(r.f.value, bufLen, r.curr);
    while true
      invariant r.curr <= |r.f.value|
      invariant bs + Drain(r.f.value, bufLen, r.curr) == r.f.value[old(r.curr)..]
      decreases |r.f.value| - r.curr
    {
      var d := r.Read(bufLen);
      bs := bs + d.data;
      if d.eof {
        return;
      }
    }
  }

  class Api {
    const fs: KvFs.KvFS

    constructor (fs: KvFs.KvFS)
      ensures this.fs == fs
    {
      this.fs := fs;
    }

    /** Mkdir: nothing to do, directories exist through their files. */
    method Mkdir(name: string) returns (err: Option<EasyFs.FsError>)
      ensures err == None
    {
      err := None;
    }

    /** RmDir: nothing to do either; the source's stub is the same as Mkdir's. */
    method RmDir(name: string) returns (err: Option<EasyFs.FsError>)
      ensures err == None
    {
      err := None;
    }

    /** RmFile: the file system's Unlink. */
    method RmFile(name: string, fails: bool) returns (err: Option<EasyFs.FsError>)
      modifies fs.store
      ensures err == (if fails then Some(EasyFs.StatusErr(EIO, [])) else None)
      ensures fs.store.data == if fails then old(fs.store.data) else old(fs.store.data) - {Join(fs.root, name)}
    {
      var status := fs.Unlink(name, fails);
      err := EasyFs.StatusError(status, []);
    }

    /**
     * GetFile: ENOENT unless the joined path is a key; otherwise the value
     * with its header stripped as the body, the header's times, the last
     * element of the path as the name, no directory path, and a directory
     * only for a key ending in '/'.  ReadAll's buffers are `bufLen` bytes long.
     */
    method GetFile(path: string, bufLen: nat) returns (fi: Option<EasyFs.File>, err: Option<EasyFs.FsError>)
      requires bufLen > 0
      ensures var k := Join(fs.root, path);
        && (k !in fs.store.data ==> fi == None && err == Some(EasyFs.StatusErr(ENOENT, [])))
        && (k in fs.store.data ==>
              var g := KvFile.Opened(k, fs.store.data[k]);
              err == None && fi == Some(EasyFs.File(SplitPath(path).1, path, "", |k| > 0 && k[|k| - 1] == '/',
                                             KvFile.Ctime(g.header), KvFile.Mtime(g.header), g.value)))
    {
      var nf, status := fs.Open(path);
      if status != OK {
        return None, EasyFs.StatusError(status, []);
      }
      var a := nf.GetAttr(0);
      var reader := new KvFs.IOReader(nf);
      var bs := ReadAll(reader, bufLen);
      ghost var k := Join(fs.root, path);
      ghost var g := KvFile.Opened(k, fs.store.data[k]);
      assert nf.header == g.header && nf.key == k;
      assert bs == g.value;
      assert a.ctime == KvFile.Ctime(g.header) && a.mtime == KvFile.Mtime(g.header);
      assert IsDirMode(a.mode) == (|k| > 0 && k[|k| - 1] == '/') by {
        ModeFacts();
      }
      var sp := SplitPath(path);
      fi := Some(EasyFs.File(sp.1, path, "", IsDirMode(a.mode), a.ctime, a.mtime, bs));
      err := None;
    }

    /**
     * WriteFile: Create then a Write of the content at offset 0, stopping at
     * the first failure; `now` is the clock for both.  On success the
     * joined path holds a header carrying `now` twice followed by the
     * content, so GetFile gives back the content with both times `now`.
     */
    method WriteFile(path: string, content: Bytes, now: KvFile.U64, createFails: bool, writeFails: bool)
      returns (err: Option<EasyFs.FsError>)
      modifies fs.store
      ensures var k := Join(fs.root, path);
        var h := KvFile.CreatedHeader(now);
        && (err.None? <==> path != "" && !createFails && !writeFails)
        && (path == "" ==> err == Some(EasyFs.StatusErr(EACCES, [])) && fs.store.data == old(fs.store.data))
        && (path != "" && createFails ==> err == Some(EasyFs.StatusErr(EIO, [])) && fs.store.data == old(fs.store.data))
        && (path != "" && !createFails && writeFails ==>
              err == Some(EasyFs.StatusErr(EIO, [])) && fs.store.data == old(fs.store.data)[k := h])
        && (err.None? ==> fs.store.data == old(fs.store.data)[k := h + content])
        && (err.None? ==>
              var g := KvFile.Opened(k, fs.store.data[k]);
              g.value == content && KvFile.Ctime(g.header) == now && KvFile.Mtime(g.header) == now)
    {
      var nf, status := fs.Create(path, now, createFails);
      if status != OK {
        return EasyFs.StatusError(status, []);
      }
      KvFile.FirstWrite(nf.Snapshot(), fs.store.data, content, now, writeFails);
      var w := nf.Write(content, 0, now, writeFails);
      if !w.Wrote? {
        return EasyFs.StatusError(EIO, []);
      }
      KvFile.OpenFirstWrite(Join(fs.root, path), content, now);
      err := None;
    }
  }
}
