// An open file of the fusefs file system: the key/value pair it was opened
// with, its decoded attribute record and the mode given at creation.  Reads
// slice the value; writes keep the value up to the offset, append the data
// and put the result under the file's key with no attribute header.
//
// The attribute record is kept decoded (FileAttr); its gob encoding is not
// modelled, and an empty encoding decodes to the zero record.
module FuseFile {
  import opened KvStore

  /** fusefs.Attr, the record kept in `attrx`. */
  datatype FileAttr = FileAttr(mtime: nat, ctime: nat, size: nat, mode: bv32)

  const NoAttr := FileAttr(0, 0, 0, 0)

  /** An open file: its key, the value it holds (kv.Value), its content, its attributes and its creation mode. */
  datatype FileState = FileState(key: string, value: Bytes, content: Bytes, attr: FileAttr, createMode: bv32)

  /**
   * newFile: bytes.SplitAfterN with n = 1 never splits, so the content is
   * the whole value and no attribute record is found.
   */
  function NewFile(key: string, value: Bytes, createMode: bv32): (r: FileState) {
    FileState(key, value, value, NoAttr, createMode)
  }

  /** Write's attribute update: the creation mode when no mode is set, the time as ctime when none is set, mtime always, and the new size. */
  function WrittenAttr(a: FileAttr, createMode: bv32, now: nat, size: nat): (r: FileAttr)
    ensures r.mode == (if a.mode == 0 then createMode else a.mode)
    ensures r.ctime == (if a.ctime == 0 then now else a.ctime)
    ensures r.mtime == now && r.size == size
  {
    FileAttr(now, if a.ctime == 0 then now else a.ctime, size, if a.mode == 0 then createMode else a.mode)
  }

  /** The outcome of a Write: the byte count with fuse.OK, fuse.EIO, or the panic of an offset beyond the value. */
  datatype WriteResult = Wrote(n: nat) | WriteEIO | WritePanic

  /** The file, the store and the outcome after a Write. */
  datatype Written = Written(file: FileState, data: map<string, Bytes>, result: WriteResult)

  /**
   * What the open value holds after `append(Value[:off], bytes...)`.  The
   * slice shares the open value's array, whose capacity is taken to be its
   * length: when the data fits inside the value, append overwrites the open
   * value in place; otherwise it copies, and the open value keeps its bytes.
   * The open value's length never changes.
   */
  function AppendInPlace(value: Bytes, bytes: Bytes, off: nat): (r: Bytes)
    requires off <= |value|
    ensures |r| == |value|
    ensures off + |bytes| > |value| ==> r == value
  {
    if off + |bytes| <= |value| then value[..off] + bytes + value[off + |bytes|..] else value
  }

  /**
   * file.Write as the source has it: the new body is stored, while the open
   * file's value keeps its length and is overwritten in place only where the
   * data fits inside it (before the Put, so also when the Put fails).  Either
   * way a later Write or Read on it works on bytes other than the stored
   * ones.  `putFails` says whether the store's Put fails.
   */
  function WriteStepAsWritten(f: FileState, data: map<string, Bytes>, bytes: Bytes, off: nat, now: nat, putFails: bool): (r: Written) {
    if off > |f.value| then Written(f, data, WritePanic)
    else
      var body := f.value[..off] + bytes;
      var f' := f.(value := AppendInPlace(f.value, bytes, off), attr := WrittenAttr(f.attr, f.createMode, now, |body|));
      if putFails then Written(f', data, WriteEIO)
      else Written(f', data[f.key := body], Wrote(|bytes|))
  }

  /** file.Write with the open file's value replaced by the stored body once the Put succeeds, and left alone otherwise. */
  function WriteStep(f: FileState, data: map<string, Bytes>, bytes: Bytes, off: nat, now: nat, putFails: bool): (r: Written) {
    if off > |f.value| then Written(f, data, WritePanic)
    else
      var body := f.value[..off] + bytes;
      var a := WrittenAttr(f.attr, f.createMode, now, |body|);
      if putFails then Written(f.(attr := a), data, WriteEIO)
      else Written(f.(value := body, attr := a), data[f.key := body], Wrote(|bytes|))
  }

  /** The corrected write differs from the source's only in what the open file holds afterwards. */
  lemma WriteStepOnlyValueDiffers(f: FileState, data: map<string, Bytes>, bytes: Bytes, off: nat, now: nat, putFails: bool)
    ensures var w := WriteStep(f, data, bytes, off, now, putFails);
      var v := WriteStepAsWritten(f, data, bytes, off, now, putFails);
      && w.data == v.data && w.result == v.result
      && w.file == v.file.(value := w.file.value)
      && (w.result.Wrote? ==> w.file.value == w.data[f.key])
      && (!w.result.Wrote? ==> w.file.value == f.value)
  {
  }

  /**
   * As written, data that fits inside the open value overwrites it in place:
   * the open file then holds the data over the old bytes, whether or not the
   * Put succeeds, and when the old value was longer than the write's end it
   * no longer agrees with what was stored.
   */
  lemma AsWrittenOverwritesOpenValue(f: FileState, data: map<string, Bytes>, bytes: Bytes, off: nat, now: nat, putFails: bool)
    requires off + |bytes| <= |f.value|
    ensures var w := WriteStepAsWritten(f, data, bytes, off, now, putFails);
      && |w.file.value| == |f.value|
      && w.file.value[..off] == f.value[..off]
      && w.file.value[off..off + |bytes|] == bytes
      && w.file.value[off + |bytes|..] == f.value[off + |bytes|..]
      && (putFails ==> w.result == WriteEIO && w.data == data)
      && (!putFails ==> w.data[f.key] == f.value[..off] + bytes)
      && (!putFails && off + |bytes| < |f.value| ==> w.file.value != w.data[f.key])
  {
    var v := f.value[..off] + bytes + f.value[off + |bytes|..];
    assert v[..off] == f.value[..off];
    assert v[off..off + |bytes|] == bytes;
    assert v[off + |bytes|..] == f.value[off + |bytes|..];
  }

  /** The first write into an empty file, at offset 0, stores exactly the data unless the Put fails. */
  lemma FirstWrite(f: FileState, data: map<string, Bytes>, bytes: Bytes, now: nat, putFails: bool)
    requires f.value == []
    ensures var w := WriteStep(f, data, bytes, 0, now, putFails);
      && (w.result.Wrote? <==> !putFails)
      && w.data == (if putFails then data else data[f.key := bytes])
  {
    assert f.value[..0] + bytes == bytes;
  }

  /**
   * A write succeeds exactly when the offset lies within the value and the
   * store accepts it; it then stores the value up to the offset followed by
   * the data, reports the data's length, and reading the data's range back
   * gives the data.  On EIO the store is unchanged; on a panic nothing is.
   */
  lemma WriteMeaning(f: FileState, data: map<string, Bytes>, bytes: Bytes, off: nat, now: nat, putFails: bool)
    ensures var w := WriteStep(f, data, bytes, off, now, putFails);
      && (w.result.Wrote? <==> off <= |f.value| && !putFails)
      && (w.result.Wrote? ==> w.result.n == |bytes| && w.data == data[f.key := f.value[..off] + bytes])
      && (w.result.Wrote? ==> w.file.value == w.data[f.key] && ReadAt(w.file.value, |bytes|, off) == Some(bytes))
      && (w.result.WriteEIO? ==> w.data == data && w.file.value == f.value)
      && (w.result.WritePanic? <==> off > |f.value|)
      && (w.result.WritePanic? ==> w.file == f && w.data == data)
      && (!w.result.WritePanic? ==> w.file.attr == WrittenAttr(f.attr, f.createMode, now, off + |bytes|))
  {
    if off <= |f.value| {
      var body := f.value[..off] + bytes;
      assert body[off..off + |bytes|] == bytes;
    }
  }

  /** Two writes in a row, the second where the first ended, store both pieces. */
  lemma WritesAppend(f: FileState, data: map<string, Bytes>, a: Bytes, b: Bytes, now: nat)
    ensures var w1 := WriteStep(f, data, a, 0, now, false);
      var w2 := WriteStep(w1.file, w1.data, b, |a|, now, false);
      w2.result == Wrote(|b|) && w2.data[f.key] == a + b && w2.file.value == a + b
  {
    var w1 := WriteStep(f, data, a, 0, now, false);
    assert w1.file.value == a;
    assert w1.file.value[..|a|] == a;
  }

  /**
   * As written, the same two writes on a freshly created file fail: its
   * empty value has no room, so append copies and the open file still holds
   * the empty value; the second write's offset lies beyond it and the slice
   * expression panics.
   */
  lemma AsWrittenSecondWritePanics(key: string, createMode: bv32, data: map<string, Bytes>, a: Bytes, b: Bytes, now: nat)
    requires |a| > 0
    ensures var w1 := WriteStepAsWritten(NewFile(key, [], createMode), data, a, 0, now, false);
      && w1.result == Wrote(|a|) && w1.data[key] == a
      && WriteStepAsWritten(w1.file, w1.data, b, |a|, now, false).result == WritePanic
  {
  }

  /**
   * file.GetAttr: the size of the value and the recorded times; a name
   * ending in "/" is a 0755 directory, a non-empty value a 0644 regular file,
   * and otherwise the caller's mode `outMode` is left as it was.
   */
  function AttrOf(f: FileState, outMode: bv32): (a: Attr)
    ensures a.size == |f.value| && a.ctime == f.attr.ctime && a.mtime == f.attr.mtime
  {
    var mode :=
      if |f.key| > 0 && f.key[|f.key| - 1] == '/' then DirMode
      else if |f.value| > 0 then RegMode
      else outMode;
    Attr(mode, |f.value|, f.attr.ctime, f.attr.mtime)
  }

  /**
   * After a successful write to a file whose key does not end in "/", its
   * attributes report the written length and the write's time, and a
   * regular file as soon as anything is in it.
   */
  lemma WriteThenGetAttr(f: FileState, data: map<string, Bytes>, bytes: Bytes, off: nat, now: nat, outMode: bv32)
    requires off <= |f.value| && (f.key == "" || f.key[|f.key| - 1] != '/')
    ensures var w := WriteStep(f, data, bytes, off, now, false);
      var a := AttrOf(w.file, outMode);
      && a.size == off + |bytes| && a.mtime == now
      && (a.ctime == if f.attr.ctime == 0 then now else f.attr.ctime)
      && (off + |bytes| > 0 ==> a.mode == RegMode)
  {
  }

  // ---------------------------------------------------------------------
  // The open file

  class File {
    const store: Store
    const key: string
    var value: Bytes
    var content: Bytes
    var attr: FileAttr
    const createMode: bv32

    function Snapshot(): (r: FileState)
      reads this
    {
      FileState(key, value, content, attr, createMode)
    }

    /** newFile. */
    constructor (store: Store, key: string, value: Bytes, createMode: bv32)
      ensures this.store == store
      ensures Snapshot() == NewFile(key, value, createMode)
    {
      this.store := store;
      this.key := key;
      this.value := value;
      content := value;
      attr := NoAttr;
      this.createMode := createMode;
    }

    /** Read; None where the slice expression panics. */
    method Read(bufLen: nat, off: nat) returns (r: Option<Bytes>)
      ensures r == ReadAt(value, bufLen, off)
    {
      var end := off + bufLen;
      if end > |value| {
        end := |value|;
      }
      if off > end {
        return None;
      }
      return Some(value[off..end]);
    }

    /** Write, with the stored body kept as the file's value (see WriteStepAsWritten for the source's own form). */
    method Write(bytes: Bytes, off: nat, now: nat, putFails: bool) returns (result: WriteResult)
      modifies this, store
      ensures Written(Snapshot(), store.data, result) == WriteStep(old(Snapshot()), old(store.data), bytes, off, now, putFails)
    {
      if off > |value| {
        return WritePanic;
      }
      var body := value[..off] + bytes;
      attr := WrittenAttr(attr, createMode, now, |body|);
      if putFails {
        return WriteEIO;
      }
      store.data := store.data[key := body];
      value := body;
      return Wrote(|bytes|);
    }

    /** GetAttr, over the caller's record whose mode is `outMode`. */
    method GetAttr(outMode: bv32) returns (a: Attr)
      ensures a == AttrOf(Snapshot(), outMode)
    {
      a := Attr(outMode, |value|, attr.ctime, attr.mtime);
      if |key| > 0 && key[|key| - 1] == '/' {
        a := a.(mode := DirMode);
      } else if |value| > 0 {
        a := a.(mode := RegMode);
      }
    }
  }
}
