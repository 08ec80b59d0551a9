// An open file of the kvfs file system.  The stored value starts with a
// 17-byte attribute header -- byte 0 unused, the creation time big-endian at
// bytes 1..8, the modification time big-endian at bytes 9..16 -- followed by
// the content.  Opening strips the header when the value is long enough to
// hold one; writing stores the header followed by the new content.
module KvFile {
  import opened KvStore

  const HeaderSize := 17

  /** The unsigned 64-bit values fuse.Attr keeps its times in. */
  const TwoTo64: nat := 0x1_0000_0000_0000_0000

  type U64 = x: nat | x < TwoTo64

  /** 256 to the power `n`: the number of values `n` bytes hold. */
  function Pow256(n: nat): (r: nat)
    ensures r >= 1
  {
    if n == 0 then 1 else 256 * Pow256(n - 1)
  }

  lemma Pow256Eight()
    ensures Pow256(8) == TwoTo64
  {
  }

  /** binary.BigEndian.PutUint64, for `n` bytes: most significant byte first. */
  function BigEndian(x: nat, n: nat): (r: Bytes)
    requires x < Pow256(n)
    ensures |r| == n
  {
    if n == 0 then []
    else BigEndian(x / 256, n - 1) + [(x % 256) as byte]
  }

  /** binary.BigEndian.Uint64, for any number of bytes. */
  function FromBigEndian(bs: Bytes): (x: nat)
    ensures x < Pow256(|bs|)
  {
    if bs == [] then 0
    else FromBigEndian(bs[..|bs| - 1]) * 256 + bs[|bs| - 1] as nat
  }

  /** Decoding an encoding gives the number back. */
  lemma {:induction false} FromBigEndianOfBigEndian(x: nat, n: nat)
    requires x < Pow256(n)
    ensures FromBigEndian(BigEndian(x, n)) == x
  {
    if n > 0 {
      var q, m := x / 256, x % 256;
      assert Pow256(n) == 256 * Pow256(n - 1);
      DivBound(x, Pow256(n - 1));
      var r := BigEndian(x, n);
      var init := BigEndian(q, n - 1);
      assert r == init + [m as byte];
      assert r[..n - 1] == init;
      FromBigEndianOfBigEndian(q, n - 1);
      assert FromBigEndian(r) == FromBigEndian(init) * 256 + m;
    }
  }

  lemma DivBound(x: nat, p: nat)
    requires x < 256 * p
    ensures x / 256 < p && x == x / 256 * 256 + x % 256
  {
  }

  /** Encoding a decoding gives the bytes back. */
  lemma {:induction false} BigEndianOfFromBigEndian(bs: Bytes)
    ensures BigEndian(FromBigEndian(bs), |bs|) == bs
  {
    if bs != [] {
      var init := bs[..|bs| - 1];
      var x := FromBigEndian(bs);
      var last := bs[|bs| - 1] as nat;
      assert x == FromBigEndian(init) * 256 + last;
      assert x / 256 == FromBigEndian(init) && x % 256 == last;
      BigEndianOfFromBigEndian(init);
      assert bs == init + [bs[|bs| - 1]];
    }
  }

  /** A header with no times set, as newFile makes for a value shorter than a header. */
  function ZeroHeader(): (h: Bytes)
    ensures |h| == HeaderSize
  {
    seq(HeaderSize, _ => 0 as byte)
  }

  /** readAttr: the creation time. */
  function Ctime(h: Bytes): (r: U64)
    requires |h| == HeaderSize
  {
    Pow256Eight();
    FromBigEndian(h[1..9])
  }

  /** readAttr: the modification time. */
  function Mtime(h: Bytes): (r: U64)
    requires |h| == HeaderSize
  {
    Pow256Eight();
    FromBigEndian(h[9..17])
  }

  /** writeAttr: both times written, byte 0 left as it was. */
  function WithTimes(h: Bytes, ctime: U64, mtime: U64): (r: Bytes)
    requires |h| == HeaderSize
    ensures |r| == HeaderSize && r[0] == h[0]
  {
    Pow256Eight();
    h[..1] + BigEndian(ctime, 8) + BigEndian(mtime, 8)
  }

  /**
   * writeAttr then readAttr gives back the times written; writing back the
   * times read gives back the header.
   */
  lemma HeaderRoundTrip(h: Bytes, ctime: U64, mtime: U64)
    requires |h| == HeaderSize
    ensures Ctime(WithTimes(h, ctime, mtime)) == ctime
    ensures Mtime(WithTimes(h, ctime, mtime)) == mtime
    ensures WithTimes(h, Ctime(h), Mtime(h)) == h
  {
    Pow256Eight();
    var r := WithTimes(h, ctime, mtime);
    assert r[1..9] == BigEndian(ctime, 8) && r[9..17] == BigEndian(mtime, 8);
    FromBigEndianOfBigEndian(ctime, 8);
    FromBigEndianOfBigEndian(mtime, 8);
    BigEndianOfFromBigEndian(h[1..9]);
    BigEndianOfFromBigEndian(h[9..17]);
    assert h == h[..1] + h[1..9] + h[9..17];
  }

  /** Writing the times twice leaves only the second pair. */
  lemma WithTimesTwice(h: Bytes, c1: U64, m1: U64, c2: U64, m2: U64)
    requires |h| == HeaderSize
    ensures WithTimes(WithTimes(h, c1, m1), c2, m2) == WithTimes(h, c2, m2)
  {
    var r := WithTimes(h, c1, m1);
    assert r[..1] == h[..1];
  }

  lemma ZeroHeaderTimes()
    ensures Ctime(ZeroHeader()) == 0 && Mtime(ZeroHeader()) == 0
  {
    var z := ZeroHeader();
    ZeroBytes(z[1..9]);
    ZeroBytes(z[9..17]);
  }

  lemma {:induction false} ZeroBytes(bs: Bytes)
    requires forall i :: 0 <= i < |bs| ==> bs[i] == 0
    ensures FromBigEndian(bs) == 0
  {
    if bs != [] {
      ZeroBytes(bs[..|bs| - 1]);
    }
  }

  // ---------------------------------------------------------------------
  // The open file

  /** An open file: its key, the value it holds (kv.Value, the header stripped), its content and its header. */
  datatype FileState = FileState(key: string, value: Bytes, content: Bytes, header: Bytes)

  /** A file's state is well formed when the header has its full size. */
  predicate WellFormed(f: FileState) {
    |f.header| == HeaderSize
  }

  /** newFile: a stored value of at least 17 bytes is header and content, a shorter one is all content. */
  function Opened(key: string, stored: Bytes): (f: FileState)
    ensures WellFormed(f)
    ensures |stored| >= HeaderSize ==> stored == f.header + f.value
    ensures |stored| < HeaderSize ==> f.value == stored && f.header == ZeroHeader()
    ensures f.content == f.value && f.key == key
  {
    if |stored| >= HeaderSize then FileState(key, stored[HeaderSize..], stored[HeaderSize..], stored[..HeaderSize])
    else FileState(key, stored, stored, ZeroHeader())
  }

  /** The outcome of a Write: the byte count with fuse.OK, fuse.EIO, or the panic of an offset beyond the value. */
  datatype WriteResult = Wrote(n: nat) | WriteEIO | WritePanic

  /** The file, the store and the outcome after a Write. */
  datatype Written = Written(file: FileState, data: map<string, Bytes>, result: WriteResult)

  /** file.Write: the times written, the value cut at the offset and the data appended, then header and value stored. */
  function WriteStep(f: FileState, data: map<string, Bytes>, bytes: Bytes, off: nat, now: U64, putFails: bool): (w: Written)
    requires WellFormed(f)
    ensures WellFormed(w.file)
  {
    var c := Ctime(f.header);
    var h := WithTimes(f.header, if c == 0 then now else c, now);
    var f' := f.(header := h);
    if off > |f.value| then Written(f', data, WritePanic)
    else
      var body := f.value[..off] + bytes;
      var f'' := f'.(value := body);
      if putFails then Written(f'', data, WriteEIO)
      else Written(f'', data[f.key := h + body], Wrote(|bytes|))
  }

  /**
   * A write succeeds exactly when the offset lies within the value and the
   * store accepts it; the value becomes the old value up to the offset
   * followed by the data (even when the Put fails), the creation time is
   * kept unless it was never set, the modification time is the write's, and
   * on success the stored bytes are the header followed by the value.
   */
  lemma WriteMeaning(f: FileState, data: map<string, Bytes>, bytes: Bytes, off: nat, now: U64, putFails: bool)
    requires WellFormed(f)
    ensures var w := WriteStep(f, data, bytes, off, now, putFails);
      && (w.result.Wrote? <==> off <= |f.value| && !putFails)
      && (w.result.Wrote? ==> w.result.n == |bytes| && w.data == data[f.key := w.file.header + w.file.value])
      && (off <= |f.value| ==> w.file.value == f.value[..off] + bytes)
      && (!w.result.Wrote? ==> w.data == data)
      && (w.result.WritePanic? <==> off > |f.value|)
      && Mtime(w.file.header) == now
      && Ctime(w.file.header) == (if Ctime(f.header) == 0 then now else Ctime(f.header))
  {
    var c := Ctime(f.header);
    HeaderRoundTrip(f.header, if c == 0 then now else c, now);
  }

  /** The header of a file created at `now`. */
  function CreatedHeader(now: U64): (h: Bytes)
    ensures |h| == HeaderSize
  {
    WithTimes(ZeroHeader(), now, now)
  }

  /**
   * The first write at offset 0 into a file just created at `now` stores the
   * creation header followed by exactly the data, unless the Put fails.
   */
  lemma FirstWrite(f: FileState, data: map<string, Bytes>, bytes: Bytes, now: U64, putFails: bool)
    requires WellFormed(f) && f.value == [] && f.header == CreatedHeader(now)
    ensures var w := WriteStep(f, data, bytes, 0, now, putFails);
      && (w.result.Wrote? <==> !putFails)
      && w.data == (if putFails then data else data[f.key := CreatedHeader(now) + bytes])
  {
    HeaderRoundTrip(ZeroHeader(), now, now);
    WithTimesTwice(ZeroHeader(), now, now, now, now);
    assert f.value[..0] + bytes == bytes;
  }

  /** What that first write stores opens as the data, with both times `now`. */
  lemma OpenFirstWrite(key: string, bytes: Bytes, now: U64)
    ensures var g := Opened(key, CreatedHeader(now) + bytes);
      g.value == bytes && Ctime(g.header) == now && Mtime(g.header) == now
  {
    var stored := CreatedHeader(now) + bytes;
    assert stored[..HeaderSize] == CreatedHeader(now) && stored[HeaderSize..] == bytes;
    HeaderRoundTrip(ZeroHeader(), now, now);
  }

  /**
   * What a successful write stores opens again as the same file: the same
   * value and content and the same header, so the same times.
   */
  lemma WriteThenOpen(f: FileState, data: map<string, Bytes>, bytes: Bytes, off: nat, now: U64)
    requires WellFormed(f) && off <= |f.value|
    ensures var w := WriteStep(f, data, bytes, off, now, false);
      var g := Opened(f.key, w.data[f.key]);
      g.value == w.file.value && g.header == w.file.header
  {
    var w := WriteStep(f, data, bytes, off, now, false);
    var stored := w.file.header + w.file.value;
    assert stored[..HeaderSize] == w.file.header && stored[HeaderSize..] == w.file.value;
  }

  /** file.GetAttr: the value's size and the header's times; a directory for a name ending in '/', a regular file when the value is not empty, otherwise the caller's mode. */
  function AttrOf(f: FileState, outMode: bv32): (a: Attr)
    requires WellFormed(f)
    ensures a.size == |f.value| && a.ctime == Ctime(f.header) && a.mtime == Mtime(f.header)
  {
    var mode :=
      if |f.key| > 0 && f.key[|f.key| - 1] == '/' then DirMode
      else if |f.value| > 0 then RegMode
      else outMode;
    Attr(mode, |f.value|, Ctime(f.header), Mtime(f.header))
  }

  /** After a successful write to a file whose name does not end in '/', its attributes report the new size, the write's time, and a regular file once anything is in it. */
  lemma WriteThenAttr(f: FileState, data: map<string, Bytes>, bytes: Bytes, off: nat, now: U64, outMode: bv32)
    requires WellFormed(f) && off <= |f.value| && (f.key == "" || f.key[|f.key| - 1] != '/')
    ensures var a := AttrOf(WriteStep(f, data, bytes, off, now, false).file, outMode);
      && a.size == off + |bytes| && a.mtime == now
      && (off + |bytes| > 0 ==> a.mode == RegMode)
  {
    WriteMeaning(f, data, bytes, off, now, false);
  }

  class File {
    const store: Store
    const key: string
    var value: Bytes
    var content: Bytes
    var header: Bytes

    function Snapshot(): (r: FileState)
      reads this
    {
      FileState(key, value, content, header)
    }

    ghost predicate Valid()
      reads this
    {
      WellFormed(Snapshot())
    }

    /** newFile over the stored value. */
    constructor (store: Store, key: string, stored: Bytes)
      ensures this.store == store
      ensures Snapshot() == Opened(key, stored)
      ensures Valid()
    {
      this.store := store;
      this.key := key;
      if |stored| >= HeaderSize {
        header := stored[..HeaderSize];
        value := stored[HeaderSize..];
      } else {
        header := ZeroHeader();
        value := stored;
      }
      content := value;
    }

    /** Read; None where the slice expression panics.  The source repeats fusefs's file.Read here, over the value without its header. */
    method Read(bufLen: nat, off: nat) returns (r: Option<Bytes>)
      ensures r == ReadAt(value, bufLen, off)
    {
      var end := off + bufLen;
      if end > |value| {
        end := |value|;
      }
      if off > end {
        return None;
      }
      return Some(value[off..end]);
    }

    /** Write, with the clock's reading `now`. */
    method Write(bytes: Bytes, off: nat, now: U64, putFails: bool) returns (result: WriteResult)
      requires Valid()
      modifies this, store
      ensures Valid()
      ensures Written(Snapshot(), store.data, result) == WriteStep(old(Snapshot()), old(store.data), bytes, off, now, putFails)
    {
      var c := Ctime(header);
      if c == 0 {
        c := now;
      }
      header := WithTimes(header, c, now);
      if off > |value| {
        return WritePanic;
      }
      value := value[..off] + bytes;
      if putFails {
        return WriteEIO;
      }
      store.data := store.data[key := header + value];
      return Wrote(|bytes|);
    }

    /** GetAttr, over the caller's record whose mode is `outMode`. */
    method GetAttr(outMode: bv32) returns (a: Attr)
      requires Valid()
      ensures a == AttrOf(Snapshot(), outMode)
    {
      a := Attr(outMode, |value|, Ctime(header), Mtime(header));
      if |key| > 0 && key[|key| - 1] == '/' {
        a := a.(mode := DirMode);
      } else if |value| > 0 {
        a := a.(mode := RegMode);
      }
    }
  }
}
