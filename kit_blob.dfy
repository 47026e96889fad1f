/**
 * fdbkit's blob handles: the size of a blob, seeking, and the reader, writer
 * and manager objects over one database.
 *
 * A handle (`BlobIO`) holds the database, the blob's key, the chunk size, a
 * cursor and a closed flag. Every transaction of a handle is one of the pure
 * functions of the chunk modules applied to the blob's chunks
 * (`ChunksOf(db.kv, key)`); the methods below update the cursor, and for a
 * write the database, from its result.
 */
module KitBlob {
  import opened Wrappers
  import opened ChunkCodec
  import opened ChunkStore
  import ChunkWriter
  import ChunkReader

  /** `os.SEEK_SET`, `os.SEEK_CUR` and `os.SEEK_END`. */
  const SEEK_SET: int := 0
  const SEEK_CUR: int := 1
  const SEEK_END: int := 2

  // ---------------------------------------------------------------------------
  // Size

  /** `_get_size`: the base of the highest chunk plus that chunk's length, 0 for a blob without chunks. */
  function Size(tr: Chunks, cs: nat): (n: nat)
    ensures tr == map[] ==> n == 0
    ensures tr != map[] ==> Mul(MaxKey(tr), cs) <= n
  {
    if tr == map[] then 0 else Mul(MaxKey(tr), cs) + |tr[MaxKey(tr)]|
  }

  /** The size of the layout of `s` is the length of `s`. */
  lemma {:induction false} SizeOfLayout(s: seq<byte>, cs: nat)
    requires cs > 0
    ensures Size(Layout(s, cs), cs) == |s|
  {
    ChunkReader.LayoutTop(s, cs);
    var m := CeilDiv(|s|, cs);
    if m > 0 {
      LayoutAt(s, cs, m - 1);
      MulAdd(m - 1, 1, cs);
    } else {
      assert Layout(s, cs) == map[];
    }
  }

  /** The size of a well-formed blob is the length of its contents. */
  lemma {:induction false} SizeOfContents(tr: Chunks, cs: nat)
    requires cs > 0 && WellFormed(tr, cs)
    ensures Size(tr, cs) == |Contents(tr, cs)|
  {
    WellFormedIsLayout(tr, cs);
    SizeOfLayout(Contents(tr, cs), cs);
  }

  /** When no chunk holds more than `cs` bytes, every chunk ends at or before the size. */
  lemma {:induction false} SizeBounds(tr: Chunks, cs: nat, k: nat)
    requires cs > 0 && ChunksAtMost(tr, cs) && k in tr
    ensures Mul(k, cs) + |tr[k]| <= Size(tr, cs)
  {
    var top := MaxKey(tr);
    if k < top {
      MulStrict(k, top, cs);
    }
  }

  // ---------------------------------------------------------------------------
  // Seeking

  /** The position `_seek` computes from `whence` before clamping, or None for an unknown `whence`. */
  function SeekTarget(size: nat, current: nat, offset: int, whence: int): (r: Option<int>)
    ensures r.None? <==> whence != SEEK_SET && whence != SEEK_CUR && whence != SEEK_END
    ensures r.Some? ==> r.value - offset == (if whence == SEEK_CUR then current else if whence == SEEK_END then size else 0)
  {
    if whence == SEEK_SET then Some(offset)
    else if whence == SEEK_CUR then Some(current + offset)
    else if whence == SEEK_END then Some(size + offset)
    else None
  }

  /** `min(max(x, 0), size)`. */
  function Clamp(x: int, size: nat): (r: nat)
    ensures r <= size
    ensures 0 <= x <= size ==> r == x
    ensures x < 0 ==> r == 0
    ensures size < x ==> r == size
  {
    Min(Max(x, 0), size)
  }

  function Distance(a: int, b: int): nat
  {
    if a <= b then b - a else a - b
  }

  /** The clamped position is the position of [0, size] nearest to the target. */
  lemma ClampNearest(x: int, size: nat, y: nat)
    requires y <= size
    ensures Distance(Clamp(x, size), x) <= Distance(y, x)
  {
  }

  /**
   * `_seek`: the new cursor for `offset` relative to the start, the current
   * cursor or the end of the blob, clamped to [0, size]; an unknown `whence`
   * raises.
   */
  function SeekCursor(tr: Chunks, cs: nat, current: nat, offset: int, whence: int): (r: Result<nat, Error>)
    ensures r.Failure? <==> whence != SEEK_SET && whence != SEEK_CUR && whence != SEEK_END
    ensures r.Failure? ==> r.error == UnsupportedWhence
    ensures r.Success? ==> r.value <= Size(tr, cs)
  {
    match SeekTarget(Size(tr, cs), current, offset, whence)
    case None => Failure(UnsupportedWhence)
    case Some(x) => Success(Clamp(x, Size(tr, cs)))
  }

  /** A target inside the blob is reached exactly; one outside lands on the nearer end. */
  lemma SeekCursorTarget(tr: Chunks, cs: nat, current: nat, offset: int, whence: int)
    requires whence == SEEK_SET || whence == SEEK_CUR || whence == SEEK_END
    ensures SeekTarget(Size(tr, cs), current, offset, whence).Some?
    ensures var x := SeekTarget(Size(tr, cs), current, offset, whence).value;
      && (0 <= x <= Size(tr, cs) ==> SeekCursor(tr, cs, current, offset, whence) == Success(x))
      && (x < 0 ==> SeekCursor(tr, cs, current, offset, whence) == Success(0))
      && (Size(tr, cs) < x ==> SeekCursor(tr, cs, current, offset, whence) == Success(Size(tr, cs)))
  {
  }

  /**
   * Seeking to `p` from the start of a blob laid out from `s` and reading to
   * the end returns the bytes of `s` from the clamped position on.
   */
  lemma {:induction false} SeekThenRead(s: seq<byte>, cs: nat, current: nat, p: int)
    requires cs > 0
    ensures SeekCursor(Layout(s, cs), cs, current, p, SEEK_SET) == Success(Clamp(p, |s|))
    ensures ChunkReader.Read(Layout(s, cs), cs, Clamp(p, |s|), None)
      == (s[Clamp(p, |s|)..], |s|)
  {
    SizeOfLayout(s, cs);
    ChunkReader.ReadLayoutAll(s, cs, Clamp(p, |s|));
    WindowToEnd(s, Clamp(p, |s|));
  }

  // ---------------------------------------------------------------------------
  // Existence and deletion

  /** `exists`: whether a reverse scan of the blob's range with limit 1 finds a chunk. */
  function HasChunks(kv: KV, key: Key): (b: bool)
    ensures b <==> exists i: nat :: (key, i) in kv
  {
    var tr := ChunksOf(kv, key);
    if tr == map[] then false
    else
      assert (key, MaxKey(tr)) in kv;
      true
  }

  /** A well-formed blob exists exactly when its size is positive. */
  lemma {:induction false} HasChunksIffSize(kv: KV, key: Key, cs: nat)
    requires cs > 0 && WellFormed(ChunksOf(kv, key), cs)
    ensures HasChunks(kv, key) <==> Size(ChunksOf(kv, key), cs) > 0
  {
    var tr := ChunksOf(kv, key);
    if tr != map[] {
      assert MaxKey(tr) in tr;
    }
  }

  /** After `_delete` the blob no longer exists and has size 0, and every other blob is unchanged. */
  lemma {:induction false} DeleteClears(kv: KV, key: Key, cs: nat)
    ensures !HasChunks(ClearRange(kv, key), key)
    ensures Size(ChunksOf(ClearRange(kv, key), key), cs) == 0
    ensures forall other :: other != key ==> ChunksOf(ClearRange(kv, key), other) == ChunksOf(kv, other)
  {
    ClearRangeSpec(kv, key);
  }

  // ---------------------------------------------------------------------------
  // Whole-blob reads and writes

  /** Reading a well-formed blob from offset 0 with no size returns its contents. */
  lemma {:induction false} ReadWholeBlob(tr: Chunks, cs: nat)
    requires cs > 0 && WellFormed(tr, cs)
    ensures ChunkReader.Read(tr, cs, 0, None) == (Contents(tr, cs), |Contents(tr, cs)|)
  {
    WellFormedIsLayout(tr, cs);
    ChunkReader.ReadLayoutWhole(Contents(tr, cs), cs);
  }

  /** A write from offset 0 succeeds and stores the data's slices from chunk 0 on. */
  lemma {:induction false} WriteFromStart(tr: Chunks, cs: nat, data: seq<byte>)
    requires cs > 0
    ensures ChunkWriter.Written(tr, cs, 0, data)
      == Success((tr + ChunkWriter.Slices(data, cs, 0, CeilDiv(|data|, cs)), |data|))
  {
    CodecRoundTrip(0, 0, cs);
    ChunkWriter.WrittenAligned(tr, cs, 0, data, 0);
  }

  /** Writing data into a blob that has no chunks and reading it back returns the data. */
  lemma {:induction false} WriteThenRead(cs: nat, data: seq<byte>)
    requires cs > 0
    ensures ChunkWriter.Written(map[], cs, 0, data) == Success((Layout(data, cs), |data|))
    ensures ChunkReader.Read(Layout(data, cs), cs, 0, None) == (data, |data|)
  {
    WriteFromStart(map[], cs, data);
    ChunkWriter.SlicesIsLayout(data, cs);
    assert map[] + ChunkWriter.Slices(data, cs, 0, CeilDiv(|data|, cs)) == ChunkWriter.Slices(data, cs, 0, CeilDiv(|data|, cs));
    ChunkReader.ReadLayoutWhole(data, cs);
  }

  /**
   * Writing from offset 0 over a well-formed blob no longer than the data
   * replaces it: the blob becomes the layout of the data, and a whole read
   * returns the data.
   */
  lemma {:induction false} OverwriteThenRead(tr: Chunks, cs: nat, data: seq<byte>)
    requires cs > 0 && WellFormed(tr, cs) && |Contents(tr, cs)| <= |data|
    ensures ChunkWriter.Written(tr, cs, 0, data) == Success((Layout(data, cs), |data|))
    ensures ChunkReader.Read(Layout(data, cs), cs, 0, None) == (data, |data|)
  {
    OverwriteLayout(tr, cs, data);
    WriteThenRead(cs, data);
  }

  /** The write half of `OverwriteThenRead`. */
  lemma {:induction false} OverwriteLayout(tr: Chunks, cs: nat, data: seq<byte>)
    requires cs > 0 && WellFormed(tr, cs) && |Contents(tr, cs)| <= |data|
    ensures ChunkWriter.Written(tr, cs, 0, data) == Success((Layout(data, cs), |data|))
  {
    WellFormedIsLayout(tr, cs);
    ChunkWriter.OverwriteWhole(tr, Contents(tr, cs), cs, data);
  }

  /**
   * Writing `m` whole chunks of data from offset 0 over a longer blob keeps
   * the blob's old bytes after the data, so a whole read afterwards returns
   * more than the data.
   */
  lemma {:induction false} OverwriteKeepsTail(s: seq<byte>, cs: nat, m: nat, data: seq<byte>)
    requires cs > 0 && |data| == Mul(m, cs) && |data| < |s|
    ensures ChunkWriter.Written(Layout(s, cs), cs, 0, data) == Success((Layout(data + s[|data|..], cs), |data|))
    ensures ChunkReader.Read(Layout(data + s[|data|..], cs), cs, 0, None).0 == data + s[|data|..]
    ensures data + s[|data|..] != data
  {
    ChunkWriter.OverwriteHead(s, cs, m, data, data + s[|data|..]);
    ChunkReader.ReadLayoutWhole(data + s[|data|..], cs);
  }

  // ---------------------------------------------------------------------------
  // The handles

  /** A seekable reader over blob `key` (`BlobReader`, with the state of `BlobIO`). */
  class BlobReader {
    const db: Database
    const key: Key
    const cs: ChunkSize
    var cursor: nat
    var closed: bool

    constructor (db: Database, key: Key, cs: ChunkSize)
      ensures this.db == db && this.key == key && this.cs == cs
      ensures cursor == 0 && !closed
    {
      this.db := db;
      this.key := key;
      this.cs := cs;
      cursor := 0;
      closed := false;
    }

    /** `tell`: the cursor. */
    method Tell() returns (c: nat)
      ensures c == cursor
    {
      c := cursor;
    }

    /** `close`: no later read or seek is accepted. */
    method Close()
      modifies this
      ensures closed && cursor == old(cursor)
    {
      closed := true;
    }

    /** `seek`: moves the cursor as `_seek` computes; raises on a closed reader or an unknown `whence`. */
    method Seek(offset: int, whence: int := SEEK_SET) returns (r: Outcome<Error>)
      modifies this
      ensures closed == old(closed)
      ensures old(closed) ==> r == Fail(ClosedBlob) && cursor == old(cursor)
      ensures !old(closed) ==>
        var p := SeekCursor(ChunksOf(db.kv, key), cs, old(cursor), offset, whence);
        && (p.Success? ==> r == Pass && cursor == p.value)
        && (p.Failure? ==> r == Fail(p.error) && cursor == old(cursor))
    {
      if closed {
        return Fail(ClosedBlob);
      }
      var p := SeekCursor(ChunksOf(db.kv, key), cs, cursor, offset, whence);
      if p.Failure? {
        return Fail(p.error);
      }
      cursor := p.value;
      return Pass;
    }

    /** `read`: the bytes `_read_chunk` returns from the cursor, which moves to where it stopped. */
    method Read(size: Option<int> := None) returns (r: Result<seq<byte>, Error>)
      modifies this
      ensures closed == old(closed)
      ensures old(closed) ==> r == Failure(ClosedBlob) && cursor == old(cursor)
      ensures !old(closed) ==>
        var (buf, c) := ChunkReader.Read(ChunksOf(db.kv, key), cs, old(cursor), size);
        r == Success(buf) && cursor == c
    {
      if closed {
        return Failure(ClosedBlob);
      }
      var tr := ChunksOf(db.kv, key);
      var buf, c := ChunkReader.ReadChunk(tr, cs, cursor, size);
      ChunkReader.ReadCursorNat(tr, cs, cursor, size);
      cursor := c;
      return Success(buf);
    }
  }

  /** A seekable writer over blob `key` (`BlobWriter`, with the state of `BlobIO`). */
  class BlobWriter {
    const db: Database
    const key: Key
    const cs: ChunkSize
    var cursor: nat
    var closed: bool

    constructor (db: Database, key: Key, cs: ChunkSize)
      ensures this.db == db && this.key == key && this.cs == cs
      ensures cursor == 0 && !closed
    {
      this.db := db;
      this.key := key;
      this.cs := cs;
      cursor := 0;
      closed := false;
    }

    /** `tell`: the cursor. */
    method Tell() returns (c: nat)
      ensures c == cursor
    {
      c := cursor;
    }

    /** `close`: no later write or seek is accepted. */
    method Close()
      modifies this
      ensures closed && cursor == old(cursor)
    {
      closed := true;
    }

    /** `seek`: moves the cursor as `_seek` computes; raises on a closed writer or an unknown `whence`. */
    method Seek(offset: int, whence: int := SEEK_SET) returns (r: Outcome<Error>)
      modifies this
      ensures closed == old(closed)
      ensures old(closed) ==> r == Fail(ClosedBlob) && cursor == old(cursor)
      ensures !old(closed) ==>
        var p := SeekCursor(ChunksOf(db.kv, key), cs, old(cursor), offset, whence);
        && (p.Success? ==> r == Pass && cursor == p.value)
        && (p.Failure? ==> r == Fail(p.error) && cursor == old(cursor))
    {
      if closed {
        return Fail(ClosedBlob);
      }
      var p := SeekCursor(ChunksOf(db.kv, key), cs, cursor, offset, whence);
      if p.Failure? {
        return Fail(p.error);
      }
      cursor := p.value;
      return Pass;
    }

    /**
     * `write`: one `_write` transaction from the cursor. On success the blob
     * holds the new chunks, every other blob is untouched, and the cursor
     * moves to the one the transaction returns; a raised error leaves the
     * database and the cursor as they were.
     */
    method Write(data: seq<byte>) returns (r: Outcome<Error>)
      modifies this, db
      ensures closed == old(closed)
      ensures old(closed) ==> r == Fail(ClosedBlob) && cursor == old(cursor) && db.kv == old(db.kv)
      ensures !old(closed) ==>
        var w := ChunkWriter.Written(ChunksOf(old(db.kv), key), cs, old(cursor), data);
        && (w.Success? ==> r == Pass && db.kv == PutChunks(old(db.kv), key, w.value.0) && cursor == w.value.1)
        && (w.Failure? ==> r == Fail(w.error) && db.kv == old(db.kv) && cursor == old(cursor))
    {
      if closed {
        return Fail(ClosedBlob);
      }
      var w := ChunkWriter.Write(ChunksOf(db.kv, key), cs, cursor, data);
      if w.Failure? {
        return Fail(w.error);
      }
      db.kv := PutChunks(db.kv, key, w.value.0);
      cursor := w.value.1;
      return Pass;
    }
  }

  /** `BlobManager`: handles and whole-blob operations on the blobs of one database. */
  class BlobManager {
    const db: Database
    const cs: ChunkSize

    constructor (db: Database, cs: ChunkSize := DEFAULT_CHUNK_SIZE)
      ensures this.db == db && this.cs == cs
    {
      this.db := db;
      this.cs := cs;
    }

    /** `get_reader`: a new open reader at offset 0. */
    method GetReader(key: Key) returns (reader: BlobReader)
      ensures fresh(reader)
      ensures reader.db == db && reader.key == key && reader.cs == cs
      ensures reader.cursor == 0 && !reader.closed
    {
      reader := new BlobReader(db, key, cs);
    }

    /** `get_writer`: a new open writer at offset 0. */
    method GetWriter(key: Key) returns (writer: BlobWriter)
      ensures fresh(writer)
      ensures writer.db == db && writer.key == key && writer.cs == cs
      ensures writer.cursor == 0 && !writer.closed
    {
      writer := new BlobWriter(db, key, cs);
    }

    /** `read`: the whole-blob read of a fresh reader, which is closed afterwards. */
    method Read(key: Key) returns (data: seq<byte>)
      ensures data == ChunkReader.Read(ChunksOf(db.kv, key), cs, 0, None).0
    {
      var reader := GetReader(key);
      var r := reader.Read();
      reader.Close();
      data := r.value;
    }

    /**
     * `write`: one write of a fresh writer from offset 0, which always
     * succeeds: the data's slices replace chunks 0 to `ceil(|data| / cs) - 1`
     * and the blob's later chunks stay.
     */
    method Write(key: Key, data: seq<byte>)
      modifies db
      ensures db.kv == PutChunks(old(db.kv), key,
        ChunksOf(old(db.kv), key) + ChunkWriter.Slices(data, cs, 0, CeilDiv(|data|, cs)))
    {
      WriteFromStart(ChunksOf(db.kv, key), cs, data);
      var writer := GetWriter(key);
      var r := writer.Write(data);
      writer.Close();
    }

    /** `delete`: one transaction that clears the blob's range. */
    method Delete(key: Key)
      modifies db
      ensures db.kv == ClearRange(old(db.kv), key)
    {
      db.kv := ClearRange(db.kv, key);
    }

    /** `exists`: whether the blob has any chunk. */
    method Exists(key: Key) returns (b: bool)
      ensures b == HasChunks(db.kv, key)
    {
      b := HasChunks(db.kv, key);
    }
  }
}
