/**
 * fdbfs's blob handles.
 *
 * The writer runs the same `_write` transaction as fdbkit's, from a cursor
 * that only writes move. The reader keeps a cursor that `seek` sets to any
 * integer, and `read` returns the raw value stored at the index of the chunk
 * holding the cursor, without moving the cursor.
 */
module FsBlob {
  import opened Wrappers
  import opened ChunkCodec
  import opened ChunkStore
  import ChunkWriter

  /** `_read_chunk`: the value stored under index `cursor / cs`, absent when no chunk is stored there. */
  function ChunkAtCursor(tr: Chunks, cs: nat, cursor: int): (r: Option<seq<byte>>)
    requires cs > 0
    ensures cursor < 0 ==> r.None?
    ensures r.Some? ==> ChunkIndex(cursor, cs) in tr && r.value == tr[ChunkIndex(cursor, cs)]
    ensures r.Some? ==> Mul(ChunkIndex(cursor, cs), cs) <= cursor < Mul(ChunkIndex(cursor, cs), cs) + cs
  {
    var i := ChunkIndex(cursor, cs);
    if i >= 0 && i in tr then Some(tr[i]) else None
  }

  /**
   * On the layout of `s`, the read finds a value exactly when the cursor is
   * not negative and its chunk starts inside `s`, and the value is that
   * chunk: from its base to the next boundary or the end of `s`.
   */
  lemma {:induction false} ChunkAtCursorLayout(s: seq<byte>, cs: nat, cursor: int)
    requires cs > 0
    ensures ChunkAtCursor(Layout(s, cs), cs, cursor).Some? <==> 0 <= cursor && ChunkBase(cursor, cs) < |s|
    ensures 0 <= cursor && ChunkBase(cursor, cs) < |s| ==>
      ChunkAtCursor(Layout(s, cs), cs, cursor)
        == Some(s[ChunkBase(cursor, cs) .. Min(ChunkBase(cursor, cs) + cs, |s|)])
  {
    if cursor >= 0 {
      CodecDecompose(cursor, cs);
      var i: nat := ChunkIndex(cursor, cs);
      LayoutKeys(s, cs, i);
      if i in Layout(s, cs) {
        LayoutAt(s, cs, i);
      }
    }
  }

  /** A seekable reader over blob `key` that returns one chunk per read. */
  class BlobReader {
    const db: Database
    const key: Key
    const cs: ChunkSize
    var cursor: int

    constructor (db: Database, key: Key, cs: ChunkSize)
      ensures this.db == db && this.key == key && this.cs == cs && cursor == 0
    {
      this.db := db;
      this.key := key;
      this.cs := cs;
      cursor := 0;
    }

    /** `read`: the chunk at the cursor; `size` is ignored and the cursor stays. */
    method Read(size: Option<int> := None) returns (r: Option<seq<byte>>)
      ensures r == ChunkAtCursor(ChunksOf(db.kv, key), cs, cursor)
    {
      r := ChunkAtCursor(ChunksOf(db.kv, key), cs, cursor);
    }

    /** `seek`: the cursor becomes `c`, unchecked and unclamped. */
    method Seek(c: int)
      modifies this
      ensures cursor == c
    {
      cursor := c;
    }

    /** `tell`: the cursor. */
    method Tell() returns (c: int)
      ensures c == cursor
    {
      c := cursor;
    }
  }

  /** A writer over blob `key` whose cursor only its writes move. */
  class BlobWriter {
    const db: Database
    const key: Key
    const cs: ChunkSize
    var cursor: nat

    constructor (db: Database, key: Key, cs: ChunkSize)
      ensures this.db == db && this.key == key && this.cs == cs && cursor == 0
    {
      this.db := db;
      this.key := key;
      this.cs := cs;
      cursor := 0;
    }

    /**
     * `write`: one `_write` transaction from the cursor, as in fdbkit; there
     * is no closed state, and a raised error leaves the database and the
     * cursor as they were.
     */
    method Write(data: seq<byte>) returns (r: Outcome<Error>)
      modifies this, db
      ensures var w := ChunkWriter.Written(ChunksOf(old(db.kv), key), cs, old(cursor), data);
        && (w.Success? ==> r == Pass && db.kv == PutChunks(old(db.kv), key, w.value.0) && cursor == w.value.1)
        && (w.Failure? ==> r == Fail(w.error) && db.kv == old(db.kv) && cursor == old(cursor))
    {
      var w := ChunkWriter.Write(ChunksOf(db.kv, key), cs, cursor, data);
      if w.Failure? {
        return Fail(w.error);
      }
      db.kv := PutChunks(db.kv, key, w.value.0);
      cursor := w.value.1;
      return Pass;
    }

    /** `tell`: the cursor. */
    method Tell() returns (c: nat)
      ensures c == cursor
    {
      c := cursor;
    }
  }
}
