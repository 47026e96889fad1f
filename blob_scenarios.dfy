/**
 * The two scenarios of the repository's blob tests, with a chunk size of 4
 * and the bytes of "abcdefg": two writes "abcd" and "efg" leave the cursor at
 * 7 and the blob holding "abcdefg"; after one write of "abcdefg", a read from
 * offset 4 returns "efg" and one from offset 2 returns "cdefg". The fdbkit
 * reader gives these answers; the fdbfs reader, which the tests import,
 * returns "abcd" instead of "abcdefg" and of "cdefg".
 */
module BlobScenarios {
  import opened Wrappers
  import opened ChunkCodec
  import opened ChunkStore
  import ChunkWriter
  import ChunkReader
  import KitBlob
  import FsBlob

  const ABCD: seq<byte> := [97, 98, 99, 100]
  const EFG: seq<byte> := [101, 102, 103]
  const CDEFG: seq<byte> := [99, 100, 101, 102, 103]
  const ABCDEFG: seq<byte> := ABCD + EFG
  const WXYZ: seq<byte> := [119, 120, 121, 122]

  /** Writing "abcd" into an empty blob lays out "abcd" and moves the cursor to 4. */
  lemma WriteFirst()
    ensures ChunkWriter.Written(map[], 4, 0, ABCD) == Success((Layout(ABCD, 4), 4))
  {
    KitBlob.WriteThenRead(4, ABCD);
  }

  /** Writing "efg" at offset 4 then lays out "abcdefg" and moves the cursor to 7, and a read from offset 0 returns "abcdefg". */
  lemma WriteSecond()
    ensures ChunkWriter.Written(Layout(ABCD, 4), 4, 4, EFG) == Success((Layout(ABCDEFG, 4), 7))
    ensures ChunkReader.Read(Layout(ABCDEFG, 4), 4, 0, None) == (ABCDEFG, 7)
  {
    ChunkWriter.WriteLayout(ABCD, 4, 4, EFG);
    assert ChunkWriter.Splice(ABCD, 4, EFG) == ABCDEFG;
    KitBlob.WriteThenRead(4, ABCDEFG);
  }

  /**
   * A fresh reader (cursor 0) seeks to 4 and reads "efg" to the end, which
   * leaves its cursor at 7; seeking back to 2 then reads "cdefg".
   */
  lemma SeekRead()
    ensures KitBlob.SeekCursor(Layout(ABCDEFG, 4), 4, 0, 4, KitBlob.SEEK_SET) == Success(4)
    ensures ChunkReader.Read(Layout(ABCDEFG, 4), 4, 4, None) == (EFG, 7)
    ensures KitBlob.SeekCursor(Layout(ABCDEFG, 4), 4, 7, 2, KitBlob.SEEK_SET) == Success(2)
    ensures ChunkReader.Read(Layout(ABCDEFG, 4), 4, 2, None) == (CDEFG, 7)
  {
    KitBlob.SeekThenRead(ABCDEFG, 4, 0, 4);
    assert ABCDEFG[4..] == EFG;
    KitBlob.SeekThenRead(ABCDEFG, 4, 7, 2);
    assert ABCDEFG[2..] == CDEFG;
  }

  /**
   * Writing "wxyz" from offset 0 over "abcdefg" leaves "wxyzefg": the old
   * bytes after the data stay, so a read from 0 does not return what was
   * just written.
   */
  lemma OverwriteShorter()
    ensures ChunkWriter.Written(Layout(ABCDEFG, 4), 4, 0, WXYZ) == Success((Layout(WXYZ + EFG, 4), 4))
    ensures ChunkReader.Read(Layout(WXYZ + EFG, 4), 4, 0, None) == (WXYZ + EFG, 7)
    ensures WXYZ + EFG != WXYZ
  {
    assert Mul(1, 4) == 4 by { MulNext(0, 4); }
    assert ABCDEFG[|WXYZ|..] == EFG;
    KitBlob.OverwriteKeepsTail(ABCDEFG, 4, 1, WXYZ);
    ChunkReader.ReadLayoutWhole(WXYZ + EFG, 4);
  }

  /** On the same blob, fdbfs's read from offset 0 or 2 returns only chunk 0, "abcd", and from offset 4 chunk 1, "efg". */
  lemma FsReadsOneChunk()
    ensures FsBlob.ChunkAtCursor(Layout(ABCDEFG, 4), 4, 0) == Some(ABCD)
    ensures FsBlob.ChunkAtCursor(Layout(ABCDEFG, 4), 4, 2) == Some(ABCD)
    ensures FsBlob.ChunkAtCursor(Layout(ABCDEFG, 4), 4, 4) == Some(EFG)
    ensures ABCD != ABCDEFG && ABCD != CDEFG
  {
    FsBlob.ChunkAtCursorLayout(ABCDEFG, 4, 0);
    FsBlob.ChunkAtCursorLayout(ABCDEFG, 4, 2);
    FsBlob.ChunkAtCursorLayout(ABCDEFG, 4, 4);
    CodecRoundTrip(0, 0, 4);
    CodecRoundTrip(0, 2, 4);
    CodecRoundTrip(1, 0, 4);
    assert ABCDEFG[0..4] == ABCD;
    assert ABCDEFG[4..7] == EFG;
    assert |ABCD| != |ABCDEFG|;
  }
}
