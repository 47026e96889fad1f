/**
 * The chunk writer, `_write`, shared verbatim by fdbkit and fdbfs.
 *
 * At an unaligned cursor it merges the old prefix of the current chunk with
 * the head of the data into one chunk and recurses on what is left; at an
 * aligned cursor it stores the data's `cs`-byte slices at consecutive
 * indices. `Written` is the reference definition of one transaction, `Write`
 * the imperative body proved equal to it, and the lemmas say what it does to
 * a blob's contents: an overwrite (`Splice`) when the written range reaches
 * the end of the blob or ends on a chunk boundary, and a truncated chunk
 * otherwise.
 */
module ChunkWriter {
  import opened Wrappers
  import opened ChunkCodec
  import opened ChunkStore

  // ---------------------------------------------------------------------------
  // Overwriting bytes of a file

  /** The bytes of a file after writing `d` at offset `c`: `d` replaces what was there and may extend the file. */
  function Splice(s: seq<byte>, c: nat, d: seq<byte>): (r: seq<byte>)
    requires c <= |s|
    ensures |r| == Max(|s|, c + |d|)
  {
    s[..c] + d + (if c + |d| < |s| then s[c + |d|..] else [])
  }

  /** Byte `j` of the file after the write: the data inside the written range, the old byte elsewhere. */
  lemma {:induction false} SpliceBytes(s: seq<byte>, c: nat, d: seq<byte>)
    requires c <= |s|
    ensures forall j :: 0 <= j < |Splice(s, c, d)| ==>
      Splice(s, c, d)[j] == if j < c then s[j] else if j < c + |d| then d[j - c] else s[j]
  {
  }

  /** Writing a split piece of data in two steps is writing it at once. */
  lemma {:induction false} SpliceSplice(s: seq<byte>, c: nat, d: seq<byte>, k: nat)
    requires c <= |s| && k <= |d|
    ensures c + k <= |Splice(s, c, d[..k])|
    ensures Splice(Splice(s, c, d[..k]), c + k, d[k..]) == Splice(s, c, d)
  {
    var s1 := Splice(s, c, d[..k]);
    var s2, s3 := Splice(s1, c + k, d[k..]), Splice(s, c, d);
    SpliceBytes(s, c, d[..k]);
    SpliceBytes(s1, c + k, d[k..]);
    SpliceBytes(s, c, d);
    assert |s2| == |s3|;
    forall j | 0 <= j < |s2| ensures s2[j] == s3[j] {
      if c + k <= j < c + |d| {
        assert s2[j] == d[k..][j - c - k];
      }
    }
  }

  /** A window of the spliced file that lies before the written range is unchanged. */
  lemma {:induction false} SpliceBefore(s: seq<byte>, c: nat, d: seq<byte>, lo: nat, hi: nat)
    requires c <= |s| && lo <= hi <= c
    ensures Window(Splice(s, c, d), lo, hi) == Window(s, lo, hi)
  {
    var r := Splice(s, c, d);
    SpliceBytes(s, c, d);
    assert r[lo..hi] == s[lo..hi];
  }

  /** A window of the spliced file that lies after the written range is unchanged. */
  lemma {:induction false} SpliceAfter(s: seq<byte>, c: nat, d: seq<byte>, lo: nat, hi: nat)
    requires c <= |s| && c + |d| <= lo <= hi
    ensures Window(Splice(s, c, d), lo, hi) == Window(s, lo, hi)
  {
    var r := Splice(s, c, d);
    SpliceBytes(s, c, d);
    var a, b := Min(lo, |s|), Min(hi, |s|);
    if a < b {
      assert r[a..b] == s[a..b];
    }
  }

  /** A window inside the written range, or one that runs past the old end of the file, shows the data. */
  lemma {:induction false} SpliceInside(s: seq<byte>, c: nat, d: seq<byte>, lo: nat, hi: nat)
    requires c <= |s| && c <= lo <= hi
    requires hi <= c + |d| || |s| <= c + |d|
    ensures Window(Splice(s, c, d), lo, hi) == Window(d, lo - c, hi - c)
  {
    var r := Splice(s, c, d);
    SpliceBytes(s, c, d);
    var a, b := Min(lo, |r|), Min(hi, |r|);
    if a < b {
      assert r[a..b] == d[a - c..b - c];
    }
  }

  /** A window that starts before the written range and ends inside it. */
  lemma {:induction false} SpliceAcross(s: seq<byte>, c: nat, d: seq<byte>, lo: nat, hi: nat)
    requires c <= |s| && lo <= c <= hi
    requires hi <= c + |d| || |s| <= c + |d|
    ensures Window(Splice(s, c, d), lo, hi) == Window(s, lo, c) + Window(d, 0, hi - c)
  {
    WindowSplit(Splice(s, c, d), lo, c, hi);
    SpliceBefore(s, c, d, lo, c);
    SpliceInside(s, c, d, c, hi);
  }

  /** Writing at the end of the file appends the data. */
  lemma {:induction false} SpliceEnd(s: seq<byte>, d: seq<byte>)
    ensures Splice(s, |s|, d) == s + d
  {
  }

  /** Overwriting from offset 0 with data at least as long as the file gives the data. */
  lemma {:induction false} SpliceWhole(s: seq<byte>, d: seq<byte>)
    requires |s| <= |d|
    ensures Splice(s, 0, d) == d
  {
  }

  /** Overwriting from offset 0 with data shorter than the file keeps the file's bytes after the data. */
  lemma {:induction false} SpliceHead(s: seq<byte>, d: seq<byte>)
    requires |d| <= |s|
    ensures Splice(s, 0, d) == d + s[|d|..]
  {
  }

  // ---------------------------------------------------------------------------
  // One transaction of the writer

  /** `data[i*cs:(i+1)*cs]` stored at index `first + i` for every `i < count`. */
  function Slices(data: seq<byte>, cs: nat, first: nat, count: nat): Chunks
  {
    map j: nat | first <= j < first + count :: SliceAt(data, cs, first, j)
  }

  /** The slice stored at index `j` when slice 0 goes to index `first`. */
  function SliceAt(data: seq<byte>, cs: nat, first: nat, j: nat): seq<byte>
    requires first <= j
  {
    ChunkOf(data, cs, j - first)
  }

  /**
   * One `_write` transaction from the position `off` bytes into chunk `i`:
   * the new chunks and the new cursor, or the failure on a missing chunk.
   * Inside a chunk, the chunk's old bytes before the position and as much
   * data as fits before the next boundary become the new chunk, and the rest
   * of the data is written from the end of that chunk; on a boundary, the
   * data's slices are stored from index `i` on.
   */
  function WrittenAt(tr: Chunks, cs: nat, i: nat, off: nat, data: seq<byte>): (r: Result<(Chunks, nat), Error>)
    requires off < cs
    decreases |data|
    ensures r.Failure? ==> r.error == MissingChunk
  {
    if off == 0 then
      Success((tr + Slices(data, cs, i, CeilDiv(|data|, cs)), Mul(i, cs) + |data|))
    else if i !in tr then
      Failure(MissingChunk)
    else
      var v := Prefix(tr[i], off) + Prefix(data, cs - off);
      var rest := Suffix(data, cs - off);
      if rest == [] then Success((tr[i := v], Mul(i, cs) + |v|))
      else if |v| == cs then WrittenAt(tr[i := v], cs, i + 1, 0, rest)
      else WrittenAt(tr[i := v], cs, i, |v|, rest)
  }

  /**
   * One `_write` transaction at byte offset `cursor`. The only error is the
   * missing chunk.
   */
  function Written(tr: Chunks, cs: nat, cursor: nat, data: seq<byte>): (r: Result<(Chunks, nat), Error>)
    requires cs > 0
    ensures r.Failure? ==> r.error == MissingChunk
  {
    var i: nat := ChunkIndex(cursor, cs);
    WrittenAt(tr, cs, i, InChunkOffset(cursor, cs), data)
  }

  /** Storing one more slice extends the stored slices by it. */
  lemma {:induction false} SlicesStep(tr: Chunks, data: seq<byte>, cs: nat, first: nat, i: nat,
                                      store: Chunks, k: nat, chunk: seq<byte>)
    requires store == tr + Slices(data, cs, first, i) && k == first + i
    requires chunk == Window(data, Mul(i, cs), Mul(i + 1, cs))
    ensures store[k := chunk] == tr + Slices(data, cs, first, i + 1)
  {
    SlicesGrow(data, cs, first, i);
    UnionUpdate(tr, Slices(data, cs, first, i), first + i, ChunkOf(data, cs, i));
  }

  lemma {:induction false} SlicesGrow(data: seq<byte>, cs: nat, first: nat, i: nat)
    ensures Slices(data, cs, first, i + 1) == Slices(data, cs, first, i)[first + i := ChunkOf(data, cs, i)]
  {
    var a, b := Slices(data, cs, first, i + 1), Slices(data, cs, first, i)[first + i := ChunkOf(data, cs, i)];
    assert a.Keys == b.Keys;
  }

  /** Updating the right operand of a map union updates the union. */
  lemma {:induction false} UnionUpdate<K, V>(a: map<K, V>, b: map<K, V>, k: K, v: V)
    ensures a + b[k := v] == (a + b)[k := v]
  {
  }

  lemma {:induction false} ChunkOfLength(data: seq<byte>, cs: nat, i: nat)
    ensures Min(Mul(i, cs), |data|) + |ChunkOf(data, cs, i)| == Min(Mul(i + 1, cs), |data|)
    ensures |ChunkOf(data, cs, i)| <= cs
  {
    MulAdd(i, 1, cs);
  }

  /** Where the merge at `off` bytes into chunk `i` leaves the cursor, as a chunk position. */
  lemma {:induction false} MergeCursor(cs: nat, i: nat, n: nat)
    requires 0 < n <= cs
    ensures Mul(i, cs) + n == (if n == cs then Mul(i + 1, cs) else Mul(i, cs) + n)
    ensures n == cs ==> ChunkIndex(Mul(i + 1, cs), cs) == i + 1 && InChunkOffset(Mul(i + 1, cs), cs) == 0
    ensures n < cs ==> ChunkIndex(Mul(i, cs) + n, cs) == i && InChunkOffset(Mul(i, cs) + n, cs) == n
  {
    MulAdd(i, 1, cs);
    if n == cs {
      CodecRoundTrip(i + 1, 0, cs);
    } else {
      CodecRoundTrip(i, n, cs);
    }
  }

  /** At an unaligned cursor whose chunk is absent, the transaction fails. */
  lemma {:induction false} WrittenMissing(tr: Chunks, cs: nat, cursor: nat, data: seq<byte>, i: nat)
    requires cs > 0 && i == ChunkIndex(cursor, cs) && InChunkOffset(cursor, cs) != 0 && i !in tr
    ensures Written(tr, cs, cursor, data) == Failure(MissingChunk)
  {
  }

  /** At an aligned cursor, the transaction stores the data's slices from the cursor's chunk on. */
  lemma {:induction false} WrittenAligned(tr: Chunks, cs: nat, cursor: nat, data: seq<byte>, i: nat)
    requires cs > 0 && i == ChunkIndex(cursor, cs) && InChunkOffset(cursor, cs) == 0
    ensures Written(tr, cs, cursor, data) == Success((tr + Slices(data, cs, i, CeilDiv(|data|, cs)), cursor + |data|))
  {
    CodecDecompose(cursor, cs);
  }

  /**
   * At an unaligned cursor, the transaction merges chunk `i` into `v` and
   * then either stops at the end of `v` or writes the rest from there.
   */
  lemma {:induction false} WrittenMerge(tr: Chunks, cs: nat, cursor: nat, data: seq<byte>,
                                        i: nat, off: nat, v: seq<byte>, rest: seq<byte>, c: nat)
    requires cs > 0 && i == ChunkIndex(cursor, cs) && off == InChunkOffset(cursor, cs) && off != 0 && i in tr
    requires v == Prefix(tr[i], off) + Prefix(data, cs - off) && rest == Suffix(data, cs - off)
    requires c == Mul(i, cs) + |v|
    ensures |v| <= cs
    ensures Written(tr, cs, cursor, data) == if rest == [] then Success((tr[i := v], c)) else Written(tr[i := v], cs, c, rest)
  {
    if rest != [] {
      MergeCursor(cs, i, |v|);
    }
  }

  /**
   * The `_write` transaction body: the merge and the recursive call at an
   * unaligned cursor, the slice loop at an aligned one.
   */
  method Write(tr: Chunks, cs: nat, cursor: nat, data: seq<byte>) returns (r: Result<(Chunks, nat), Error>)
    requires cs > 0
    decreases |data|
    ensures r == Written(tr, cs, cursor, data)
  {
    var chunkIndex: nat := cursor / cs;
    var startCursor := chunkIndex * cs;
    FloorDivIsDivision(cursor, cs);
    MulIsProduct(chunkIndex, cs);
    CodecDecompose(cursor, cs);
    if startCursor != cursor {
      var nextCursor := startCursor + cs;
      if chunkIndex !in tr {
        WrittenMissing(tr, cs, cursor, data, chunkIndex);
        return Failure(MissingChunk);
      }
      var newChunk := Prefix(tr[chunkIndex], cursor - startCursor) + Prefix(data, nextCursor - cursor);
      var store := tr[chunkIndex := newChunk];
      var buf := Suffix(data, nextCursor - cursor);
      var c;
      if |newChunk| == cs {
        c := nextCursor;
      } else {
        c := startCursor + |newChunk|;
      }
      WrittenMerge(tr, cs, cursor, data, chunkIndex, cursor - startCursor, newChunk, buf, c);
      if |buf| == 0 {
        return Success((store, c));
      }
      r := Write(store, cs, c, buf);
      return;
    }
    WrittenAligned(tr, cs, cursor, data, chunkIndex);
    var store, c := StoreSlices(tr, cs, chunkIndex, cursor, data);
    return Success((store, c));
  }

  /** The aligned part of `_write`: slice `i` of the data goes to index `first + i`, and the cursor advances by each slice. */
  method StoreSlices(tr: Chunks, cs: nat, first: nat, cursor: nat, data: seq<byte>) returns (store: Chunks, c: nat)
    requires cs > 0
    ensures store == tr + Slices(data, cs, first, CeilDiv(|data|, cs))
    ensures c == cursor + |data|
  {
    var chunks := CeilDiv(|data|, cs);
    var chunkIndex := first;
    store, c := tr, cursor;
    var i := 0;
    while i < chunks
      invariant i <= chunks
      invariant chunkIndex == first + i
      invariant store == tr + Slices(data, cs, first, i)
      invariant c == cursor + Min(Mul(i, cs), |data|)
    {
      var chunk := Window(data, Mul(i, cs), Mul(i + 1, cs));
      ChunkOfLength(data, cs, i);
      assert |chunk| <= cs;
      SlicesStep(tr, data, cs, first, i, store, chunkIndex, chunk);
      store := store[chunkIndex := chunk];
      c := c + |chunk|;
      chunkIndex := chunkIndex + 1;
      i := i + 1;
    }
  }

  // ---------------------------------------------------------------------------
  // What a write does to the blob

  /** Slice `i` of the data, and the slice count, are what the aligned loop stores. */
  lemma {:induction false} SlicesSpec(data: seq<byte>, cs: nat, first: nat, j: nat)
    requires cs > 0
    ensures j in Slices(data, cs, first, CeilDiv(|data|, cs)) <==> first <= j < first + CeilDiv(|data|, cs)
    ensures j in Slices(data, cs, first, CeilDiv(|data|, cs)) ==>
      var i := j - first;
      && Mul(i, cs) < |data|
      && Slices(data, cs, first, CeilDiv(|data|, cs))[j] == data[Mul(i, cs) .. Min(Mul(i + 1, cs), |data|)]
      && 0 < |Slices(data, cs, first, CeilDiv(|data|, cs))[j]| <= cs
  {
    var m := CeilDiv(|data|, cs);
    if first <= j < first + m {
      MulMono(j - first, m - 1, cs);
      ChunkOfLength(data, cs, j - first);
    }
  }

  /** Slices stored from index 0 are the layout of the data. */
  lemma {:induction false} SlicesIsLayout(data: seq<byte>, cs: nat)
    requires cs > 0
    ensures Slices(data, cs, 0, CeilDiv(|data|, cs)) == Layout(data, cs)
  {
    var sl := Slices(data, cs, 0, CeilDiv(|data|, cs));
    assert sl.Keys == Layout(data, cs).Keys;
  }

  /** A write that keeps the chunk layout: it starts inside the blob and reaches the end of the blob or a chunk boundary. */
  predicate SafeWrite(s: seq<byte>, cs: nat, c: nat, d: seq<byte>)
    requires cs > 0
  {
    c <= |s| && (|s| <= c + |d| || InChunkOffset(c + |d|, cs) == 0)
  }

  lemma {:induction false} ChunkOrder(j: nat, i: nat, cs: nat)
    requires j < i
    ensures Mul(j + 1, cs) <= Mul(i, cs)
  {
    MulMono(j + 1, i, cs);
  }

  /** The new chunk of a merge on a layout, which covers the old bytes before the cursor and the data taken. */
  lemma {:induction false} MergeChunk(s: seq<byte>, cs: nat, i: nat, off: nat, d: seq<byte>, k: nat)
    requires 0 < off < cs && Mul(i, cs) + off <= |s|
    requires k == Min(|d|, cs - off)
    requires Mul(i, cs) + off + k >= |s| || k == cs - off
    ensures i in Layout(s, cs)
    ensures |Prefix(Layout(s, cs)[i], off)| == off
    ensures Prefix(Layout(s, cs)[i], off) + Prefix(d, cs - off)
      == ChunkOf(Splice(s, Mul(i, cs) + off, d[..k]), cs, i)
  {
    var base := Mul(i, cs);
    var c := base + off;
    MergeHead(s, cs, i, off, base, c);
    MergeTail(d, cs, off, k);
    SpliceAcross(s, c, d[..k], base, base + cs);
    ChunkWindow(Splice(s, c, d[..k]), cs, i, base);
  }

  /** Chunk `i` of a file is its window from the chunk's base over one chunk. */
  lemma {:induction false} ChunkWindow(s: seq<byte>, cs: nat, i: nat, base: nat)
    requires base == Mul(i, cs)
    ensures ChunkOf(s, cs, i) == Window(s, base, base + cs)
  {
    MulNext(i, cs);
  }

  /** The old bytes a merge keeps are those of chunk `i` before the cursor. */
  lemma {:induction false} MergeHead(s: seq<byte>, cs: nat, i: nat, off: nat, base: nat, c: nat)
    requires 0 < off < cs && base == Mul(i, cs) && c == base + off && c <= |s|
    ensures i in Layout(s, cs)
    ensures Prefix(Layout(s, cs)[i], off) == s[base..c] == Window(s, base, c)
  {
    LayoutKeys(s, cs, i);
    LayoutAt(s, cs, i);
  }

  /** The data a merge takes is the data's first `cs - off` bytes. */
  lemma {:induction false} MergeTail(d: seq<byte>, cs: nat, off: nat, k: nat)
    requires off < cs && k == Min(|d|, cs - off)
    ensures Window(d[..k], 0, cs - off) == Prefix(d, cs - off)
  { }

  /** Chunks other than the merged one are unchanged by the merge's write, and exist before it iff after it. */
  lemma {:induction false} MergeOther(s: seq<byte>, cs: nat, i: nat, off: nat, d: seq<byte>, k: nat, j: nat)
    requires 0 < off < cs && Mul(i, cs) + off <= |s|
    requires k == Min(|d|, cs - off)
    requires Mul(i, cs) + off + k >= |s| || k == cs - off
    requires j != i
    ensures Mul(j, cs) < |s| <==> Mul(j, cs) < |Splice(s, Mul(i, cs) + off, d[..k])|
    ensures Mul(j, cs) < |s| ==> ChunkOf(s, cs, j) == ChunkOf(Splice(s, Mul(i, cs) + off, d[..k]), cs, j)
  {
    var c := Mul(i, cs) + off;
    if j < i {
      ChunkOrder(j, i, cs);
      SpliceBefore(s, c, d[..k], Mul(j, cs), Mul(j + 1, cs));
    } else {
      ChunkOrder(i, j, cs);
      SpliceAfter(s, c, d[..k], Mul(j, cs), Mul(j + 1, cs));
    }
  }

  /** The store a merge leaves on a layout is the layout of the spliced file. */
  lemma {:induction false} MergeStore(s: seq<byte>, cs: nat, i: nat, off: nat, d: seq<byte>, k: nat)
    requires 0 < off < cs && Mul(i, cs) + off <= |s|
    requires k == Min(|d|, cs - off)
    requires Mul(i, cs) + off + k >= |s| || k == cs - off
    ensures i in Layout(s, cs)
    ensures |Prefix(Layout(s, cs)[i], off)| == off
    ensures Layout(s, cs)[i := Prefix(Layout(s, cs)[i], off) + Prefix(d, cs - off)]
      == Layout(Splice(s, Mul(i, cs) + off, d[..k]), cs)
  {
    var s1 := Splice(s, Mul(i, cs) + off, d[..k]);
    MergeChunk(s, cs, i, off, d, k);
    var st := Layout(s, cs)[i := ChunkOf(s1, cs, i)];
    forall j: nat ensures j in st <==> j < CeilDiv(|s1|, cs) {
      MergeEntry(s, cs, i, off, d, k, s1, st, j);
    }
    forall j | j in st ensures st[j] == ChunkOf(s1, cs, j) {
      MergeEntry(s, cs, i, off, d, k, s1, st, j);
    }
    LayoutExt(st, s1, cs);
  }

  /** Chunk `j` of the store a merge leaves on a layout is chunk `j` of the spliced file. */
  lemma {:induction false} MergeEntry(s: seq<byte>, cs: nat, i: nat, off: nat, d: seq<byte>, k: nat,
                                      s1: seq<byte>, st: Chunks, j: nat)
    requires 0 < off < cs && Mul(i, cs) + off <= |s|
    requires k == Min(|d|, cs - off)
    requires Mul(i, cs) + off + k >= |s| || k == cs - off
    requires s1 == Splice(s, Mul(i, cs) + off, d[..k]) && st == Layout(s, cs)[i := ChunkOf(s1, cs, i)]
    ensures j in st <==> j < CeilDiv(|s1|, cs)
    ensures j in st ==> st[j] == ChunkOf(s1, cs, j)
  {
    LayoutKeys(s, cs, j);
    LayoutKeys(s1, cs, j);
    if j != i { MergeOther(s, cs, i, off, d, k, j); }
  }

  /** A chunk index lies in the aligned write's range iff its chunk starts inside the data. */
  lemma {:induction false} AlignedKey(s: seq<byte>, cs: nat, q: nat, d: seq<byte>, j: nat)
    requires cs > 0 && Mul(q, cs) <= |s|
    ensures j in Layout(s, cs) + Slices(d, cs, q, CeilDiv(|d|, cs)) <==> j < CeilDiv(|Splice(s, Mul(q, cs), d)|, cs)
  {
    LayoutKeys(s, cs, j);
    CeilDivBelow(|Splice(s, Mul(q, cs), d)|, cs, j);
    if q <= j {
      MulAdd(q, j - q, cs);
      CeilDivBelow(|d|, cs, j - q);
    } else {
      ChunkOrder(j, q, cs);
    }
  }

  /** Data written from a boundary that also ends on one fills its chunks exactly. */
  lemma {:induction false} AlignedEnd(cs: nat, q: nat, n: nat)
    requires cs > 0 && InChunkOffset(Mul(q, cs) + n, cs) == 0
    ensures n == Mul(CeilDiv(n, cs), cs)
  {
    var p := ChunkIndex(Mul(q, cs) + n, cs);
    CodecDecompose(Mul(q, cs) + n, cs);
    if p < q { ChunkOrder(p, q, cs); }
    MulAdd(q, p - q, cs);
    CeilDivExact(p - q, cs);
  }

  /** Inside the written range, the chunk stored is the spliced file's chunk. */
  lemma {:induction false} AlignedInside(s: seq<byte>, cs: nat, q: nat, d: seq<byte>, j: nat)
    requires cs > 0 && SafeWrite(s, cs, Mul(q, cs), d)
    requires q <= j < q + CeilDiv(|d|, cs)
    ensures ChunkOf(d, cs, j - q) == ChunkOf(Splice(s, Mul(q, cs), d), cs, j)
  {
    var c, m := Mul(q, cs), CeilDiv(|d|, cs);
    MulAdd(q, j - q, cs);
    MulAdd(q, j + 1 - q, cs);
    MulMono(j + 1 - q, m, cs);
    if c + |d| < |s| {
      AlignedEnd(cs, q, |d|);
    }
    SpliceInside(s, c, d, Mul(j, cs), Mul(j + 1, cs));
  }

  /** Outside the written range, chunks keep their old value. */
  lemma {:induction false} AlignedOutside(s: seq<byte>, cs: nat, q: nat, d: seq<byte>, j: nat)
    requires cs > 0 && Mul(q, cs) <= |s|
    requires j < q || q + CeilDiv(|d|, cs) <= j
    ensures ChunkOf(s, cs, j) == ChunkOf(Splice(s, Mul(q, cs), d), cs, j)
  {
    var c, m := Mul(q, cs), CeilDiv(|d|, cs);
    if j < q {
      ChunkOrder(j, q, cs);
      SpliceBefore(s, c, d, Mul(j, cs), Mul(j + 1, cs));
    } else {
      MulAdd(q, m, cs);
      MulMono(q + m, j, cs);
      SpliceAfter(s, c, d, Mul(j, cs), Mul(j + 1, cs));
    }
  }

  /** Each chunk after an aligned write is the spliced file's chunk. */
  lemma {:induction false} AlignedValue(s: seq<byte>, cs: nat, q: nat, d: seq<byte>, j: nat)
    requires cs > 0 && SafeWrite(s, cs, Mul(q, cs), d)
    requires j in Layout(s, cs) + Slices(d, cs, q, CeilDiv(|d|, cs))
    ensures (Layout(s, cs) + Slices(d, cs, q, CeilDiv(|d|, cs)))[j] == ChunkOf(Splice(s, Mul(q, cs), d), cs, j)
  {
    if q <= j < q + CeilDiv(|d|, cs) {
      AlignedInside(s, cs, q, d, j);
    } else {
      AlignedOutside(s, cs, q, d, j);
    }
  }

  /** On a layout, the aligned loop leaves the layout of the spliced file. */
  lemma {:induction false} AlignedLayout(s: seq<byte>, cs: nat, q: nat, d: seq<byte>)
    requires cs > 0 && SafeWrite(s, cs, Mul(q, cs), d)
    ensures Layout(s, cs) + Slices(d, cs, q, CeilDiv(|d|, cs)) == Layout(Splice(s, Mul(q, cs), d), cs)
  {
    var st := Layout(s, cs) + Slices(d, cs, q, CeilDiv(|d|, cs));
    var t := Splice(s, Mul(q, cs), d);
    forall j: nat ensures j in st <==> j < CeilDiv(|t|, cs) {
      AlignedKey(s, cs, q, d, j);
    }
    forall j | j in st ensures st[j] == ChunkOf(t, cs, j) {
      AlignedValue(s, cs, q, d, j);
    }
    LayoutExt(st, t, cs);
  }

  // ---------------------------------------------------------------------------
  // ---------------------------------------------------------------------------
  // Properties of one write transaction

  /** What remains of a layout-keeping write after its merge still keeps the layout. */
  lemma {:induction false} SafeAfterMerge(s: seq<byte>, cs: nat, c: nat, d: seq<byte>, k: nat)
    requires cs > 0 && SafeWrite(s, cs, c, d) && k <= |d|
    ensures c + k <= |Splice(s, c, d[..k])|
    ensures SafeWrite(Splice(s, c, d[..k]), cs, c + k, d[k..])
  {
    assert c + k + |d[k..]| == c + |d|;
  }

  /** A layout-keeping write that stops inside the chunk it starts in reaches the end of the blob. */
  lemma {:induction false} MergeBounds(s: seq<byte>, cs: nat, i: nat, off: nat, d: seq<byte>)
    requires 0 < off < cs && SafeWrite(s, cs, Mul(i, cs) + off, d)
    ensures Mul(i, cs) + off + Min(|d|, cs - off) >= |s| || Min(|d|, cs - off) == cs - off
  {
    if |d| < cs - off {
      CodecRoundTrip(i, off + |d|, cs);
    }
  }

  /** A merge that fills the chunk: the rest of the data is written from the next boundary. */
  lemma {:induction false} WrittenAtFull(tr: Chunks, cs: nat, i: nat, off: nat, d: seq<byte>)
    requires 0 < off < cs && i in tr && |Prefix(tr[i], off)| == off && cs - off < |d|
    ensures WrittenAt(tr, cs, i, off, d)
      == WrittenAt(tr[i := Prefix(tr[i], off) + Prefix(d, cs - off)], cs, i + 1, 0, Suffix(d, cs - off))
  {
  }

  /** A merge that takes all the data: the write ends inside the chunk or on its end. */
  lemma {:induction false} WrittenAtLast(tr: Chunks, cs: nat, i: nat, off: nat, d: seq<byte>)
    requires 0 < off < cs && i in tr && |Prefix(tr[i], off)| == off && |d| <= cs - off
    ensures WrittenAt(tr, cs, i, off, d) == Success((tr[i := Prefix(tr[i], off) + d], Mul(i, cs) + off + |d|))
  {
    assert Prefix(d, cs - off) == d;
  }

  /** On a boundary, the write stores the data's slices from the boundary's chunk on. */
  lemma {:induction false} WrittenAtAligned(tr: Chunks, cs: nat, q: nat, d: seq<byte>)
    requires cs > 0
    ensures WrittenAt(tr, cs, q, 0, d) == Success((tr + Slices(d, cs, q, CeilDiv(|d|, cs)), Mul(q, cs) + |d|))
  {
  }

  /** On a layout, a layout-keeping write that stays inside chunk `i`, `off` bytes (cursor `c`) into it. */
  lemma {:induction false} WriteLayoutLast(s: seq<byte>, cs: nat, i: nat, off: nat, c: nat, d: seq<byte>)
    requires 0 < off < cs && c == Mul(i, cs) + off && SafeWrite(s, cs, c, d) && |d| <= cs - off
    ensures WrittenAt(Layout(s, cs), cs, i, off, d) == Success((Layout(Splice(s, c, d), cs), c + |d|))
  {
    MergeBounds(s, cs, i, off, d);
    MergeStore(s, cs, i, off, d, |d|);
    assert d[..|d|] == d;
    WrittenAtLast(Layout(s, cs), cs, i, off, d);
  }

  /** On a layout, a merge that fills the chunk leaves the rest of the data to write on the spliced file's layout. */
  lemma {:induction false} WriteLayoutStep(s: seq<byte>, cs: nat, i: nat, off: nat, c: nat, d: seq<byte>)
    requires 0 < off < cs && c == Mul(i, cs) + off && SafeWrite(s, cs, c, d) && cs - off < |d|
    ensures WrittenAt(Layout(s, cs), cs, i, off, d)
      == WrittenAt(Layout(Splice(s, c, d[..cs - off]), cs), cs, i + 1, 0, d[cs - off..])
  {
    MergeStore(s, cs, i, off, d, cs - off);
    WrittenAtFull(Layout(s, cs), cs, i, off, d);
    assert Suffix(d, cs - off) == d[cs - off..];
  }

  /** On a layout, a layout-keeping write from the boundary before chunk `q`. */
  lemma {:induction false} WriteLayoutFrom(s: seq<byte>, cs: nat, q: nat, c: nat, d: seq<byte>, t: seq<byte>, e: nat)
    requires cs > 0 && c == Mul(q, cs) && SafeWrite(s, cs, c, d) && t == Splice(s, c, d) && e == c + |d|
    ensures WrittenAt(Layout(s, cs), cs, q, 0, d) == Success((Layout(t, cs), e))
  {
    WrittenAtAligned(Layout(s, cs), cs, q, d);
    AlignedLayout(s, cs, q, d);
  }

  /** After a merge that fills chunk `i`, the rest of the data written from the next boundary completes the overwrite. */
  lemma {:induction false} WriteLayoutRest(s: seq<byte>, cs: nat, i: nat, off: nat, c: nat, d: seq<byte>)
    requires 0 < off < cs && c == Mul(i, cs) + off && SafeWrite(s, cs, c, d) && cs - off < |d|
    ensures WrittenAt(Layout(Splice(s, c, d[..cs - off]), cs), cs, i + 1, 0, d[cs - off..])
      == Success((Layout(Splice(s, c, d), cs), c + |d|))
  {
    SafeAfterMerge(s, cs, c, d, cs - off);
    SpliceSplice(s, c, d, cs - off);
    assert Mul(i + 1, cs) == c + (cs - off) by { MulAdd(i, 1, cs); }
    WriteLayoutFrom(Splice(s, c, d[..cs - off]), cs, i + 1, c + (cs - off), d[cs - off..], Splice(s, c, d), c + |d|);
  }

  /** On a layout, a layout-keeping write that overflows chunk `i`. */
  lemma {:induction false} WriteLayoutFull(s: seq<byte>, cs: nat, i: nat, off: nat, c: nat, d: seq<byte>)
    requires 0 < off < cs && c == Mul(i, cs) + off && SafeWrite(s, cs, c, d) && cs - off < |d|
    ensures WrittenAt(Layout(s, cs), cs, i, off, d) == Success((Layout(Splice(s, c, d), cs), c + |d|))
  {
    WriteLayoutStep(s, cs, i, off, c, d);
    WriteLayoutRest(s, cs, i, off, c, d);
  }

  /** A layout-keeping write from a chunk boundary, on a layout. */
  lemma {:induction false} WriteLayoutAligned(s: seq<byte>, cs: nat, c: nat, d: seq<byte>)
    requires cs > 0 && SafeWrite(s, cs, c, d) && InChunkOffset(c, cs) == 0
    ensures Written(Layout(s, cs), cs, c, d) == Success((Layout(Splice(s, c, d), cs), c + |d|))
  {
    var q: nat := ChunkIndex(c, cs);
    CodecDecompose(c, cs);
    WriteLayoutFrom(s, cs, q, c, d, Splice(s, c, d), c + |d|);
  }

  /** A layout-keeping write from inside a chunk, on a layout. */
  lemma {:induction false} WriteLayoutInside(s: seq<byte>, cs: nat, c: nat, d: seq<byte>)
    requires cs > 0 && SafeWrite(s, cs, c, d) && InChunkOffset(c, cs) != 0
    ensures Written(Layout(s, cs), cs, c, d) == Success((Layout(Splice(s, c, d), cs), c + |d|))
  {
    CodecDecompose(c, cs);
    if |d| <= cs - InChunkOffset(c, cs) {
      WriteLayoutLast(s, cs, ChunkIndex(c, cs), InChunkOffset(c, cs), c, d);
    } else {
      WriteLayoutFull(s, cs, ChunkIndex(c, cs), InChunkOffset(c, cs), c, d);
    }
  }

  /**
   * A write on the layout of a file that keeps the layout (`SafeWrite`) leaves
   * the layout of the overwritten file and moves the cursor past the data.
   */
  lemma {:induction false} WriteLayout(s: seq<byte>, cs: nat, c: nat, d: seq<byte>)
    requires cs > 0 && SafeWrite(s, cs, c, d)
    ensures Written(Layout(s, cs), cs, c, d) == Success((Layout(Splice(s, c, d), cs), c + |d|))
  {
    if InChunkOffset(c, cs) == 0 {
      WriteLayoutAligned(s, cs, c, d);
    } else {
      WriteLayoutInside(s, cs, c, d);
    }
  }

  /** Writing from offset 0 over the layout of a file no longer than the data leaves the layout of the data. */
  lemma {:induction false} OverwriteWhole(tr: Chunks, s: seq<byte>, cs: nat, d: seq<byte>)
    requires cs > 0 && tr == Layout(s, cs) && |s| <= |d|
    ensures Written(tr, cs, 0, d) == Success((Layout(d, cs), |d|))
  {
    SpliceWhole(s, d);
    WriteLayout(s, cs, 0, d);
  }

  /**
   * Writing `m` whole chunks from offset 0 over the layout of a longer file
   * leaves the layout of the data followed by the file's old bytes after it.
   */
  lemma {:induction false} OverwriteHead(s: seq<byte>, cs: nat, m: nat, d: seq<byte>, t: seq<byte>)
    requires cs > 0 && |d| == Mul(m, cs) && |d| < |s| && t == d + s[|d|..]
    ensures Written(Layout(s, cs), cs, 0, d) == Success((Layout(t, cs), |d|))
  {
    CodecRoundTrip(m, 0, cs);
    SpliceHead(s, d);
    WriteLayout(s, cs, 0, d);
  }

  /** The same on any well-formed blob: the result is well formed and holds the overwritten contents. */
  lemma {:induction false} WriteContents(tr: Chunks, cs: nat, c: nat, d: seq<byte>)
    requires cs > 0 && WellFormed(tr, cs) && SafeWrite(Contents(tr, cs), cs, c, d)
    ensures Written(tr, cs, c, d).Success?
    ensures WellFormed(Written(tr, cs, c, d).value.0, cs)
    ensures Contents(Written(tr, cs, c, d).value.0, cs) == Splice(Contents(tr, cs), c, d)
    ensures Written(tr, cs, c, d).value.1 == c + |d|
  {
    WellFormedIsLayout(tr, cs);
    WriteLayout(Contents(tr, cs), cs, c, d);
    LayoutWellFormed(Splice(Contents(tr, cs), c, d), cs);
  }

  /** Appending at the end of a well-formed blob appends to its contents. */
  lemma {:induction false} AppendContents(tr: Chunks, cs: nat, d: seq<byte>)
    requires cs > 0 && WellFormed(tr, cs)
    ensures Written(tr, cs, |Contents(tr, cs)|, d).Success?
    ensures WellFormed(Written(tr, cs, |Contents(tr, cs)|, d).value.0, cs)
    ensures Contents(Written(tr, cs, |Contents(tr, cs)|, d).value.0, cs) == Contents(tr, cs) + d
    ensures Written(tr, cs, |Contents(tr, cs)|, d).value.1 == |Contents(tr, cs)| + |d|
  {
    WriteContents(tr, cs, |Contents(tr, cs)|, d);
    SpliceEnd(Contents(tr, cs), d);
  }

  /** From a chunk position, the write fails, with the missing-chunk error, exactly when it starts inside a chunk that is not stored. */
  lemma {:induction false} WrittenAtFails(tr: Chunks, cs: nat, i: nat, off: nat, d: seq<byte>)
    requires off < cs
    decreases |d|
    ensures WrittenAt(tr, cs, i, off, d).Failure? <==> off != 0 && i !in tr
    ensures WrittenAt(tr, cs, i, off, d).Failure? ==> WrittenAt(tr, cs, i, off, d).error == MissingChunk
  {
    if off != 0 && i in tr {
      var v := Prefix(tr[i], off) + Prefix(d, cs - off);
      var rest := Suffix(d, cs - off);
      if rest != [] && |v| != cs {
        WrittenAtFails(tr[i := v], cs, i, |v|, rest);
      }
    }
  }

  /** A write fails, with the missing-chunk error, exactly when it starts inside a chunk that is not stored. */
  lemma {:induction false} WriteFails(tr: Chunks, cs: nat, c: nat, d: seq<byte>)
    requires cs > 0
    ensures Written(tr, cs, c, d).Failure? <==> InChunkOffset(c, cs) != 0 && ChunkIndex(c, cs) !in tr
    ensures Written(tr, cs, c, d).Failure? ==> Written(tr, cs, c, d).error == MissingChunk
  {
    CodecDecompose(c, cs);
    WrittenAtFails(tr, cs, ChunkIndex(c, cs), InChunkOffset(c, cs), d);
  }

  /** From a chunk position, a successful write leaves no chunk longer than `cs` where there was none. */
  lemma {:induction false} WrittenAtChunksAtMost(tr: Chunks, cs: nat, i: nat, off: nat, d: seq<byte>)
    requires off < cs && ChunksAtMost(tr, cs)
    decreases |d|
    ensures WrittenAt(tr, cs, i, off, d).Success? ==> ChunksAtMost(WrittenAt(tr, cs, i, off, d).value.0, cs)
  {
    if off == 0 {
      AlignedStore(tr, cs, i, d);
    } else if i in tr {
      var v := Prefix(tr[i], off) + Prefix(d, cs - off);
      var rest := Suffix(d, cs - off);
      assert |v| <= cs;
      if rest != [] {
        if |v| == cs {
          WrittenAtChunksAtMost(tr[i := v], cs, i + 1, 0, rest);
        } else {
          WrittenAtChunksAtMost(tr[i := v], cs, i, |v|, rest);
        }
      }
    }
  }

  /** A successful write leaves no chunk longer than `cs` where there was none. */
  lemma {:induction false} WriteChunksAtMost(tr: Chunks, cs: nat, c: nat, d: seq<byte>)
    requires cs > 0 && ChunksAtMost(tr, cs)
    ensures Written(tr, cs, c, d).Success? ==> ChunksAtMost(Written(tr, cs, c, d).value.0, cs)
  {
    WrittenAtChunksAtMost(tr, cs, ChunkIndex(c, cs), InChunkOffset(c, cs), d);
  }

  /**
   * What the aligned loop from chunk `q` leaves in `st`: slice `j - q` of the
   * data, of 1 to `cs` bytes, at each index `j` from `q` to
   * `q + ceil(n / cs) - 1`, and every other chunk of `tr` unchanged.
   */
  ghost predicate StoredFrom(tr: Chunks, cs: nat, q: nat, d: seq<byte>, st: Chunks)
    requires cs > 0
  {
    && (forall j: nat :: j in st <==> j in tr || q <= j < q + CeilDiv(|d|, cs))
    && (forall j | j in st ::
          if q <= j < q + CeilDiv(|d|, cs) then
            Mul(j - q, cs) < |d| && st[j] == d[Mul(j - q, cs) .. Min(Mul(j - q + 1, cs), |d|)] && 0 < |st[j]| <= cs
          else st[j] == tr[j])
  }

  /** The store left by the aligned loop is the old store with the data's slices over the range. */
  lemma {:induction false} AlignedStore(tr: Chunks, cs: nat, q: nat, d: seq<byte>)
    requires cs > 0
    ensures StoredFrom(tr, cs, q, d, tr + Slices(d, cs, q, CeilDiv(|d|, cs)))
    ensures d == [] ==> tr + Slices(d, cs, q, CeilDiv(|d|, cs)) == tr
  {
    var st := tr + Slices(d, cs, q, CeilDiv(|d|, cs));
    forall j: nat ensures j in st <==> j in tr || q <= j < q + CeilDiv(|d|, cs) {
      SlicesSpec(d, cs, q, j);
    }
    forall j | j in st && q <= j < q + CeilDiv(|d|, cs)
      ensures Mul(j - q, cs) < |d| && st[j] == d[Mul(j - q, cs) .. Min(Mul(j - q + 1, cs), |d|)] && 0 < |st[j]| <= cs
    {
      SlicesSpec(d, cs, q, j);
    }
    if d == [] {
      assert Slices(d, cs, q, CeilDiv(|d|, cs)) == map[];
    }
  }

  /**
   * At an aligned cursor the write succeeds, returns the cursor moved past the
   * data, and stores the data's slices from the cursor's chunk on, leaving
   * every other chunk unchanged; writing nothing changes nothing.
   */
  lemma {:induction false} AlignedWrite(tr: Chunks, cs: nat, c: nat, d: seq<byte>)
    requires cs > 0 && InChunkOffset(c, cs) == 0
    ensures Written(tr, cs, c, d).Success?
    ensures Written(tr, cs, c, d).value.1 == c + |d|
    ensures StoredFrom(tr, cs, ChunkIndex(c, cs), d, Written(tr, cs, c, d).value.0)
    ensures d == [] ==> Written(tr, cs, c, d).value.0 == tr
  {
    WrittenAligned(tr, cs, c, d, ChunkIndex(c, cs));
    AlignedStore(tr, cs, ChunkIndex(c, cs), d);
  }

  /**
   * A write that starts inside a chunk and ends before that chunk's end and
   * before the end of the file drops the chunk's old bytes after the data,
   * so the blob no longer holds the overwritten file; with no data at all
   * this truncates the chunk at the cursor.
   */
  lemma {:induction false} MidChunkWriteDropsTail(s: seq<byte>, cs: nat, c: nat, d: seq<byte>)
    requires cs > 0 && InChunkOffset(c, cs) != 0
    requires c + |d| < ChunkBase(c, cs) + cs && c + |d| < |s|
    ensures ChunkIndex(c, cs) in Layout(s, cs)
    ensures Written(Layout(s, cs), cs, c, d)
      == Success((Layout(s, cs)[ChunkIndex(c, cs) := s[ChunkBase(c, cs)..c] + d], c + |d|))
    ensures Written(Layout(s, cs), cs, c, d).value.0 != Layout(Splice(s, c, d), cs)
  {
    var i: nat, base := ChunkIndex(c, cs), ChunkBase(c, cs);
    CodecDecompose(c, cs);
    MidChunkStore(s, cs, c, d, i, InChunkOffset(c, cs), base);
    MidChunkLonger(s, cs, c, d, i, base);
    assert Layout(s, cs)[i := s[base..c] + d][i] != Layout(Splice(s, c, d), cs)[i];
  }

  /** A write that ends inside the chunk it starts in stores the merged chunk alone. */
  lemma {:induction false} MidChunkStore(s: seq<byte>, cs: nat, c: nat, d: seq<byte>, i: nat, off: nat, base: nat)
    requires cs > 0 && i == ChunkIndex(c, cs) && off == InChunkOffset(c, cs) && off != 0 && base == ChunkBase(c, cs)
    requires c + |d| < base + cs && c + |d| < |s|
    ensures i in Layout(s, cs)
    ensures Written(Layout(s, cs), cs, c, d) == Success((Layout(s, cs)[i := s[base..c] + d], c + |d|))
  {
    CodecDecompose(c, cs);
    MergeHead(s, cs, i, off, base, c);
    assert Prefix(d, cs - off) == d && Suffix(d, cs - off) == [];
    WrittenMerge(Layout(s, cs), cs, c, d, i, off, s[base..c] + d, [], c + |d|);
  }

  /** After such a write, the overwritten file's chunk there is longer than the merged chunk. */
  lemma {:induction false} MidChunkLonger(s: seq<byte>, cs: nat, c: nat, d: seq<byte>, i: nat, base: nat)
    requires cs > 0 && i == ChunkIndex(c, cs) && base == ChunkBase(c, cs) && c + |d| < base + cs && c + |d| < |s|
    ensures i in Layout(Splice(s, c, d), cs) && |s[base..c] + d| < |Layout(Splice(s, c, d), cs)[i]|
  {
    CodecDecompose(c, cs);
    LayoutKeys(Splice(s, c, d), cs, i);
    LayoutAt(Splice(s, c, d), cs, i);
  }

  /**
   * A write from a chunk boundary of fewer bytes than a chunk that ends before
   * the end of the file stores the data as the whole chunk, so the chunk's old
   * bytes after the data are dropped and the blob no longer holds the
   * overwritten file.
   */
  lemma {:induction false} AlignedWriteDropsTail(s: seq<byte>, cs: nat, c: nat, d: seq<byte>)
    requires cs > 0 && InChunkOffset(c, cs) == 0
    requires 0 < |d| < cs && c + |d| < |s|
    ensures ChunkIndex(c, cs) in Layout(s, cs)
    ensures Written(Layout(s, cs), cs, c, d) == Success((Layout(s, cs)[ChunkIndex(c, cs) := d], c + |d|))
    ensures Written(Layout(s, cs), cs, c, d).value.0 != Layout(Splice(s, c, d), cs)
  {
    var q: nat := ChunkIndex(c, cs);
    AlignedShortWrite(Layout(s, cs), cs, c, d, q);
    AlignedChunkLonger(s, cs, c, d, q);
    assert Layout(s, cs)[q := d][q] != Layout(Splice(s, c, d), cs)[q];
  }

  /** A write from a chunk boundary of at most one chunk stores the data as that chunk. */
  lemma {:induction false} AlignedShortWrite(tr: Chunks, cs: nat, c: nat, d: seq<byte>, q: nat)
    requires cs > 0 && InChunkOffset(c, cs) == 0 && 0 < |d| <= cs && q == ChunkIndex(c, cs)
    ensures Written(tr, cs, c, d) == Success((tr[q := d], c + |d|))
  {
    WrittenAligned(tr, cs, c, d, q);
    SlicesOne(d, cs, q);
    assert tr + map[q := d] == tr[q := d];
  }

  /** The slices of at most one chunk of data are that data, at the first index. */
  lemma {:induction false} SlicesOne(d: seq<byte>, cs: nat, q: nat)
    requires cs > 0 && 0 < |d| <= cs
    ensures Slices(d, cs, q, CeilDiv(|d|, cs)) == map[q := d]
  {
    assert Mul(1, cs) == cs && Mul(0, cs) == 0;
    CeilDivUnique(|d|, cs, 1);
    assert SliceAt(d, cs, q, q) == d;
  }

  /**
   * After a write of fewer bytes than a chunk from a chunk boundary before the
   * end of the file, the overwritten file's chunk there is longer than the data.
   */
  lemma {:induction false} AlignedChunkLonger(s: seq<byte>, cs: nat, c: nat, d: seq<byte>, q: nat)
    requires cs > 0 && InChunkOffset(c, cs) == 0 && 0 < |d| < cs && c + |d| < |s| && q == ChunkIndex(c, cs)
    ensures q in Layout(s, cs) && q in Layout(Splice(s, c, d), cs)
    ensures |d| < |Layout(Splice(s, c, d), cs)[q]|
  {
    CodecDecompose(c, cs);
    LayoutKeys(s, cs, q);
    LayoutKeys(Splice(s, c, d), cs, q);
    LayoutAt(Splice(s, c, d), cs, q);
  }
}
