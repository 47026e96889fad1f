/**
 * The range reader of fdbkit's `BlobReader._read_chunk`.
 *
 * The transaction scans the chunks from the cursor's chunk on (up to the
 * chunk holding `cursor + size` when `size` is a number other than 0, to the
 * end of the blob otherwise), and from every chunk that starts at or before
 * the cursor it takes the bytes from the cursor on, trims them to `size`,
 * and moves the cursor.  `Run` is that loop as a fold over the scanned
 * pairs; `ReadChunk` is the loop itself.
 */
module ChunkReader {
  import opened Wrappers
  import opened ChunkCodec
  import opened ChunkStore

  /** Python's truthiness of the `size` argument: a number other than 0. */
  predicate Limited(size: Option<int>)
  {
    size.Some? && size.value != 0
  }

  /** The loop's variables: the bytes read so far, the cursor, the remaining size, and whether it broke out. */
  datatype ReadState = ReadState(buf: seq<byte>, cursor: int, size: Option<int>, stopped: bool)

  /**
   * One iteration on the pair (`index`, `v`): a chunk starting after the
   * cursor is skipped; otherwise its bytes from the cursor on are taken, cut
   * to `size` when fewer than them remain to be read, and the loop breaks when
   * the remaining size reaches 0.
   */
  function Step(st: ReadState, cs: nat, index: nat, v: seq<byte>): ReadState
  {
    if st.stopped || st.cursor < Mul(index, cs) then st
    else
      var chunk := Suffix(v, st.cursor - Mul(index, cs));
      if Limited(st.size) && st.size.value < |chunk| then
        ReadState(st.buf + PySlice(chunk, 0, st.size.value), st.cursor + st.size.value, st.size, false)
      else
        var size := if Limited(st.size) then Some(st.size.value - |chunk|) else st.size;
        ReadState(st.buf + chunk, st.cursor + |chunk|, size, size == Some(0))
  }

  /** The loop over the scanned pairs, from state `st`. */
  function Run(st: ReadState, cs: nat, items: seq<(nat, seq<byte>)>): ReadState
    decreases |items|
  {
    if items == [] then st else Run(Step(st, cs, items[0].0, items[0].1), cs, items[1..])
  }

  /** The last chunk index the scan reaches: the one holding `cursor + size`, or the blob's last chunk. */
  function ScanEnd(tr: Chunks, cs: nat, cursor: nat, size: Option<int>): (e: int)
    requires cs > 0
    ensures Limited(size) && size.value > 0 ==> ChunkIndex(cursor, cs) <= e
  {
    if Limited(size) then
      (if size.value > 0 then FloorDivMono(cursor, cursor + size.value, cs); FloorDiv(cursor + size.value, cs)
       else FloorDiv(cursor + size.value, cs))
    else TopKey(tr)
  }

  /** The state the loop starts in. */
  function Start(cursor: nat, size: Option<int>): ReadState
  {
    ReadState([], cursor, size, false)
  }

  /** One `_read_chunk` transaction: the bytes read and the new cursor. */
  function Read(tr: Chunks, cs: nat, cursor: nat, size: Option<int>): (r: (seq<byte>, int))
    requires cs > 0
  {
    Outcome(Run(Start(cursor, size), cs, GetRange(tr, ChunkIndex(cursor, cs), ScanEnd(tr, cs, cursor, size))))
  }

  /** What a read returns from the loop's final state: the bytes read and the cursor. */
  function Outcome(st: ReadState): (seq<byte>, int)
  {
    (st.buf, st.cursor)
  }

  // ---------------------------------------------------------------------------
  // The loop

  /** Once the loop has broken out, the remaining pairs change nothing. */
  lemma {:induction false} RunStopped(st: ReadState, cs: nat, items: seq<(nat, seq<byte>)>)
    requires st.stopped
    decreases |items|
    ensures Run(st, cs, items) == st
  {
    if items != [] {
      RunStopped(st, cs, items[1..]);
    }
  }

  /** The fold from pair `n` on is one step on pair `n`, then the fold from pair `n + 1` on. */
  lemma {:induction false} RunHead(st: ReadState, cs: nat, items: seq<(nat, seq<byte>)>, n: nat, index: nat, v: seq<byte>)
    requires n < |items| && items[n] == (index, v)
    ensures Run(st, cs, items[n..]) == Run(Step(st, cs, index, v), cs, items[n + 1..])
  {
    assert items[n..][1..] == items[n + 1..];
  }

  /** The scan transaction: the range read and the loop over it, with the `break` on a remaining size of 0. */
  method ReadChunk(tr: Chunks, cs: nat, cursor0: nat, size0: Option<int>) returns (buf: seq<byte>, cursor: int)
    requires cs > 0
    ensures (buf, cursor) == Read(tr, cs, cursor0, size0)
  {
    var startChunk := cursor0 / cs;
    FloorDivIsDivision(cursor0, cs);
    var endChunk;
    if Limited(size0) {
      endChunk := FloorDiv(cursor0 + size0.value, cs);
    } else {
      endChunk := TopKey(tr);
    }
    var items := GetRange(tr, startChunk, endChunk);
    ReadUnfold(tr, cs, cursor0, size0, startChunk, endChunk, items);
    ghost var total := Run(Start(cursor0, size0), cs, items);
    var size := size0;
    buf, cursor := [], cursor0;
    var n := 0;
    while n < |items|
      invariant n <= |items|
      invariant Run(ReadState(buf, cursor, size, false), cs, items[n..]) == total
    {
      ghost var before := ReadState(buf, cursor, size, false);
      var (index, v) := items[n];
      RunHead(before, cs, items, n, index, v);
      var stop;
      buf, cursor, size, stop := StepChunk(cs, buf, cursor, size, index, v);
      if stop {
        RunStopped(Step(before, cs, index, v), cs, items[n + 1..]);
        break;
      }
      n := n + 1;
    }
  }

  /** The loop body: a chunk at or before the cursor gives its tail from the cursor, cut to the remaining size. */
  method StepChunk(cs: nat, buf0: seq<byte>, cursor0: int, size0: Option<int>, index: nat, v: seq<byte>)
    returns (buf: seq<byte>, cursor: int, size: Option<int>, stop: bool)
    ensures ReadState(buf, cursor, size, stop) == Step(ReadState(buf0, cursor0, size0, false), cs, index, v)
  {
    buf, cursor, size, stop := buf0, cursor0, size0, false;
    var startCursor := index * cs;
    MulIsProduct(index, cs);
    if cursor >= startCursor {
      var chunk := Suffix(v, cursor - startCursor);
      var chunkSize := |chunk|;
      if Limited(size) {
        if size.value < chunkSize {
          chunk := PySlice(chunk, 0, size.value);
          chunkSize := size.value;
        } else {
          size := Some(size.value - chunkSize);
        }
      }
      cursor := cursor + chunkSize;
      buf := buf + chunk;
      stop := size == Some(0);
    }
  }

  /** A read is the loop's outcome over the pairs from the cursor's chunk to the last chunk the scan reaches. */
  lemma {:induction false} ReadUnfold(tr: Chunks, cs: nat, c: nat, size: Option<int>, i: int, hi: int, items: seq<(nat, seq<byte>)>)
    requires cs > 0 && i == ChunkIndex(c, cs)
    requires hi == if Limited(size) then FloorDiv(c + size.value, cs) else TopKey(tr)
    requires items == GetRange(tr, i, hi)
    ensures Read(tr, cs, c, size) == Outcome(Run(Start(c, size), cs, items))
  { }

  // ---------------------------------------------------------------------------
  // Scans and folds

  lemma {:induction false} RunCons(st: ReadState, cs: nat, x: (nat, seq<byte>), rest: seq<(nat, seq<byte>)>)
    ensures Run(st, cs, [x] + rest) == Run(Step(st, cs, x.0, x.1), cs, rest)
  {
    assert ([x] + rest)[1..] == rest;
  }

  /** A scan that starts at a stored chunk begins with that chunk. */
  lemma {:induction false} GetRangeCons(tr: Chunks, j: nat, hi: int)
    requires j <= hi && j in tr
    ensures GetRange(tr, j, hi) == [(j, tr[j])] + GetRange(tr, j + 1, hi)
  { }

  /** With no size, an iteration on a chunk at or before the cursor takes its whole tail. */
  lemma {:induction false} StepAll(buf: seq<byte>, c: nat, cs: nat, j: nat, v: seq<byte>, chunk: seq<byte>, q: nat)
    requires Mul(j, cs) <= c && chunk == Suffix(v, c - Mul(j, cs)) && q == c + |chunk|
    ensures Step(ReadState(buf, c, None, false), cs, j, v) == ReadState(buf + chunk, q, None, false)
  { }

  /** With a size below the tail's length, an iteration takes the first `r` bytes of the tail. */
  lemma {:induction false} StepCut(buf: seq<byte>, c: nat, r: int, cs: nat, j: nat, v: seq<byte>, chunk: seq<byte>, piece: seq<byte>)
    requires Mul(j, cs) <= c && chunk == Suffix(v, c - Mul(j, cs)) && 0 < r < |chunk| && piece == chunk[..r]
    ensures Step(ReadState(buf, c, Some(r), false), cs, j, v) == ReadState(buf + piece, c + r, Some(r), false)
  {
    PySlicePrefix(chunk, r);
  }

  /** With a positive size at least the tail's length, an iteration takes the whole tail and lowers the size. */
  lemma {:induction false} StepTake(buf: seq<byte>, c: nat, r: int, cs: nat, j: nat, v: seq<byte>, chunk: seq<byte>, q: nat, r': int, stop: bool)
    requires Mul(j, cs) <= c && chunk == Suffix(v, c - Mul(j, cs))
    requires 0 < r && |chunk| <= r && q == c + |chunk| && r' == r - |chunk| && stop == (r' == 0)
    ensures Step(ReadState(buf, c, Some(r), false), cs, j, v) == ReadState(buf + chunk, q, Some(r'), stop)
  { }

  /** With size 0, an iteration takes the whole tail and breaks. */
  lemma {:induction false} StepZero(buf: seq<byte>, c: nat, cs: nat, j: nat, v: seq<byte>, chunk: seq<byte>, q: nat)
    requires Mul(j, cs) <= c && chunk == Suffix(v, c - Mul(j, cs)) && q == c + |chunk|
    ensures Step(ReadState(buf, c, Some(0), false), cs, j, v) == ReadState(buf + chunk, q, Some(0), true)
  { }

  /** A scan of chunks that all start after the cursor changes nothing. */
  lemma {:induction false} RunSkip(st: ReadState, cs: nat, tr: Chunks, lo: nat, hi: int)
    requires st.cursor < Mul(lo, cs)
    decreases hi - lo + 1
    ensures Run(st, cs, GetRange(tr, lo, hi)) == st
  {
    if lo <= hi {
      assert Mul(lo + 1, cs) == Mul(lo, cs) + cs;
      RunSkip(st, cs, tr, lo + 1, hi);
      if lo in tr {
        RunCons(st, cs, (lo, tr[lo]), GetRange(tr, lo + 1, hi));
      }
    }
  }

  /** The highest index of a layout is its last chunk, -1 when it has none. */
  lemma {:induction false} LayoutTop(s: seq<byte>, cs: nat)
    requires cs > 0
    ensures TopKey(Layout(s, cs)) == CeilDiv(|s|, cs) - 1
  {
    var m := CeilDiv(|s|, cs);
    if m > 0 {
      assert m - 1 in Layout(s, cs);
    } else {
      assert Layout(s, cs) == map[];
    }
  }

  // ---------------------------------------------------------------------------
  // Reading a layout

  /** Chunk `k` of `tr` is that of the layout of `s`: present exactly when it starts inside `s`. */
  ghost predicate ChunkMatches(tr: Chunks, s: seq<byte>, cs: nat, k: nat)
  {
    (k in tr <==> Mul(k, cs) < |s|) && (k in tr ==> tr[k] == ChunkOf(s, cs, k))
  }

  /** Chunks `j` to `hi` of `tr` are those of the layout of `s`. */
  ghost predicate ChunksFrom(tr: Chunks, s: seq<byte>, cs: nat, j: nat, hi: int)
    decreases hi - j + 1
  {
    hi < j || (ChunkMatches(tr, s, cs, j) && ChunksFrom(tr, s, cs, j + 1, hi))
  }

  /** The first chunk of a matching range, and the rest of the range. */
  lemma {:induction false} ChunksFromHead(tr: Chunks, s: seq<byte>, cs: nat, j: nat, hi: int)
    requires j <= hi && ChunksFrom(tr, s, cs, j, hi)
    ensures j in tr <==> Mul(j, cs) < |s|
    ensures j in tr ==> tr[j] == ChunkOf(s, cs, j)
    ensures ChunksFrom(tr, s, cs, j + 1, hi)
  { }

  lemma {:induction false} LayoutChunksFrom(s: seq<byte>, cs: nat, j: nat, hi: int)
    requires cs > 0
    decreases hi - j + 1
    ensures ChunksFrom(Layout(s, cs), s, cs, j, hi)
  {
    if j <= hi {
      LayoutKeys(s, cs, j);
      LayoutChunksFrom(s, cs, j + 1, hi);
    }
  }

  /** A scan of chunks that all start at or past the end of `s` finds nothing. */
  lemma {:induction false} GetRangeBeyond(tr: Chunks, s: seq<byte>, cs: nat, lo: nat, hi: int)
    requires cs > 0 && |s| <= Mul(lo, cs) && ChunksFrom(tr, s, cs, lo, hi)
    decreases hi - lo + 1
    ensures GetRange(tr, lo, hi) == []
  {
    if lo <= hi {
      assert Mul(lo + 1, cs) == Mul(lo, cs) + cs;
      GetRangeBeyond(tr, s, cs, lo + 1, hi);
    }
  }

  /** Bytes `c` to `m` of `s` are the tail of the chunk that holds `c`, from `c` on. */
  lemma {:induction false} ChunkTail(tr: Chunks, s: seq<byte>, cs: nat, j: nat, b: nat, c: nat, m: nat)
    requires cs > 0 && b == Mul(j, cs) && b <= c <= m && m == Min(b + cs, |s|)
    requires j in tr && tr[j] == ChunkOf(s, cs, j)
    ensures Suffix(tr[j], c - b) == s[c..m]
  {
    assert Mul(j + 1, cs) == b + cs;
    WindowTail(s, b, b + cs, c, m);
  }

  /** The tail from `c` of the window `[lo, hi)` of `s` is `s[c..m]`, `m` being where the window ends. */
  lemma {:induction false} WindowTail(s: seq<byte>, lo: nat, hi: nat, c: nat, m: nat)
    requires lo <= c <= m && m == Min(hi, |s|)
    ensures Suffix(Window(s, lo, hi), c - lo) == s[c..m]
  {
  }

  lemma AppendSlices(buf: seq<byte>, s: seq<byte>, c: nat, m: nat)
    requires c <= m <= |s|
    ensures buf + s[c..m] + s[m..] == buf + s[c..]
  {
    assert s[c..m] + s[m..] == s[c..];
  }

  /** An iteration with no size limit on a chunk that starts at or before the cursor takes its bytes from the cursor on. */
  lemma {:induction false} ScanChunkNone(tr: Chunks, cs: nat, j: nat, c: nat, hi: int, buf: seq<byte>, chunk: seq<byte>, q: nat)
    requires Mul(j, cs) <= c && j <= hi && j in tr && chunk == Suffix(tr[j], c - Mul(j, cs)) && q == c + |chunk|
    ensures Run(ReadState(buf, c, None, false), cs, GetRange(tr, j, hi))
      == Run(ReadState(buf + chunk, q, None, false), cs, GetRange(tr, j + 1, hi))
  {
    GetRangeCons(tr, j, hi);
    StepAll(buf, c, cs, j, tr[j], chunk, q);
    RunCons(ReadState(buf, c, None, false), cs, (j, tr[j]), GetRange(tr, j + 1, hi));
  }

  /** Chunk `j` of `s` has nothing from a cursor at or past the end of `s` on. */
  lemma {:induction false} ChunkTailPast(s: seq<byte>, cs: nat, j: nat, b: nat, c: nat)
    requires b == Mul(j, cs) && b <= c && |s| <= c
    ensures Suffix(ChunkOf(s, cs, j), c - b) == []
  { }

  /** An iteration whose chunk has nothing from the cursor on, with no size or a positive one, changes nothing. */
  lemma {:induction false} StepEmpty(st: ReadState, cs: nat, j: nat, v: seq<byte>)
    requires !st.stopped && Mul(j, cs) <= st.cursor && Suffix(v, st.cursor - Mul(j, cs)) == []
    requires st.size == None || (st.size.Some? && st.size.value > 0)
    ensures Step(st, cs, j, v) == st
  {
    assert st.buf + [] == st.buf;
  }

  /**
   * A scan from a cursor at or past the end of `s` reads nothing and leaves
   * the state as it is, for no size or a positive one.
   */
  lemma {:induction false} RunPastEnd(tr: Chunks, s: seq<byte>, cs: nat, j: nat, b: nat, hi: int, st: ReadState)
    requires cs > 0 && b == Mul(j, cs) && b <= st.cursor < b + cs && |s| <= st.cursor && ChunksFrom(tr, s, cs, j, hi)
    requires !st.stopped && (st.size == None || (st.size.Some? && st.size.value > 0))
    ensures Run(st, cs, GetRange(tr, j, hi)) == st
  {
    assert Mul(j + 1, cs) == b + cs;
    if j <= hi && b < |s| {
      GetRangeCons(tr, j, hi);
      RunCons(st, cs, (j, tr[j]), GetRange(tr, j + 1, hi));
      ChunkTailPast(s, cs, j, b, st.cursor);
      StepEmpty(st, cs, j, tr[j]);
      GetRangeBeyond(tr, s, cs, j + 1, hi);
    } else if j <= hi {
      GetRangeBeyond(tr, s, cs, j, hi);
    }
  }

  /**
   * With no size, a scan from a cursor `c` in chunk `j` (which starts at `b`)
   * through the last chunk `hi` of `s` reads the rest of `s`.
   */
  lemma {:induction false} ReadToEndFrom(tr: Chunks, s: seq<byte>, cs: nat, j: nat, b: nat, c: nat, hi: int, buf: seq<byte>, out: seq<byte>)
    requires cs > 0 && b == Mul(j, cs) && b <= c < b + cs && c <= |s| && hi + 1 == CeilDiv(|s|, cs) && ChunksFrom(tr, s, cs, j, hi)
    requires out == buf + s[c..]
    decreases |s| - b, 1
    ensures Run(ReadState(buf, c, None, false), cs, GetRange(tr, j, hi)) == ReadState(out, |s|, None, false)
  {
    if b + cs <= |s| {
      ReadToEndFull(tr, s, cs, j, b, c, hi, buf, out);
    } else if b < |s| {
      ReadToEndLast(tr, s, cs, j, b, c, hi, buf, out);
    } else {
      CeilDivBelow(|s|, cs, j);
      assert s[c..] == [];
    }
  }

  /** `ReadToEndFrom` on a full chunk: take its tail, then read on from the next boundary. */
  lemma {:induction false} ReadToEndFull(tr: Chunks, s: seq<byte>, cs: nat, j: nat, b: nat, c: nat, hi: int, buf: seq<byte>, out: seq<byte>)
    requires cs > 0 && b == Mul(j, cs) && b <= c < b + cs && b + cs <= |s| && hi + 1 == CeilDiv(|s|, cs) && ChunksFrom(tr, s, cs, j, hi)
    requires out == buf + s[c..]
    decreases |s| - b, 0
    ensures Run(ReadState(buf, c, None, false), cs, GetRange(tr, j, hi)) == ReadState(out, |s|, None, false)
  {
    FullChunkRun(tr, s, cs, j, b, c, hi, buf);
    FullChunkRest(tr, s, cs, j, b, c, hi, buf, out);
    ReadToEndFrom(tr, s, cs, j + 1, b + cs, b + cs, hi, buf + s[c..b + cs], out);
  }

  /** With no size, a scan whose first chunk is a full chunk of `s` goes on from that chunk's end with its tail read. */
  lemma {:induction false} FullChunkRun(tr: Chunks, s: seq<byte>, cs: nat, j: nat, b: nat, c: nat, hi: int, buf: seq<byte>)
    requires cs > 0 && b == Mul(j, cs) && b <= c < b + cs && b + cs <= |s| && hi + 1 == CeilDiv(|s|, cs) && ChunksFrom(tr, s, cs, j, hi)
    ensures Run(ReadState(buf, c, None, false), cs, GetRange(tr, j, hi))
      == Run(ReadState(buf + s[c..b + cs], b + cs, None, false), cs, GetRange(tr, j + 1, hi))
  {
    CeilDivBelow(|s|, cs, j);
    ChunksFromHead(tr, s, cs, j, hi);
    FullChunkStep(tr, s, cs, j, b, c, hi, buf);
  }

  /** After a full chunk of `s`, what is left to read starts at the next chunk. */
  lemma {:induction false} FullChunkRest(tr: Chunks, s: seq<byte>, cs: nat, j: nat, b: nat, c: nat, hi: int, buf: seq<byte>, out: seq<byte>)
    requires cs > 0 && b == Mul(j, cs) && b <= c < b + cs && b + cs <= |s| && hi + 1 == CeilDiv(|s|, cs) && ChunksFrom(tr, s, cs, j, hi)
    requires out == buf + s[c..]
    ensures b + cs == Mul(j + 1, cs) && ChunksFrom(tr, s, cs, j + 1, hi)
    ensures out == buf + s[c..b + cs] + s[b + cs..]
  {
    CeilDivBelow(|s|, cs, j);
    ChunksFromHead(tr, s, cs, j, hi);
    MulNext(j, cs);
    AppendSlices(buf, s, c, b + cs);
  }

  /** With no size, the iteration on a stored full chunk of `s` takes its bytes from the cursor to the chunk's end. */
  lemma {:induction false} FullChunkStep(tr: Chunks, s: seq<byte>, cs: nat, j: nat, b: nat, c: nat, hi: int, buf: seq<byte>)
    requires cs > 0 && b == Mul(j, cs) && b <= c < b + cs && b + cs <= |s| && j <= hi && j in tr && tr[j] == ChunkOf(s, cs, j)
    ensures Run(ReadState(buf, c, None, false), cs, GetRange(tr, j, hi))
      == Run(ReadState(buf + s[c..b + cs], b + cs, None, false), cs, GetRange(tr, j + 1, hi))
  {
    ChunkTail(tr, s, cs, j, b, c, b + cs);
    ScanChunkNone(tr, cs, j, c, hi, buf, s[c..b + cs], b + cs);
  }

  /** `ReadToEndFrom` on the last chunk, which is at most `cs` long. */
  lemma {:induction false} ReadToEndLast(tr: Chunks, s: seq<byte>, cs: nat, j: nat, b: nat, c: nat, hi: int, buf: seq<byte>, out: seq<byte>)
    requires cs > 0 && b == Mul(j, cs) && b < |s| < b + cs && b <= c <= |s| && hi + 1 == CeilDiv(|s|, cs) && ChunksFrom(tr, s, cs, j, hi)
    requires out == buf + s[c..]
    ensures Run(ReadState(buf, c, None, false), cs, GetRange(tr, j, hi)) == ReadState(out, |s|, None, false)
  {
    CeilDivBelow(|s|, cs, j);
    assert Mul(j + 1, cs) == b + cs;
    CeilDivBelow(|s|, cs, j + 1);
    ChunkTail(tr, s, cs, j, b, c, |s|);
    assert s[c..|s|] == s[c..];
    ScanChunkNone(tr, cs, j, c, hi, buf, s[c..], |s|);
  }

  // ---------------------------------------------------------------------------
  // Reading a layout with a positive size

  /** The chunks a scan up to chunk `hi` reaches include every chunk that starts before `x`, when `x` lies in chunk `hi`. */
  lemma {:induction false} ScanCovers(j: nat, hi: nat, cs: nat, x: nat)
    requires cs > 0 && Mul(j, cs) <= x < Mul(hi, cs) + cs
    ensures j <= hi
  {
    if j > hi {
      MulStrict(hi, j, cs);
    }
  }

  /** An iteration that reads fewer bytes than the chunk's tail holds cuts the tail and keeps the remaining size. */
  lemma {:induction false} ScanChunkCut(tr: Chunks, cs: nat, j: nat, c: nat, hi: int, buf: seq<byte>, r: int, chunk: seq<byte>, piece: seq<byte>)
    requires Mul(j, cs) <= c && j <= hi && j in tr && chunk == Suffix(tr[j], c - Mul(j, cs))
    requires 0 < r < |chunk| && piece == chunk[..r]
    ensures Run(ReadState(buf, c, Some(r), false), cs, GetRange(tr, j, hi))
      == Run(ReadState(buf + piece, c + r, Some(r), false), cs, GetRange(tr, j + 1, hi))
  {
    GetRangeCons(tr, j, hi);
    StepCut(buf, c, r, cs, j, tr[j], chunk, piece);
    RunCons(ReadState(buf, c, Some(r), false), cs, (j, tr[j]), GetRange(tr, j + 1, hi));
  }

  /** An iteration that reads the whole tail of the chunk lowers the remaining size by its length, and stops at 0. */
  lemma {:induction false} ScanChunkSome(tr: Chunks, cs: nat, j: nat, c: nat, hi: int, buf: seq<byte>, r: int, chunk: seq<byte>, q: nat, r': int, stop: bool)
    requires Mul(j, cs) <= c && j <= hi && j in tr && chunk == Suffix(tr[j], c - Mul(j, cs))
    requires 0 < r && |chunk| <= r && q == c + |chunk| && r' == r - |chunk| && stop == (r' == 0)
    ensures Run(ReadState(buf, c, Some(r), false), cs, GetRange(tr, j, hi))
      == Run(ReadState(buf + chunk, q, Some(r'), stop), cs, GetRange(tr, j + 1, hi))
  {
    GetRangeCons(tr, j, hi);
    StepTake(buf, c, r, cs, j, tr[j], chunk, q, r', stop);
    RunCons(ReadState(buf, c, Some(r), false), cs, (j, tr[j]), GetRange(tr, j + 1, hi));
  }

  /**
   * A scan of a positive size `r` from a cursor `c` in chunk `j`, which starts
   * at `b`, up to the chunk `hi` that holds `e = c + r`, over chunks that are
   * those of `s`.
   */
  ghost predicate BoundedScan(tr: Chunks, s: seq<byte>, cs: nat, j: nat, b: nat, c: nat, r: int, e: nat, hi: nat)
  {
    cs > 0 && b == Mul(j, cs) && b <= c < b + cs && r > 0 && e == c + r && e < Mul(hi, cs) + cs && ChunksFrom(tr, s, cs, j, hi)
  }

  /**
   * With a positive size `r`, a scan from a cursor `c` in chunk `j` (which
   * starts at `b`) up to the chunk `hi` that holds `e = c + r` reads the bytes
   * of `s` from `c` to `m`, the lesser of `e` and the end of `s`.
   */
  lemma {:induction false} ReadBoundedFrom(tr: Chunks, s: seq<byte>, cs: nat, j: nat, b: nat, c: nat, r: int, e: nat, hi: nat, buf: seq<byte>, m: nat, out: seq<byte>)
    requires BoundedScan(tr, s, cs, j, b, c, r, e, hi)
    requires m == Min(e, |s|) && c <= m && out == buf + s[c..m]
    decreases e - b
    ensures Outcome(Run(ReadState(buf, c, Some(r), false), cs, GetRange(tr, j, hi))) == (out, m)
  {
    if c < |s| && b + cs <= |s| && b + cs < e {
      BoundedFullNext(tr, s, cs, j, b, c, r, e, hi, buf, m, out);
      ReadBoundedFrom(tr, s, cs, j + 1, b + cs, b + cs, e - (b + cs), e, hi, buf + s[c..b + cs], m, out);
    } else {
      ReadBoundedHere(tr, s, cs, j, b, c, r, e, hi, buf, m, out);
    }
  }

  /** `ReadBoundedFrom` when the read ends in chunk `j`. */
  lemma {:induction false} ReadBoundedHere(tr: Chunks, s: seq<byte>, cs: nat, j: nat, b: nat, c: nat, r: int, e: nat, hi: nat, buf: seq<byte>, m: nat, out: seq<byte>)
    requires BoundedScan(tr, s, cs, j, b, c, r, e, hi)
    requires m == Min(e, |s|) && c <= m && out == buf + s[c..m]
    requires !(c < |s| && b + cs <= |s| && b + cs < e)
    ensures Outcome(Run(ReadState(buf, c, Some(r), false), cs, GetRange(tr, j, hi))) == (out, m)
  {
    if |s| == c {
      ReadBoundedEnd(tr, s, cs, j, b, c, r, e, hi, buf, m, out);
    } else if e < Min(b + cs, |s|) {
      ReadBoundedCut(tr, s, cs, j, b, c, r, e, hi, buf, m);
    } else if e == Min(b + cs, |s|) {
      ReadBoundedExact(tr, s, cs, j, b, c, r, e, hi, buf, m);
    } else {
      ReadBoundedLast(tr, s, cs, j, b, c, r, e, hi, buf, m);
    }
  }

  /** `ReadBoundedFrom` from the end of `s`: nothing is read. */
  lemma {:induction false} ReadBoundedEnd(tr: Chunks, s: seq<byte>, cs: nat, j: nat, b: nat, c: nat, r: int, e: nat, hi: nat, buf: seq<byte>, m: nat, out: seq<byte>)
    requires BoundedScan(tr, s, cs, j, b, c, r, e, hi) && |s| == c
    requires m == Min(e, |s|) && out == buf + s[c..m]
    ensures Outcome(Run(ReadState(buf, c, Some(r), false), cs, GetRange(tr, j, hi))) == (out, m)
  {
    RunPastEnd(tr, s, cs, j, b, hi, ReadState(buf, c, Some(r), false));
    EmptyTail(buf, s, c);
  }

  /** Nothing is left after the end. */
  lemma {:induction false} EmptyTail(buf: seq<byte>, s: seq<byte>, c: nat)
    requires c <= |s|
    ensures buf + s[c..c] == buf
  {
    assert s[c..c] == [];
  }

  /** `ReadBoundedFrom` when `e` falls inside the chunk's tail. */
  lemma {:induction false} ReadBoundedCut(tr: Chunks, s: seq<byte>, cs: nat, j: nat, b: nat, c: nat, r: int, e: nat, hi: nat, buf: seq<byte>, m: nat)
    requires BoundedScan(tr, s, cs, j, b, c, r, e, hi) && c < |s|
    requires e < Min(b + cs, |s|) && m == e
    ensures Run(ReadState(buf, c, Some(r), false), cs, GetRange(tr, j, hi)) == ReadState(buf + s[c..m], m, Some(r), false)
  {
    var k := Min(b + cs, |s|);
    BoundedTail(tr, s, cs, j, b, c, r, e, hi, k);
    PrefixOfSlice(s, c, k, r);
    ScanChunkCut(tr, cs, j, c, hi, buf, r, s[c..k], s[c..e]);
    SkipRest(ReadState(buf + s[c..e], e, Some(r), false), cs, tr, j, b, hi);
  }

  /** In a bounded scan from inside `s`, chunk `j` is scanned and stored, and its tail from `c` is `s[c..k]`. */
  lemma {:induction false} BoundedTail(tr: Chunks, s: seq<byte>, cs: nat, j: nat, b: nat, c: nat, r: int, e: nat, hi: nat, k: nat)
    requires BoundedScan(tr, s, cs, j, b, c, r, e, hi) && c < |s| && k == Min(b + cs, |s|)
    ensures j <= hi && j in tr && Suffix(tr[j], c - Mul(j, cs)) == s[c..k]
  {
    ScanCovers(j, hi, cs, c);
    ChunksFromHead(tr, s, cs, j, hi);
    ChunkTail(tr, s, cs, j, b, c, k);
  }

  /** A cursor before the end of chunk `j` skips every later chunk. */
  lemma {:induction false} SkipRest(st: ReadState, cs: nat, tr: Chunks, j: nat, b: nat, hi: int)
    requires b == Mul(j, cs) && st.cursor < b + cs
    ensures Run(st, cs, GetRange(tr, j + 1, hi)) == st
  {
    MulNext(j, cs);
    RunSkip(st, cs, tr, j + 1, hi);
  }

  /** The first `r` elements of `s[c..k]` are `s[c..c + r]`. */
  lemma {:induction false} PrefixOfSlice(s: seq<byte>, c: nat, k: nat, r: nat)
    requires c + r <= k <= |s|
    ensures s[c..k][..r] == s[c..c + r]
  { }

  /** `ReadBoundedFrom` when `e` is the end of the chunk's tail: the loop breaks. */
  lemma {:induction false} ReadBoundedExact(tr: Chunks, s: seq<byte>, cs: nat, j: nat, b: nat, c: nat, r: int, e: nat, hi: nat, buf: seq<byte>, m: nat)
    requires BoundedScan(tr, s, cs, j, b, c, r, e, hi) && c < |s|
    requires e == Min(b + cs, |s|) && m == e
    ensures Run(ReadState(buf, c, Some(r), false), cs, GetRange(tr, j, hi)) == ReadState(buf + s[c..m], m, Some(0), true)
  {
    ScanCovers(j, hi, cs, c);
    ChunksFromHead(tr, s, cs, j, hi);
    ChunkTail(tr, s, cs, j, b, c, e);
    ScanChunkSome(tr, cs, j, c, hi, buf, r, s[c..e], e, 0, true);
    RunStopped(ReadState(buf + s[c..e], e, Some(0), true), cs, GetRange(tr, j + 1, hi));
  }

  /** On a full chunk that ends before `e`, the read takes the chunk's tail and goes on from the next boundary. */
  lemma {:induction false} BoundedFullNext(tr: Chunks, s: seq<byte>, cs: nat, j: nat, b: nat, c: nat, r: int, e: nat, hi: nat, buf: seq<byte>, m: nat, out: seq<byte>)
    requires BoundedScan(tr, s, cs, j, b, c, r, e, hi) && b + cs <= |s|
    requires b + cs < e && m == Min(e, |s|) && out == buf + s[c..m]
    ensures BoundedScan(tr, s, cs, j + 1, b + cs, b + cs, e - (b + cs), e, hi)
    ensures b + cs <= m && out == buf + s[c..b + cs] + s[b + cs..m]
    ensures Run(ReadState(buf, c, Some(r), false), cs, GetRange(tr, j, hi))
      == Run(ReadState(buf + s[c..b + cs], b + cs, Some(e - (b + cs)), false), cs, GetRange(tr, j + 1, hi))
  {
    BoundedFullRun(tr, s, cs, j, b, c, r, e, hi, buf);
    BoundedFullRest(tr, s, cs, j, b, c, r, e, hi, buf, m, out);
  }

  /** With a positive size that reaches past a full chunk, the iteration on it takes its bytes from the cursor to the chunk's end. */
  lemma {:induction false} BoundedFullRun(tr: Chunks, s: seq<byte>, cs: nat, j: nat, b: nat, c: nat, r: int, e: nat, hi: nat, buf: seq<byte>)
    requires BoundedScan(tr, s, cs, j, b, c, r, e, hi) && b + cs <= |s|
    requires b + cs < e
    ensures Run(ReadState(buf, c, Some(r), false), cs, GetRange(tr, j, hi))
      == Run(ReadState(buf + s[c..b + cs], b + cs, Some(e - (b + cs)), false), cs, GetRange(tr, j + 1, hi))
  {
    ScanCovers(j, hi, cs, c);
    ChunksFromHead(tr, s, cs, j, hi);
    ChunkTail(tr, s, cs, j, b, c, b + cs);
    ScanChunkSome(tr, cs, j, c, hi, buf, r, s[c..b + cs], b + cs, e - (b + cs), false);
  }

  /** After a full chunk of `s` that ends before `e`, what is left to read starts at the next chunk. */
  lemma {:induction false} BoundedFullRest(tr: Chunks, s: seq<byte>, cs: nat, j: nat, b: nat, c: nat, r: int, e: nat, hi: nat, buf: seq<byte>, m: nat, out: seq<byte>)
    requires BoundedScan(tr, s, cs, j, b, c, r, e, hi) && b + cs <= |s| && b + cs < e
    requires m == Min(e, |s|) && out == buf + s[c..m]
    ensures BoundedScan(tr, s, cs, j + 1, b + cs, b + cs, e - (b + cs), e, hi)
    ensures b + cs <= m && out == buf + s[c..b + cs] + s[b + cs..m]
  {
    ScanCovers(j, hi, cs, c);
    ChunksFromHead(tr, s, cs, j, hi);
    MulNext(j, cs);
    AppendRange(buf, s, c, b + cs, m);
  }

  /** Bytes `c` to `m` are bytes `c` to `k`, then `k` to `m`. */
  lemma {:induction false} AppendRange(buf: seq<byte>, s: seq<byte>, c: nat, k: nat, m: nat)
    requires c <= k <= m <= |s|
    ensures buf + s[c..k] + s[k..m] == buf + s[c..m]
  {
    assert s[c..k] + s[k..m] == s[c..m];
  }

  /** `ReadBoundedFrom` on the last chunk of `s`, which ends before `e`. */
  lemma {:induction false} ReadBoundedLast(tr: Chunks, s: seq<byte>, cs: nat, j: nat, b: nat, c: nat, r: int, e: nat, hi: nat, buf: seq<byte>, m: nat)
    requires BoundedScan(tr, s, cs, j, b, c, r, e, hi) && c < |s| < b + cs
    requires |s| < e && m == |s|
    ensures Run(ReadState(buf, c, Some(r), false), cs, GetRange(tr, j, hi)) == ReadState(buf + s[c..m], m, Some(e - m), false)
  {
    ScanCovers(j, hi, cs, c);
    ChunksFromHead(tr, s, cs, j, hi);
    ChunkTail(tr, s, cs, j, b, c, |s|);
    ScanChunkSome(tr, cs, j, c, hi, buf, r, s[c..|s|], |s|, e - |s|, false);
    MulNext(j, cs);
    GetRangeBeyond(tr, s, cs, j + 1, hi);
  }

  // ---------------------------------------------------------------------------
  // What one read returns

  /** An iteration with size 0 takes the tail of the first chunk it reaches and breaks. */
  lemma {:induction false} ScanChunkZero(tr: Chunks, cs: nat, j: nat, c: nat, hi: int, buf: seq<byte>, chunk: seq<byte>, q: nat)
    requires Mul(j, cs) <= c && j <= hi && j in tr && chunk == Suffix(tr[j], c - Mul(j, cs)) && q == c + |chunk|
    ensures Run(ReadState(buf, c, Some(0), false), cs, GetRange(tr, j, hi)) == ReadState(buf + chunk, q, Some(0), true)
  {
    GetRangeCons(tr, j, hi);
    StepZero(buf, c, cs, j, tr[j], chunk, q);
    RunCons(ReadState(buf, c, Some(0), false), cs, (j, tr[j]), GetRange(tr, j + 1, hi));
    RunStopped(ReadState(buf + chunk, q, Some(0), true), cs, GetRange(tr, j + 1, hi));
  }

  /** Without a size, a read of the layout of `s` returns everything from the cursor on and moves the cursor past it. */
  lemma {:induction false} ReadLayoutAll(s: seq<byte>, cs: nat, c: nat)
    requires cs > 0
    ensures Read(Layout(s, cs), cs, c, None) == (Window(s, c, |s|), c + |Window(s, c, |s|)|)
  {
    LayoutTop(s, cs);
    LayoutChunksFrom(s, cs, ChunkIndex(c, cs), CeilDiv(|s|, cs) - 1);
    ReadAllFrom(Layout(s, cs), s, cs, c, CeilDiv(|s|, cs) - 1);
  }

  /** The same on any store whose chunks from the cursor's on are those of `s` and whose last chunk is `s`'s. */
  lemma {:induction false} ReadAllFrom(tr: Chunks, s: seq<byte>, cs: nat, c: nat, hi: int)
    requires cs > 0 && TopKey(tr) == hi && hi + 1 == CeilDiv(|s|, cs) && ChunksFrom(tr, s, cs, ChunkIndex(c, cs), hi)
    ensures Read(tr, cs, c, None) == (Window(s, c, |s|), c + |Window(s, c, |s|)|)
  {
    if c <= |s| {
      ReadAllWithin(tr, s, cs, c, hi);
    } else {
      ReadAllPast(tr, s, cs, c, hi);
    }
  }

  /** `ReadAllFrom` for a cursor at or before the end of `s`. */
  lemma {:induction false} ReadAllWithin(tr: Chunks, s: seq<byte>, cs: nat, c: nat, hi: int)
    requires cs > 0 && TopKey(tr) == hi && hi + 1 == CeilDiv(|s|, cs) && ChunksFrom(tr, s, cs, ChunkIndex(c, cs), hi)
    requires c <= |s|
    ensures Read(tr, cs, c, None) == (Window(s, c, |s|), c + |Window(s, c, |s|)|)
  {
    CodecDecompose(c, cs);
    WindowToEnd(s, c);
    ReadToEndFrom(tr, s, cs, ChunkIndex(c, cs), ChunkBase(c, cs), c, hi, [], s[c..]);
  }

  /** `ReadAllFrom` for a cursor past the end of `s`: nothing is read and the cursor stays. */
  lemma {:induction false} ReadAllPast(tr: Chunks, s: seq<byte>, cs: nat, c: nat, hi: int)
    requires cs > 0 && TopKey(tr) == hi && hi + 1 == CeilDiv(|s|, cs) && ChunksFrom(tr, s, cs, ChunkIndex(c, cs), hi)
    requires |s| < c
    ensures Read(tr, cs, c, None) == (Window(s, c, |s|), c + |Window(s, c, |s|)|)
  {
    CodecDecompose(c, cs);
    RunPastEnd(tr, s, cs, ChunkIndex(c, cs), ChunkBase(c, cs), hi, Start(c, None));
  }

  /** A read of the layout of `s` from offset 0 with no size returns all of `s`. */
  lemma {:induction false} ReadLayoutWhole(s: seq<byte>, cs: nat)
    requires cs > 0
    ensures Read(Layout(s, cs), cs, 0, None) == (s, |s|)
  {
    ReadLayoutAll(s, cs, 0);
    WindowToEnd(s, 0);
  }

  /** With a positive size `n`, a read of the layout of `s` returns `s[c:c + n]` and moves the cursor past it. */
  lemma {:induction false} ReadLayoutBounded(s: seq<byte>, cs: nat, c: nat, n: int)
    requires cs > 0 && n > 0
    ensures Read(Layout(s, cs), cs, c, Some(n)) == (Window(s, c, c + n), c + |Window(s, c, c + n)|)
  {
    ReadLimited(Layout(s, cs), cs, c, n, ChunkIndex(c, cs), FloorDiv(c + n, cs));
    if c <= |s| {
      ReadLayoutNear(s, cs, c, n, ChunkIndex(c, cs), ChunkBase(c, cs), FloorDiv(c + n, cs), Min(c + n, |s|));
      WindowPair(s, c, c + n, Min(c + n, |s|));
    } else {
      ReadLayoutBeyond(s, cs, c, n, ChunkIndex(c, cs), ChunkBase(c, cs), FloorDiv(c + n, cs));
    }
  }

  /** From a cursor within `s`, a read of `n > 0` bytes from the layout of `s` returns `s[c:c + n]`. */
  lemma {:induction false} ReadLayoutNear(s: seq<byte>, cs: nat, c: nat, n: int, i: nat, b: nat, hi: int, m: nat)
    requires cs > 0 && n > 0 && c <= |s| && i == ChunkIndex(c, cs) && b == ChunkBase(c, cs) && hi == FloorDiv(c + n, cs)
    requires m == Min(c + n, |s|)
    ensures Outcome(Run(Start(c, Some(n)), cs, GetRange(Layout(s, cs), i, hi))) == (s[c..m], m)
  {
    LayoutBoundedScan(s, cs, c, n, i, b, hi);
    ReadLayoutWithin(s, cs, c, n, i, b, hi, m);
  }

  /** From a cursor past the end of `s`, a read of `n > 0` bytes from the layout of `s` returns nothing. */
  lemma {:induction false} ReadLayoutBeyond(s: seq<byte>, cs: nat, c: nat, n: int, i: nat, b: nat, hi: int)
    requires cs > 0 && n > 0 && |s| < c && i == ChunkIndex(c, cs) && b == ChunkBase(c, cs) && hi == FloorDiv(c + n, cs)
    ensures Outcome(Run(Start(c, Some(n)), cs, GetRange(Layout(s, cs), i, hi))) == (Window(s, c, c + n), c + |Window(s, c, c + n)|)
  {
    LayoutBoundedScan(s, cs, c, n, i, b, hi);
    ReadLayoutPast(s, cs, c, n, i, b, hi);
  }

  /** With a positive size `n`, a read scans from the cursor's chunk `i` to the chunk `hi` that holds `c + n`. */
  lemma {:induction false} ReadLimited(tr: Chunks, cs: nat, c: nat, n: int, i: nat, hi: int)
    requires cs > 0 && n > 0 && i == ChunkIndex(c, cs) && hi == FloorDiv(c + n, cs)
    ensures Read(tr, cs, c, Some(n)) == Outcome(Run(Start(c, Some(n)), cs, GetRange(tr, i, hi)))
  { }

  /** A read of `n > 0` bytes from `c` over the layout of `s` is a bounded scan from the cursor's chunk. */
  lemma {:induction false} LayoutBoundedScan(s: seq<byte>, cs: nat, c: nat, n: int, i: nat, b: nat, hi: int)
    requires cs > 0 && n > 0 && i == ChunkIndex(c, cs) && b == ChunkBase(c, cs) && hi == FloorDiv(c + n, cs)
    ensures hi >= 0 && BoundedScan(Layout(s, cs), s, cs, i, b, c, n, c + n, hi)
  {
    CodecDecompose(c, cs);
    LayoutChunksFrom(s, cs, i, hi);
  }

  /** The bounded scan of the layout of `s` from a cursor within `s` returns `s[c:c + n]`. */
  lemma {:induction false} ReadLayoutWithin(s: seq<byte>, cs: nat, c: nat, n: int, i: nat, b: nat, hi: nat, m: nat)
    requires cs > 0 && n > 0 && BoundedScan(Layout(s, cs), s, cs, i, b, c, n, c + n, hi) && c <= |s| && m == Min(c + n, |s|)
    ensures Outcome(Run(Start(c, Some(n)), cs, GetRange(Layout(s, cs), i, hi))) == (s[c..m], m)
  {
    EmptyTail([], s, c);
    ReadBoundedFrom(Layout(s, cs), s, cs, i, b, c, n, c + n, hi, [], m, s[c..m]);
  }

  /** The bounded scan of the layout of `s` from a cursor past its end reads nothing. */
  lemma {:induction false} ReadLayoutPast(s: seq<byte>, cs: nat, c: nat, n: int, i: nat, b: nat, hi: nat)
    requires cs > 0 && n > 0 && BoundedScan(Layout(s, cs), s, cs, i, b, c, n, c + n, hi) && |s| < c
    ensures Outcome(Run(Start(c, Some(n)), cs, GetRange(Layout(s, cs), i, hi))) == (Window(s, c, c + n), c + |Window(s, c, c + n)|)
  {
    RunPastEnd(Layout(s, cs), s, cs, i, b, hi, Start(c, Some(n)));
  }

  /** A window from inside `s` is the slice up to its end or the end of `s`, which is where it leaves the cursor. */
  lemma {:induction false} WindowPair(s: seq<byte>, c: nat, e: nat, m: nat)
    requires c <= |s| && c <= e && m == Min(e, |s|)
    ensures (s[c..m], m) == (Window(s, c, e), c + |Window(s, c, e)|)
  {
    if !(c < e && c < |s|) {
      assert s[c..m] == [];
    }
  }

  /** With size 0, a scan from a cursor `c` in chunk `j` takes the tail of chunk `j` and breaks, or finds nothing when `c` is at or past the last chunk. */
  lemma {:induction false} ReadZeroFrom(tr: Chunks, s: seq<byte>, cs: nat, j: nat, b: nat, c: nat, hi: int, w: seq<byte>)
    requires cs > 0 && b == Mul(j, cs) && b <= c < b + cs && hi + 1 == CeilDiv(|s|, cs) && ChunkMatches(tr, s, cs, j)
    requires w == Window(s, c, b + cs)
    ensures Run(ReadState([], c, Some(0), false), cs, GetRange(tr, j, hi)).buf == w
    ensures Run(ReadState([], c, Some(0), false), cs, GetRange(tr, j, hi)).cursor == c + |w|
  {
    CeilDivBelow(|s|, cs, j);
    if b < |s| {
      if c <= |s| {
        ChunkTail(tr, s, cs, j, b, c, Min(b + cs, |s|));
        ScanChunkZero(tr, cs, j, c, hi, [], s[c..Min(b + cs, |s|)], Min(b + cs, |s|));
      } else {
        assert Mul(j + 1, cs) == b + cs;
        ScanChunkZero(tr, cs, j, c, hi, [], [], c);
      }
    }
  }

  /**
   * With size 0, a read of the layout of `s` returns the rest of the chunk
   * holding the cursor (the loop breaks after the first chunk) and moves the
   * cursor past it.
   */
  lemma {:induction false} ReadLayoutZero(s: seq<byte>, cs: nat, c: nat)
    requires cs > 0
    ensures Read(Layout(s, cs), cs, c, Some(0))
      == (Window(s, c, ChunkBase(c, cs) + cs), c + |Window(s, c, ChunkBase(c, cs) + cs)|)
  {
    ReadLayoutZeroIs(s, cs, c, ChunkIndex(c, cs), ChunkBase(c, cs), CeilDiv(|s|, cs) - 1, Window(s, c, ChunkBase(c, cs) + cs));
  }

  /** `ReadLayoutZero` with the cursor's chunk `i` and base `b`, the last chunk `hi`, and the bytes read `w` named. */
  lemma {:induction false} ReadLayoutZeroIs(s: seq<byte>, cs: nat, c: nat, i: int, b: nat, hi: int, w: seq<byte>)
    requires cs > 0 && i == ChunkIndex(c, cs) && b == ChunkBase(c, cs) && hi == CeilDiv(|s|, cs) - 1
    requires w == Window(s, c, b + cs)
    ensures Read(Layout(s, cs), cs, c, Some(0)) == (w, c + |w|)
  {
    CodecDecompose(c, cs);
    LayoutTop(s, cs);
    ReadZeroUnfold(Layout(s, cs), cs, c, i, hi);
    ReadLayoutZeroRun(s, cs, c, i, b, hi, w);
  }

  /** With size 0, a read scans from the cursor's chunk to the last stored chunk. */
  lemma {:induction false} ReadZeroUnfold(tr: Chunks, cs: nat, c: nat, i: int, hi: int)
    requires cs > 0 && i == ChunkIndex(c, cs) && hi == TopKey(tr)
    ensures Read(tr, cs, c, Some(0)) == Outcome(Run(ReadState([], c, Some(0), false), cs, GetRange(tr, i, hi)))
  { }

  /** The loop of a read of size 0 on the layout of `s` from chunk `i` returns the rest of the chunk. */
  lemma {:induction false} ReadLayoutZeroRun(s: seq<byte>, cs: nat, c: nat, i: nat, b: nat, hi: int, w: seq<byte>)
    requires cs > 0 && i == ChunkIndex(c, cs) && b == ChunkBase(c, cs) && hi + 1 == CeilDiv(|s|, cs)
    requires w == Window(s, c, b + cs)
    ensures Outcome(Run(ReadState([], c, Some(0), false), cs, GetRange(Layout(s, cs), i, hi))) == (w, c + |w|)
  {
    CodecDecompose(c, cs);
    LayoutKeys(s, cs, i);
    ReadZeroFrom(Layout(s, cs), s, cs, i, b, c, hi, w);
  }

  /**
   * With a negative size `z`, the scan ends at the chunk holding `c + z`, so
   * it reaches at most the cursor's own chunk: the read returns that chunk's
   * tail cut by Python's negative slice `[:z]` and moves the cursor back by
   * `-z`, or returns nothing and leaves the cursor when the chunk is absent
   * or `c + z` lies in an earlier chunk.  This holds for every store.
   */
  lemma {:induction false} ReadNegative(tr: Chunks, cs: nat, c: nat, z: int)
    requires cs > 0 && z < 0
    ensures Read(tr, cs, c, Some(z))
      == if FloorDiv(c + z, cs) == ChunkIndex(c, cs) && ChunkIndex(c, cs) in tr
         then (PySlice(Suffix(tr[ChunkIndex(c, cs)], InChunkOffset(c, cs)), 0, z), c + z)
         else ([], c)
  {
    CodecDecompose(c, cs);
    FloorDivMono(c + z, c, cs);
    var i: nat := ChunkIndex(c, cs);
    if FloorDiv(c + z, cs) == i {
      GetRangeSingle(tr, i);
      if i in tr {
        RunCons(Start(c, Some(z)), cs, (i, tr[i]), []);
        StepNegative(cs, c, z, i, tr[i]);
      }
    }
  }

  /** A scan of the single index `i`. */
  lemma {:induction false} GetRangeSingle(tr: Chunks, i: nat)
    ensures GetRange(tr, i, i) == if i in tr then [(i, tr[i])] + [] else []
  { }

  /** From the start, an iteration on a chunk at or before the cursor with a negative size takes the slice `[:z]` of its tail. */
  lemma {:induction false} StepNegative(cs: nat, c: nat, z: int, i: nat, v: seq<byte>)
    requires z < 0 && Mul(i, cs) <= c
    ensures Step(Start(c, Some(z)), cs, i, v) == ReadState(PySlice(Suffix(v, c - Mul(i, cs)), 0, z), c + z, Some(z), false)
  {
    assert [] + PySlice(Suffix(v, c - Mul(i, cs)), 0, z) == PySlice(Suffix(v, c - Mul(i, cs)), 0, z);
  }

  /** A size that is absent or not negative. */
  predicate NonNegative(size: Option<int>)
  {
    size.None? || size.value >= 0
  }

  /** Without a negative size, an iteration moves the cursor by exactly the bytes it takes. */
  lemma {:induction false} StepAdvances(st: ReadState, cs: nat, index: nat, v: seq<byte>)
    requires NonNegative(st.size)
    ensures NonNegative(Step(st, cs, index, v).size)
    ensures Step(st, cs, index, v).cursor - |Step(st, cs, index, v).buf| == st.cursor - |st.buf|
  {
  }

  lemma {:induction false} RunAdvances(st: ReadState, cs: nat, items: seq<(nat, seq<byte>)>)
    requires NonNegative(st.size)
    decreases |items|
    ensures Run(st, cs, items).cursor - |Run(st, cs, items).buf| == st.cursor - |st.buf|
  {
    if items != [] {
      StepAdvances(st, cs, items[0].0, items[0].1);
      RunAdvances(Step(st, cs, items[0].0, items[0].1), cs, items[1..]);
    }
  }

  /** Without a negative size, a read moves the cursor past exactly the bytes it returns, on every store. */
  lemma {:induction false} ReadAdvances(tr: Chunks, cs: nat, c: nat, size: Option<int>)
    requires cs > 0 && NonNegative(size)
    ensures Read(tr, cs, c, size).1 == c + |Read(tr, cs, c, size).0|
  {
    RunAdvances(Start(c, size), cs, GetRange(tr, ChunkIndex(c, cs), ScanEnd(tr, cs, c, size)));
  }

  /** A read never moves the cursor before the start of the blob. */
  lemma {:induction false} ReadCursorNat(tr: Chunks, cs: nat, c: nat, size: Option<int>)
    requires cs > 0
    ensures Read(tr, cs, c, size).1 >= 0
  {
    if NonNegative(size) {
      ReadAdvances(tr, cs, c, size);
    } else {
      ReadNegative(tr, cs, c, size.value);
    }
  }

  /**
   * The loop's invariant for a read of at most `n` bytes, before chunk `lo`:
   * stopped with at most `n` bytes, or running with a positive remaining size
   * that either makes up the difference to `n` or has been cut short, with `n`
   * bytes read and the cursor before chunk `lo`.
   */
  ghost predicate Budget(st: ReadState, cs: nat, lo: nat, n: int)
  {
    if st.stopped then |st.buf| <= n
    else (st.size.Some? && st.size.value > 0
          && (|st.buf| + st.size.value == n || (|st.buf| == n && st.cursor < Mul(lo, cs))))
  }

  lemma {:induction false} StepBudget(st: ReadState, cs: nat, lo: nat, v: seq<byte>, n: int)
    requires cs > 0 && |v| <= cs && Budget(st, cs, lo, n)
    ensures Budget(Step(st, cs, lo, v), cs, lo + 1, n)
  {
    assert Mul(lo + 1, cs) == Mul(lo, cs) + cs;
  }

  lemma {:induction false} RunBudget(tr: Chunks, cs: nat, lo: nat, hi: int, st: ReadState, n: int)
    requires cs > 0 && ChunksAtMost(tr, cs) && Budget(st, cs, lo, n)
    decreases hi - lo + 1
    ensures |Run(st, cs, GetRange(tr, lo, hi)).buf| <= n
  {
    if lo <= hi {
      if lo in tr {
        RunCons(st, cs, (lo, tr[lo]), GetRange(tr, lo + 1, hi));
        StepBudget(st, cs, lo, tr[lo], n);
        RunBudget(tr, cs, lo + 1, hi, Step(st, cs, lo, tr[lo]), n);
      } else {
        assert Mul(lo + 1, cs) == Mul(lo, cs) + cs;
        RunBudget(tr, cs, lo + 1, hi, st, n);
      }
    }
  }

  /** On a store whose chunks hold at most `cs` bytes, a read with a positive size `n` returns at most `n` bytes. */
  lemma {:induction false} ReadAtMost(tr: Chunks, cs: nat, c: nat, n: int)
    requires cs > 0 && n > 0 && ChunksAtMost(tr, cs)
    ensures |Read(tr, cs, c, Some(n)).0| <= n
  {
    RunBudget(tr, cs, ChunkIndex(c, cs), ScanEnd(tr, cs, c, Some(n)), Start(c, Some(n)), n);
  }
}
