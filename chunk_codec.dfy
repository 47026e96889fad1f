/**
 * Byte offsets, chunk indices and Python slicing.
 *
 * A blob is cut into chunks of `cs` bytes; the chunk holding byte offset `x`
 * is `x / cs` (Python 2 floor division on ints) and starts at `(x / cs) * cs`.
 * Products and quotients are written as the recursive functions `Mul` and
 * `FloorDiv`, so that proofs about offsets stay in linear arithmetic;
 * `MulIsProduct` and `FloorDivIsDivision` tie them to `*` and `/`.
 */
module ChunkCodec {

  newtype byte = x: int | 0 <= x < 256

  function Min(a: int, b: int): int { if a <= b then a else b }

  function Max(a: int, b: int): int { if a <= b then b else a }

  /** Python's normalisation of one slice bound against a sequence of length `n`. */
  function SliceBound(i: int, n: nat): nat
  {
    if i < 0 then Max(n + i, 0) else Min(i, n)
  }

  /** `s[lo:hi]` in Python: negative bounds count from the end, bounds past the end are clamped. */
  function PySlice<T>(s: seq<T>, lo: int, hi: int): seq<T>
  {
    var a := SliceBound(lo, |s|);
    var b := SliceBound(hi, |s|);
    if a < b then s[a..b] else []
  }

  /** `s[lo:hi]` for bounds that are not negative: the clamped window. */
  function Window<T>(s: seq<T>, lo: nat, hi: nat): (r: seq<T>)
  {
    if lo < hi && lo < |s| then s[lo..Min(hi, |s|)] else []
  }

  /** With non-negative bounds, Python's slice is the window. */
  lemma WindowIsSlice<T>(s: seq<T>, lo: nat, hi: nat)
    ensures Window(s, lo, hi) == PySlice(s, lo, hi)
  {
  }

  /** A window that runs to the end is the plain suffix. */
  lemma {:induction false} WindowToEnd<T>(s: seq<T>, lo: nat)
    requires lo <= |s|
    ensures Window(s, lo, |s|) == s[lo..]
    ensures Window(s, 0, |s|) == s
  {
  }

  /** Slicing distributes over a cut point. */
  lemma {:induction false} WindowSplit<T>(t: seq<T>, lo: nat, m: nat, hi: nat)
    requires lo <= m <= hi
    ensures Window(t, lo, hi) == Window(t, lo, m) + Window(t, m, hi)
  {
    var a, b, e := Min(lo, |t|), Min(m, |t|), Min(hi, |t|);
    assert t[a..e] == t[a..b] + t[b..e];
  }

  /** `s[0:n]`: the first `n` elements, or all of them when there are fewer. */
  function Prefix<T>(s: seq<T>, n: nat): (r: seq<T>)
    ensures |r| == Min(n, |s|)
  {
    if n <= |s| then s[..n] else s
  }

  /** `buffer(s, n)`: what follows the first `n` elements, empty when there are no more. */
  function Suffix<T>(s: seq<T>, n: nat): (r: seq<T>)
    ensures |r| == Max(|s| - n, 0)
  {
    if n <= |s| then s[n..] else []
  }

  /** `Prefix` and `Suffix` are Python's slices `s[0:n]` and `s[n:]`, and they split the sequence. */
  lemma PrefixSuffix<T>(s: seq<T>, n: nat)
    ensures Prefix(s, n) == PySlice(s, 0, n)
    ensures Suffix(s, n) == PySlice(s, n, |s|)
    ensures Prefix(s, n) + Suffix(s, n) == s
  {
  }

  /** `s[:n]` for `n` within the sequence is its first `n` elements. */
  lemma {:induction false} PySlicePrefix<T>(s: seq<T>, n: int)
    requires 0 <= n <= |s|
    ensures PySlice(s, 0, n) == s[..n]
  { }

  // ---------------------------------------------------------------------------
  // Products and floor division

  /** `a * b` on naturals. */
  function Mul(a: nat, b: nat): nat
  {
    if a == 0 then 0 else Mul(a - 1, b) + b
  }

  /** Python's `x / d` (`x // d`) on ints for a positive divisor: the floor of the quotient. */
  function FloorDiv(x: int, d: nat): (q: int)
    requires d > 0
    decreases if x < 0 then d - x else x
    ensures x >= 0 ==> 0 <= q && Mul(q, d) <= x < Mul(q, d) + d
    ensures x < 0 ==> q < 0
  {
    if x < 0 then FloorDiv(x + d, d) - 1
    else if x < d then 0
    else FloorDiv(x - d, d) + 1
  }

  /** One more row of `b`. */
  lemma {:induction false} MulNext(a: nat, b: nat)
    ensures Mul(a + 1, b) == Mul(a, b) + b
  {
  }

  lemma {:induction false} MulIsProduct(a: nat, b: nat)
    ensures Mul(a, b) == a * b
  {
    if a > 0 {
      MulIsProduct(a - 1, b);
      assert (a - 1) * b + b == a * b;
    }
  }

  lemma {:induction false} MulAdd(a: nat, a': nat, b: nat)
    ensures Mul(a + a', b) == Mul(a, b) + Mul(a', b)
  {
    if a' > 0 {
      MulAdd(a, a' - 1, b);
    }
  }

  lemma {:induction false} MulMono(a: nat, a': nat, b: nat)
    requires a <= a'
    ensures Mul(a, b) <= Mul(a', b)
  {
    MulAdd(a, a' - a, b);
  }

  lemma {:induction false} MulStrict(a: nat, a': nat, b: nat)
    requires a < a' && b > 0
    ensures Mul(a, b) + b <= Mul(a', b)
  {
    MulMono(a + 1, a', b);
  }

  /** A quotient is determined by the multiples of the divisor that bracket it. */
  lemma {:induction false} DivUnique(x: nat, d: nat, q: nat)
    requires d > 0
    requires Mul(q, d) <= x < Mul(q, d) + d
    ensures FloorDiv(x, d) == q
  {
    var q' := FloorDiv(x, d);
    if q' < q {
      MulStrict(q', q, d);
    } else if q' > q {
      MulStrict(q, q', d);
    }
  }

  /** On offsets, `FloorDiv` is Dafny's `/`, which is Python's floor division for a positive divisor. */
  lemma {:induction false} FloorDivIsDivision(x: nat, d: nat)
    requires d > 0
    ensures FloorDiv(x, d) == x / d
  {
    var q := x / d;
    MulIsProduct(q, d);
    DivUnique(x, d, q);
  }

  lemma {:induction false} FloorDivMono(x: int, y: int, d: nat)
    requires d > 0 && x <= y
    decreases d - x
    ensures FloorDiv(x, d) <= FloorDiv(y, d)
  {
    var qx, qy := FloorDiv(x, d), FloorDiv(y, d);
    if x >= 0 {
      if qy < qx {
        MulStrict(qy, qx, d);
      }
    } else if y < 0 {
      FloorDivMono(x + d, y + d, d);
    }
  }

  // ---------------------------------------------------------------------------
  // The chunk codec

  /** The index of the chunk that holds byte offset `offset` (`offset / chunk_size`). */
  function ChunkIndex(offset: int, cs: nat): (i: int)
    requires cs > 0
    ensures offset >= 0 ==> 0 <= i && Mul(i, cs) <= offset < Mul(i, cs) + cs
    ensures offset < 0 ==> i < 0
  {
    FloorDiv(offset, cs)
  }

  /** The offset of the first byte of the chunk that holds `offset` (`index * chunk_size`). */
  function ChunkBase(offset: nat, cs: nat): (b: nat)
    requires cs > 0
    ensures b <= offset < b + cs
  {
    Mul(ChunkIndex(offset, cs), cs)
  }

  /** The position of `offset` inside its chunk. */
  function InChunkOffset(offset: nat, cs: nat): (r: nat)
    requires cs > 0
    ensures r < cs
  {
    offset - ChunkBase(offset, cs)
  }

  /** Decoding an index and in-chunk offset gives back the pair: the codec's inverse. */
  lemma {:induction false} CodecRoundTrip(i: nat, r: nat, cs: nat)
    requires cs > 0 && r < cs
    ensures ChunkIndex(Mul(i, cs) + r, cs) == i
    ensures ChunkBase(Mul(i, cs) + r, cs) == Mul(i, cs)
    ensures InChunkOffset(Mul(i, cs) + r, cs) == r
  {
    DivUnique(Mul(i, cs) + r, cs, i);
  }

  /** An offset is its chunk's base plus its in-chunk offset, and the base is a multiple of `cs`. */
  lemma {:induction false} CodecDecompose(offset: nat, cs: nat)
    requires cs > 0
    ensures ChunkIndex(offset, cs) >= 0
    ensures ChunkBase(offset, cs) + InChunkOffset(offset, cs) == offset
    ensures ChunkBase(offset, cs) == Mul(ChunkIndex(offset, cs), cs)
  {
  }

  /** Python's `int(math.ceil(float(n) / cs))`: the least `m` with `m * cs >= n`. */
  function CeilDiv(n: nat, cs: nat): (m: nat)
    requires cs > 0
    ensures Mul(m, cs) >= n
    ensures m == 0 || Mul(m - 1, cs) < n
  {
    var q := FloorDiv(n + cs - 1, cs);
    assert q > 0 ==> Mul(q - 1, cs) + cs == Mul(q, cs);
    q
  }

  /** `CeilDiv` is characterised by its two bounds. */
  lemma {:induction false} CeilDivUnique(n: nat, cs: nat, m: nat)
    requires cs > 0
    requires Mul(m, cs) >= n && (m == 0 || Mul(m - 1, cs) < n)
    ensures CeilDiv(n, cs) == m
  {
    var k := CeilDiv(n, cs);
    if k < m {
      MulMono(k, m - 1, cs);
    } else if k > m {
      MulMono(m, k - 1, cs);
    }
  }

  /** Chunk `k` starts before offset `n` exactly when it is one of the `ceil(n / cs)` chunks that hold `n` bytes. */
  lemma {:induction false} CeilDivBelow(n: nat, cs: nat, k: nat)
    requires cs > 0
    ensures k < CeilDiv(n, cs) <==> Mul(k, cs) < n
  {
    if k < CeilDiv(n, cs) {
      MulMono(k, CeilDiv(n, cs) - 1, cs);
    } else {
      MulMono(CeilDiv(n, cs), k, cs);
    }
  }

  /** An exact multiple needs exactly that many chunks. */
  lemma {:induction false} CeilDivExact(m: nat, cs: nat)
    requires cs > 0
    ensures CeilDiv(Mul(m, cs), cs) == m
  {
    CeilDivUnique(Mul(m, cs), cs, m);
  }
}
