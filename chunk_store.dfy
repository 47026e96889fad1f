/**
 * The key-value view of a blob.
 *
 * One blob of the ordered store is a map from chunk index to chunk value
 * (`Chunks`); the whole store maps (blob key, chunk index) to a value.
 * `Layout(s, cs)` is the canonical store of a byte string `s`, and
 * `WellFormed`/`Contents` say when a map is such a store and which bytes it holds.
 */
module ChunkStore {
  import opened ChunkCodec

  type Chunks = map<nat, seq<byte>>

  /** A blob key (the directory sub-space and the caller's key, uninterpreted). */
  type Key = string

  type KV = map<(Key, nat), seq<byte>>

  /**
   * The exceptions the blob code raises: an `IOError` on a closed handle, a
   * `NotImplementedError` for an unknown `whence`, and the failed assertion
   * on a chunk that an unaligned write needs but that is not stored.
   */
  datatype Error = ClosedBlob | UnsupportedWhence | MissingChunk

  /** The chunk size a blob handle is built with; the code divides by it, so it must be positive. */
  type ChunkSize = x: nat | x > 0 witness 1

  /** The chunk size a manager is built with when none is given: 10 KiB. */
  const DEFAULT_CHUNK_SIZE: ChunkSize := 1024 * 10

  /** The whole FoundationDB database as one mutable map; each transaction replaces it atomically. */
  class Database {
    var kv: KV

    constructor ()
      ensures kv == map[]
    {
      kv := map[];
    }
  }

  // ---------------------------------------------------------------------------
  // Canonical layout of a byte string

  /** `s[i*cs:(i+1)*cs]`, chunk `i` of the byte string `s`. */
  function ChunkOf(s: seq<byte>, cs: nat, i: nat): seq<byte>
  {
    Window(s, Mul(i, cs), Mul(i + 1, cs))
  }

  /** The canonical store of `s`: chunk `i` for every `i` below the chunk count. */
  function Layout(s: seq<byte>, cs: nat): Chunks
    requires cs > 0
  {
    map i: nat | i < CeilDiv(|s|, cs) :: ChunkOf(s, cs, i)
  }

  lemma {:induction false} LayoutAt(s: seq<byte>, cs: nat, i: nat)
    requires cs > 0 && i < CeilDiv(|s|, cs)
    ensures i in Layout(s, cs)
    ensures Mul(i, cs) < |s|
    ensures Layout(s, cs)[i] == s[Mul(i, cs) .. Min(Mul(i, cs) + cs, |s|)]
  {
    MulMono(i, CeilDiv(|s|, cs) - 1, cs);
  }

  lemma {:induction false} LayoutKeys(s: seq<byte>, cs: nat, i: nat)
    requires cs > 0
    ensures i in Layout(s, cs) <==> Mul(i, cs) < |s|
  {
    var m := CeilDiv(|s|, cs);
    if i < m {
      LayoutAt(s, cs, i);
    } else {
      MulMono(m, i, cs);
    }
  }

  /** A map is the layout of `t` when it has exactly `t`'s chunk indices and `t`'s chunk at each. */
  lemma {:induction false} LayoutExt(tr: Chunks, t: seq<byte>, cs: nat)
    requires cs > 0
    requires forall j: nat :: j in tr <==> j < CeilDiv(|t|, cs)
    requires forall j :: j in tr ==> tr[j] == ChunkOf(t, cs, j)
    ensures tr == Layout(t, cs)
  {
    assert tr.Keys == Layout(t, cs).Keys;
  }

  // ---------------------------------------------------------------------------
  // Well-formed blobs and their contents

  /**
   * Chunk indices are 0..n-1 with no gaps, every chunk holds between 1 and
   * `cs` bytes, and every chunk but the last is full.
   */
  ghost predicate WellFormed(tr: Chunks, cs: nat)
  {
    && (forall i: nat :: i in tr <==> i < |tr|)
    && (forall i :: i in tr ==> 0 < |tr[i]| <= cs)
    && (forall i :: i in tr && i + 1 < |tr| ==> |tr[i]| == cs)
  }

  /** Every chunk of `tr` holds at most `cs` bytes, as a well-formed blob's do and as every write leaves them. */
  ghost predicate ChunksAtMost(tr: Chunks, cs: nat)
  {
    forall k | k in tr :: |tr[k]| <= cs
  }

  /** The concatenation of chunks 0..n-1. */
  function Concat(tr: Chunks, n: nat): seq<byte>
  {
    if n == 0 then [] else Concat(tr, n - 1) + ChunkAt(tr, n - 1)
  }

  /** Chunk `i`, or nothing when it is absent. */
  function ChunkAt(tr: Chunks, i: nat): seq<byte>
  {
    if i in tr then tr[i] else []
  }

  /** The bytes a well-formed blob holds. */
  function Contents(tr: Chunks, cs: nat): seq<byte>
    requires WellFormed(tr, cs)
  {
    Concat(tr, |tr|)
  }

  /** A set of naturals that is exactly 0..m-1 has m elements. */
  lemma {:induction false} RangeSize(keys: set<nat>, m: nat)
    requires forall i: nat :: i in keys <==> i < m
    ensures |keys| == m
  {
    if m > 0 {
      var rest := keys - {m - 1};
      RangeSize(rest, m - 1);
    } else {
      assert keys == {};
    }
  }

  lemma {:induction false} ConcatStep(s: seq<byte>, cs: nat, k: nat)
    requires cs > 0 && 0 < k <= CeilDiv(|s|, cs)
    ensures Mul(k - 1, cs) < |s|
    ensures Concat(Layout(s, cs), k) == Concat(Layout(s, cs), k - 1) + s[Mul(k - 1, cs) .. Min(Mul(k, cs), |s|)]
  {
    LayoutAt(s, cs, k - 1);
  }

  lemma SplitAt(s: seq<byte>, b: nat, e: nat)
    requires b <= e <= |s|
    ensures s[..e] == s[..b] + s[b..e]
  {
  }

  lemma {:induction false} ConcatOfLayout(s: seq<byte>, cs: nat, k: nat)
    requires cs > 0 && k <= CeilDiv(|s|, cs)
    ensures Concat(Layout(s, cs), k) == s[..Min(Mul(k, cs), |s|)]
  {
    if k > 0 {
      ConcatOfLayout(s, cs, k - 1);
      ConcatStep(s, cs, k);
      PrefixJoin(s, cs, k);
    }
  }

  /** The first `k - 1` chunks of `s` followed by chunk `k - 1` are its first `k` chunks. */
  lemma {:induction false} PrefixJoin(s: seq<byte>, cs: nat, k: nat)
    requires cs > 0 && 0 < k && Mul(k - 1, cs) < |s|
    ensures s[..Min(Mul(k - 1, cs), |s|)] + s[Mul(k - 1, cs) .. Min(Mul(k, cs), |s|)] == s[..Min(Mul(k, cs), |s|)]
  {
    MulNext(k - 1, cs);
    SplitAt(s, Mul(k - 1, cs), Min(Mul(k, cs), |s|));
  }

  /** The layout of any byte string is well formed and holds exactly that string. */
  lemma {:induction false} LayoutWellFormed(s: seq<byte>, cs: nat)
    requires cs > 0
    ensures WellFormed(Layout(s, cs), cs)
    ensures Contents(Layout(s, cs), cs) == s
  {
    LayoutSize(s, cs);
    LayoutChunkSizes(s, cs);
    ConcatOfLayout(s, cs, CeilDiv(|s|, cs));
  }

  /** The layout of `s` has `ceil(|s| / cs)` chunks. */
  lemma {:induction false} LayoutSize(s: seq<byte>, cs: nat)
    requires cs > 0
    ensures |Layout(s, cs)| == CeilDiv(|s|, cs)
  {
    RangeSize(Layout(s, cs).Keys, CeilDiv(|s|, cs));
  }

  /** Every chunk of a layout holds 1 to `cs` bytes, and all but the last are full. */
  lemma {:induction false} LayoutChunkSizes(s: seq<byte>, cs: nat)
    requires cs > 0
    ensures forall i | i in Layout(s, cs) ::
      0 < |Layout(s, cs)[i]| <= cs && (i + 1 < CeilDiv(|s|, cs) ==> |Layout(s, cs)[i]| == cs)
  {
    forall i | i in Layout(s, cs)
      ensures 0 < |Layout(s, cs)[i]| <= cs && (i + 1 < CeilDiv(|s|, cs) ==> |Layout(s, cs)[i]| == cs)
    {
      LayoutAt(s, cs, i);
      if i + 1 < CeilDiv(|s|, cs) { LayoutAt(s, cs, i + 1); }
    }
  }

  /** Prefix lengths and chunk positions inside the concatenation of full chunks. */
  lemma {:induction false} ConcatAt(tr: Chunks, cs: nat, n: nat, i: nat)
    requires cs > 0
    requires forall j: nat :: j < n ==> j in tr
    requires forall j: nat :: j + 1 < n ==> |tr[j]| == cs
    requires i < n
    ensures |Concat(tr, n)| == Mul(n - 1, cs) + |tr[n - 1]|
    ensures Mul(i, cs) + |tr[i]| <= |Concat(tr, n)|
    ensures Concat(tr, n)[Mul(i, cs) .. Mul(i, cs) + |tr[i]|] == tr[i]
  {
    if n > 1 {
      ConcatAt(tr, cs, n - 1, if i < n - 1 then i else 0);
      if i < n - 1 {
        MulMono(i + 1, n - 1, cs);
        var b := Mul(i, cs);
        assert Concat(tr, n)[b .. b + |tr[i]|] == Concat(tr, n - 1)[b .. b + |tr[i]|];
      }
    }
  }

  /** Chunk `i` of a well-formed blob is chunk `i` of the layout of its contents. */
  lemma {:induction false} WellFormedChunk(tr: Chunks, cs: nat, i: nat)
    requires cs > 0 && WellFormed(tr, cs) && i in tr
    ensures i in Layout(Contents(tr, cs), cs)
    ensures Layout(Contents(tr, cs), cs)[i] == tr[i]
  {
    var n, s := |tr|, Contents(tr, cs);
    ConcatAt(tr, cs, n, 0);
    ConcatAt(tr, cs, n, i);
    CeilDivUnique(|s|, cs, n);
    LayoutAt(s, cs, i);
    if i + 1 < n {
      MulMono(i + 1, n - 1, cs);
    }
  }

  /** The layout of a well-formed blob's contents has the blob's chunk count. */
  lemma {:induction false} WellFormedCount(tr: Chunks, cs: nat)
    requires cs > 0 && WellFormed(tr, cs)
    ensures CeilDiv(|Contents(tr, cs)|, cs) == |tr|
  {
    var n := |tr|;
    if n == 0 {
      assert Contents(tr, cs) == [];
    } else {
      ConcatAt(tr, cs, n, 0);
      CeilDivUnique(|Contents(tr, cs)|, cs, n);
    }
  }

  /** A well-formed blob is the layout of its own contents. */
  lemma {:induction false} WellFormedIsLayout(tr: Chunks, cs: nat)
    requires cs > 0 && WellFormed(tr, cs)
    ensures tr == Layout(Contents(tr, cs), cs)
  {
    var lay := Layout(Contents(tr, cs), cs);
    WellFormedCount(tr, cs);
    forall i | i in tr ensures i in lay && lay[i] == tr[i] {
      WellFormedChunk(tr, cs, i);
    }
    assert tr.Keys == lay.Keys;
  }

  /** Two well-formed blobs with the same contents are the same map. */
  lemma {:induction false} ContentsDetermineBlob(tr: Chunks, tr': Chunks, cs: nat)
    requires cs > 0 && WellFormed(tr, cs) && WellFormed(tr', cs)
    requires Contents(tr, cs) == Contents(tr', cs)
    ensures tr == tr'
  {
    WellFormedIsLayout(tr, cs);
    WellFormedIsLayout(tr', cs);
  }

  // ---------------------------------------------------------------------------
  // Reverse and forward range scans

  lemma {:induction false} MaxExists(keys: set<nat>)
    requires keys != {}
    ensures exists k :: k in keys && forall j :: j in keys ==> j <= k
  {
    var x :| x in keys;
    var rest := keys - {x};
    if rest != {} {
      MaxExists(rest);
      var k :| k in rest && forall j :: j in rest ==> j <= k;
      var top := if x <= k then k else x;
      forall j | j in keys ensures j <= top {
        if j != x { assert j in rest; }
      }
      assert top in keys;
    } else {
      forall j | j in keys ensures j <= x {
        assert j !in rest;
      }
      assert x in keys;
    }
  }

  /** The highest chunk index present: what a reverse range scan with limit 1 returns. */
  function MaxKey(tr: Chunks): (k: nat)
    requires tr != map[]
    ensures k in tr
    ensures forall j :: j in tr ==> j <= k
  {
    MaxExists(tr.Keys);
    var k :| k in tr && forall j :: j in tr ==> j <= k;
    k
  }

  /** The highest chunk index present, or -1 when the blob has no chunk. */
  function TopKey(tr: Chunks): (k: int)
    ensures tr == map[] ==> k == -1
    ensures tr != map[] ==> k in tr && forall j :: j in tr ==> j <= k
  {
    if tr == map[] then -1 else MaxKey(tr)
  }

  /** A forward range scan `tr.get_range(lo, hi + 1)`: the (index, value) pairs with index in [lo, hi]. */
  function GetRange(tr: Chunks, lo: nat, hi: int): (items: seq<(nat, seq<byte>)>)
    decreases hi - lo + 1
  {
    if hi < lo then []
    else
      var rest := GetRange(tr, lo + 1, hi);
      if lo in tr then [(lo, tr[lo])] + rest else rest
  }

  /** Every pair is a stored chunk with its index in [lo, hi]. */
  ghost predicate WithinRange(tr: Chunks, lo: nat, hi: int, items: seq<(nat, seq<byte>)>)
  {
    forall j :: 0 <= j < |items| ==> items[j].0 in tr && lo <= items[j].0 <= hi && items[j].1 == tr[items[j].0]
  }

  ghost predicate Ascending(items: seq<(nat, seq<byte>)>)
  {
    forall j, k :: 0 <= j < k < |items| ==> items[j].0 < items[k].0
  }

  /** No stored chunk with its index in [lo, hi] is missing. */
  ghost predicate CoversRange(tr: Chunks, lo: nat, hi: int, items: seq<(nat, seq<byte>)>)
  {
    forall i: nat :: lo <= i <= hi && i in tr ==> (i, tr[i]) in items
  }

  /** A range scan returns exactly the stored chunks of the range, in ascending index order. */
  lemma {:induction false} GetRangeSpec(tr: Chunks, lo: nat, hi: int)
    decreases hi - lo + 1
    ensures WithinRange(tr, lo, hi, GetRange(tr, lo, hi))
    ensures Ascending(GetRange(tr, lo, hi))
    ensures CoversRange(tr, lo, hi, GetRange(tr, lo, hi))
  {
    if hi >= lo {
      GetRangeSpec(tr, lo + 1, hi);
      var rest := GetRange(tr, lo + 1, hi);
      if lo in tr {
        var items := [(lo, tr[lo])] + rest;
        assert forall j :: 0 < j < |items| ==> items[j] == rest[j - 1];
        assert WithinRange(tr, lo, hi, items);
        assert Ascending(items);
        assert CoversRange(tr, lo, hi, items);
      }
    }
  }

  // ---------------------------------------------------------------------------
  // One blob inside the whole store

  /** The chunks stored under `key` (`tr[space[key].range()]`). */
  function ChunksOf(kv: KV, key: Key): (tr: Chunks)
    ensures forall i: nat :: i in tr <==> (key, i) in kv
    ensures forall i :: i in tr ==> tr[i] == kv[(key, i)]
  {
    map p | p in kv && p.0 == key :: p.1 := kv[p]
  }

  /** `del tr[space[key].range()]`: the store without the entries of blob `key`. */
  function ClearRange(kv: KV, key: Key): (r: KV)
    ensures forall i: nat :: (key, i) !in r
    ensures forall p | p in kv && p.0 != key :: p in r && r[p] == kv[p]
    ensures forall p | p in r :: p in kv
  {
    map p | p in kv && p.0 != key :: kv[p]
  }

  /** Clearing a blob's range empties that blob and leaves every other blob alone. */
  lemma {:induction false} ClearRangeSpec(kv: KV, key: Key)
    ensures ChunksOf(ClearRange(kv, key), key) == map[]
    ensures forall other :: other != key ==> ChunksOf(ClearRange(kv, key), other) == ChunksOf(kv, other)
  {
    var r := ClearRange(kv, key);
    assert forall i: nat :: (key, i) !in r;
    forall other | other != key ensures ChunksOf(r, other) == ChunksOf(kv, other) {
      var a, b := ChunksOf(r, other), ChunksOf(kv, other);
      assert a.Keys == b.Keys;
    }
  }

  /** The store after a transaction on blob `key` that leaves that blob with chunks `tr`. */
  function PutChunks(kv: KV, key: Key, tr: Chunks): KV
  {
    ClearRange(kv, key) + map i | i in tr :: (key, i) := tr[i]
  }

  /** Replacing one blob's chunks gives that blob exactly the new chunks. */
  lemma {:induction false} PutChunksOwn(kv: KV, key: Key, tr: Chunks)
    ensures ChunksOf(PutChunks(kv, key, tr), key) == tr
  {
    var mine := ChunksOf(PutChunks(kv, key, tr), key);
    assert forall i: nat :: (key, i) !in ClearRange(kv, key);
    assert mine.Keys == tr.Keys;
  }

  /** Replacing one blob's chunks leaves every other blob alone. */
  lemma {:induction false} PutChunksOther(kv: KV, key: Key, tr: Chunks, other: Key)
    requires other != key
    ensures ChunksOf(PutChunks(kv, key, tr), other) == ChunksOf(kv, other)
  {
    var a, b := ChunksOf(PutChunks(kv, key, tr), other), ChunksOf(kv, other);
    assert a.Keys == b.Keys;
  }
}
