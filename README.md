# Chunked blobs over a key-value store (python-fdbfs)

This project models how python-fdbfs stores a byte blob in FoundationDB, and it proves properties of that model in Dafny.

A blob is cut into chunks of `chunk_size` bytes. Chunk `i` is stored under the key `(blob key, i)`. The byte at offset `x` lives in chunk `x / chunk_size`, which starts at `(x / chunk_size) * chunk_size`.

Two layers are modelled:

- fdbkit's blob handles (`fdbkit/blob.py`):
  - a reader and a writer, each with a cursor and a closed flag;
  - size resolution and seeking over the blob's highest chunk;
  - the range reader `_read_chunk`;
  - the chunk writer `_write`;
  - the manager's whole-blob `read`, `write`, `delete` and `exists`.
- fdbfs's handles (`fdbfs/blob.py`):
  - the same writer;
  - a reader that returns the single chunk under its cursor.

Each transaction is one pure function from a snapshot of the store to its result:

- `ChunkWriter.Written` models `_write`;
- `ChunkReader.Read` models `_read_chunk`;
- `KitBlob.Size` models `_get_size`;
- `KitBlob.SeekCursor` models `_seek`.

Where the source changes things step by step, the model does too:

- the loops of `_read_chunk` and `_write`, and the recursion of `_write`, are methods (`ChunkReader.ReadChunk`, `ChunkWriter.Write`, `ChunkWriter.StoreSlices`), each proved equal to its function;
- the handles are classes with mutable `cursor` and `closed` fields;
- the whole database is a `Database` object whose map `kv` a write replaces in one step.

The meaning of a blob is given by `ChunkStore.Layout(s, cs)`, the canonical chunking of a byte string `s`. A well-formed store has:

- indices 0..n-1;
- full chunks except the last one;
- a non-empty last chunk.

A well-formed store is exactly the layout of its concatenated contents. Reading, sizing and writing are each related to those contents. The repository's two test scenarios are proved as lemmas about the fdbkit functions, with a chunk size of 4 and the bytes of "abcdefg".

Four behaviours of the code are modelled as written:

- **`read(size=0)` does not read to the end.**
  - `if size:` treats 0 like no limit when choosing the scan's end at `fdbkit/blob.py:133`.
  - The `if size == 0: break` at line 164 then stops after the first chunk that is processed.
  - So the read returns only the rest of the cursor's chunk (`ChunkReader.ReadLayoutZero`).
- **A negative `size` follows Python slicing.**
  - The piece is `chunk[:size]`, which drops bytes from the end of the chunk.
  - The cursor moves backwards (`ChunkReader.ReadNegative`).
- **A write that ends inside a stored chunk, before the blob's end, drops that chunk's old tail.** Both paths of `_write` do this:
  - the merge of an unaligned first chunk keeps only the old prefix plus the data (`fdbkit/blob.py:199-211`, `ChunkWriter.MidChunkWriteDropsTail`); a zero-byte write at an unaligned cursor truncates the chunk;
  - the aligned loop stores each slice of the data as the whole chunk, so a last slice shorter than the chunk it replaces cuts that chunk short (`fdbkit/blob.py:215-220`, `ChunkWriter.AlignedWrite`, `ChunkWriter.AlignedWriteDropsTail`).
  - Only writes that start inside the blob and reach its end or end on a chunk boundary overwrite exactly the bytes they cover and keep the blob well formed (`ChunkWriter.WriteContents`).
- **Overwriting from 0 with shorter data leaves the blob's later chunks in place (`KitBlob.BlobManager.Write`).**
  - The manager's `write` does not clear the key first, so a read afterwards returns the data followed by the old bytes past it (`KitBlob.OverwriteKeepsTail`, `BlobScenarios.OverwriteShorter`).
  - Over a well-formed blob no longer than the data, the read returns exactly the data (`KitBlob.OverwriteThenRead`).

## Model

| member | source | states |
|---|---|---|
| ChunkCodec.FloorDiv | fdbkit/blob.py:130 | Python 2 `/` on ints with a positive divisor: for a non-negative offset the quotient `q` satisfies `q*cs <= x < q*cs + cs`; a negative offset gives a negative quotient |
| ChunkCodec.FloorDivIsDivision | fdbkit/blob.py:188 | on offsets the floor quotient is the integer quotient `x / cs` |
| ChunkCodec.ChunkIndex | fdbkit/blob.py:188 | `cursor / chunk_size` for a non-negative offset is the index `i` with `i*cs <= x < i*cs + cs`, and a negative offset gives a negative index |
| ChunkCodec.ChunkBase | fdbkit/blob.py:189 | the base of the chunk holding an offset is at most the offset and less than a chunk further |
| ChunkCodec.InChunkOffset | fdbkit/blob.py:189-192 | `cursor - start_cursor` is less than the chunk size |
| ChunkCodec.CodecRoundTrip | fdbkit/blob.py:188-189 | `i*cs + r` with `r < cs` decodes back to chunk `i`, base `i*cs` and in-chunk offset `r` |
| ChunkCodec.CodecDecompose | fdbkit/blob.py:147-150 | every offset is its chunk's base plus its in-chunk offset, and the index is not negative |
| ChunkCodec.CeilDiv | fdbkit/blob.py:187 | the chunk count `ceil(n / cs)` is the least `m` with `m*cs >= n` |
| ChunkCodec.CeilDivBelow | fdbkit/blob.py:215 | chunk `k` is one of the `ceil(n / cs)` chunks of `n` bytes exactly when `k*cs < n` |
| ChunkCodec.PrefixSuffix | fdbkit/blob.py:199-202 | `s[0:n]` and `buffer(s, n)` are Python's slices, with clamping, and together give back `s` |
| ChunkCodec.WindowIsSlice | fdbkit/blob.py:216 | with non-negative bounds, Python's slice is the clamped window |
| ChunkStore.LayoutWellFormed | fdbkit/blob.py:215-222 | the canonical chunking of any byte string is a well-formed blob |
| ChunkStore.WellFormedIsLayout | fdbkit/blob.py:215-222 | a well-formed blob is the canonical chunking of its contents |
| ChunkStore.ContentsDetermineBlob | fdbkit/blob.py:215-222 | two well-formed blobs with the same contents are the same store |
| ChunkStore.MaxKey | fdbkit/blob.py:99 | the reverse scan with limit 1 returns a stored index that no other stored index exceeds |
| ChunkStore.TopKey | fdbkit/blob.py:138-139 | the highest stored index, and -1 for an empty blob, so that every stored index is at most it |
| ChunkStore.GetRangeSpec | fdbkit/blob.py:143 | a forward range scan returns exactly the stored chunks with index in the range, each with its value, in ascending index order |
| ChunkStore.GetRange | fdbkit/blob.py:143 | the forward range scan; its contents and order are stated by `ChunkStore.GetRangeSpec` |
| ChunkStore.ChunksOf | fdbkit/blob.py:97 | a blob's chunks are exactly the entries under its key, with their values |
| ChunkStore.ClearRangeSpec | fdbkit/blob.py:34-36 | clearing a blob's key range empties that blob and leaves every other blob unchanged |
| ChunkStore.ClearRange | fdbkit/blob.py:34-36 | `del tr[space.range()]` leaves no index under the key, keeps every entry of other keys with its value, and adds nothing |
| ChunkStore.PutChunksOwn | fdbkit/blob.py:200 | after a write transaction the blob holds exactly the chunks the transaction computed |
| ChunkStore.PutChunksOther | fdbkit/blob.py:220 | a write transaction on one blob leaves every other blob unchanged |
| ChunkWriter.Write | fdbkit/blob.py:183-224 | the `_write` body (merge, recursive call, slice loop) returns exactly the reference transaction `Written`; it terminates because each unaligned step consumes at least one byte (`decreases len(data)`) |
| ChunkWriter.Written | fdbkit/blob.py:183-224 | the `_write` transaction on a snapshot of the blob; its only error is the missing chunk of an unaligned cursor |
| ChunkWriter.WrittenAt | fdbkit/blob.py:192-224 | `_write` from chunk `i` and in-chunk offset `off`; its only error is the missing chunk |
| ChunkWriter.StoreSlices | fdbkit/blob.py:215-224 | the aligned loop stores slice `i` of the data at index `first + i` over the old chunks and returns the cursor advanced by the data's length |
| ChunkWriter.WrittenMerge | fdbkit/blob.py:192-213 | at an unaligned cursor with its chunk present, the merged chunk is the old prefix plus as much data as fits, holds at most `cs` bytes, the cursor moves to its end, and only the rest of the data goes to the recursive call |
| ChunkWriter.WrittenMissing | fdbkit/blob.py:194-196 | an unaligned write whose chunk is absent fails with the missing-chunk error |
| ChunkWriter.WriteFails | fdbkit/blob.py:192-196 | a write fails exactly when its cursor is unaligned and its chunk is absent, and the error is then the missing-chunk error |
| ChunkWriter.AlignedWrite | fdbkit/blob.py:215-224 | an aligned write of `n` bytes succeeds and returns `c + n`; it stores slice `j - c/cs` (1 to `cs` bytes) at each index `j` in `c/cs .. c/cs + ceil(n/cs) - 1`, leaves every other index unchanged, and changes nothing when `n = 0` |
| ChunkWriter.SlicesIsLayout | fdbkit/blob.py:215-222 | the slices written from chunk 0 are the canonical chunking of the data |
| ChunkWriter.WriteLayout | fdbkit/blob.py:183-224 | on a blob's layout, a write from inside the blob that reaches its end or a chunk boundary leaves the layout of the overwritten bytes and the cursor past the data |
| ChunkWriter.WriteContents | fdbkit/blob.py:183-224 | on a well-formed blob the same write succeeds, keeps it well formed, makes its contents the overwritten bytes and returns `c + len(d)` |
| ChunkWriter.AppendContents | fdbkit/blob.py:183-224 | writing at the end of a well-formed blob appends the data to its contents |
| ChunkWriter.MidChunkWriteDropsTail | fdbkit/blob.py:199-211 | a write that starts inside a chunk and ends before that chunk's end and before the blob's end replaces the chunk by its old prefix plus the data, so the blob no longer holds the overwritten bytes |
| ChunkWriter.AlignedWriteDropsTail | fdbkit/blob.py:215-222 | an aligned write of fewer than `cs` bytes that ends before the blob's end stores the data as the whole chunk, so the result is not the layout of the overwritten bytes |
| ChunkWriter.WriteChunksAtMost | fdbkit/blob.py:199-218 | a successful write never leaves a chunk longer than `cs` in a store that had none |
| ChunkReader.ReadChunk | fdbkit/blob.py:128-167 | the `_read_chunk` loop returns exactly the bytes and cursor of the reference fold `Read` over the scanned chunks |
| ChunkReader.StepChunk | fdbkit/blob.py:147-165 | one pass of the loop body over chunk `(index, v)` gives the buffer, cursor, size and break of the reference step `Step` |
| ChunkReader.Read | fdbkit/blob.py:128-167 | reference definition of `_read_chunk`, with no contract of its own: it is stated by `ReadChunk` and the `ReadLayout*`, `ReadAdvances`, `ReadCursorNat`, `ReadAtMost` and `ReadNegative` lemmas |
| ChunkReader.Step | fdbkit/blob.py:147-165 | reference definition of one loop iteration, with no contract of its own: `StepChunk` computes it, and `RunSkip` and `RunStopped` state its skip and break cases |
| ChunkReader.Run | fdbkit/blob.py:143-165 | reference definition of the loop as a fold of `Step` over the scanned chunks, with no contract of its own: `ReadChunk` computes it |
| ChunkReader.ScanEnd | fdbkit/blob.py:133-139 | with a positive size the scan's last index is not below the cursor's chunk |
| ChunkReader.RunSkip | fdbkit/blob.py:149 | chunks that start after the cursor change nothing |
| ChunkReader.RunStopped | fdbkit/blob.py:164-165 | once the loop has broken out, later chunks change nothing |
| ChunkReader.ReadAdvances | fdbkit/blob.py:160 | with a size that is absent or not negative, the returned cursor is the input cursor plus the number of bytes returned |
| ChunkReader.ReadCursorNat | fdbkit/blob.py:124-125 | the returned cursor is never negative |
| ChunkReader.ReadAtMost | fdbkit/blob.py:153-156 | with a positive size `n` the read returns at most `n` bytes |
| ChunkReader.ReadLayoutAll | fdbkit/blob.py:138-167 | on a blob's layout a read with no size from `c` returns the bytes from `c` to the end (empty at or past the end) and the cursor after them |
| ChunkReader.ReadLayoutBounded | fdbkit/blob.py:133-167 | on a blob's layout a read of positive size `n` from `c` returns the bytes in `[c, c+n)` that exist, also when `c+n` is a chunk boundary, and the cursor after them |
| ChunkReader.ReadLayoutZero | fdbkit/blob.py:133-165 | on a blob's layout a read of size 0 returns only the bytes from `c` to the end of `c`'s chunk |
| ChunkReader.ReadNegative | fdbkit/blob.py:153-156 | with a negative size the read returns Python's `chunk[:size]` of the cursor's chunk and moves the cursor back by `-size` when that stays in the chunk, and otherwise nothing with the cursor unchanged |
| KitBlob.SizeOfLayout | fdbkit/blob.py:94-105 | the size of a blob's layout is the blob's length |
| KitBlob.SizeOfContents | fdbkit/blob.py:94-105 | the size of a well-formed blob is the length of its contents |
| KitBlob.SizeBounds | fdbkit/blob.py:94-105 | when no chunk exceeds `cs`, every chunk ends at or before the size |
| KitBlob.Size | fdbkit/blob.py:94-105 | an empty blob has size 0; otherwise the size is at least the base of the highest stored chunk |
| KitBlob.Clamp | fdbkit/blob.py:92 | the clamped position lies in `[0, size]`, equals a target inside it, and is 0 or `size` for a target below or above |
| KitBlob.SeekTarget | fdbkit/blob.py:83-90 | the target is absent exactly for an unsupported `whence`, and otherwise is the offset added to 0, the current cursor or the size |
| KitBlob.ClampNearest | fdbkit/blob.py:92 | the clamped position is the point of `[0, size]` nearest to the target |
| KitBlob.SeekCursor | fdbkit/blob.py:79-92 | `_seek` fails exactly for a `whence` other than 0, 1 and 2, with the unsupported-whence error, and otherwise returns a position in `[0, size]` |
| KitBlob.SeekCursorTarget | fdbkit/blob.py:83-92 | for `whence` 0, 1 or 2 the position is the offset from the start, the current cursor or the end, clamped into `[0, size]` |
| KitBlob.SeekThenRead | fdbkit/blob.py:77-92 | seeking to `p` in the layout of `s` and reading to the end returns `s` from `p` clamped to `[0, len(s)]` on |
| KitBlob.HasChunks | fdbkit/blob.py:38-40 | `exists` holds exactly when some chunk is stored under the key |
| KitBlob.HasChunksIffSize | fdbkit/blob.py:38-40 | a well-formed blob exists exactly when its size is positive |
| KitBlob.DeleteClears | fdbkit/blob.py:30-36 | after `delete` the blob does not exist and has size 0, and every other blob is unchanged |
| KitBlob.ReadWholeBlob | fdbkit/blob.py:22-24 | the manager's read of a well-formed blob returns its contents |
| KitBlob.WriteFromStart | fdbkit/blob.py:26-28 | the manager's write from offset 0 always succeeds, stores the data's slices from chunk 0 over the old chunks and returns the data's length |
| KitBlob.WriteThenRead | fdbkit/blob.py:22-28 | writing data into an empty blob lays it out canonically, and reading it back returns the data |
| KitBlob.OverwriteThenRead | fdbkit/blob.py:22-28 | over a well-formed blob no longer than the data, the write from 0 lays out the data and the read returns it |
| KitBlob.OverwriteKeepsTail | fdbkit/blob.py:26-28 | over a longer blob, whole-chunk data written from 0 leaves the data followed by the old bytes, and the read returns more than the data |
| KitBlob.BlobReader.constructor | fdbkit/blob.py:44-49 | a new handle keeps its database, key and chunk size, is open and has cursor 0 |
| KitBlob.BlobReader.Tell | fdbkit/blob.py:51-55 | returns the cursor and changes nothing |
| KitBlob.BlobReader.Close | fdbkit/blob.py:57-61 | the handle is closed and the cursor stays |
| KitBlob.BlobReader.Seek | fdbkit/blob.py:70-77 | a closed handle raises the closed error with the cursor unchanged; otherwise the cursor becomes `_seek`'s result, or stays unchanged when `_seek` raises |
| KitBlob.BlobReader.Read | fdbkit/blob.py:120-126 | a closed handle raises with the cursor unchanged; otherwise it returns the bytes of `_read_chunk` and moves the cursor to its returned cursor |
| KitBlob.BlobWriter.constructor | fdbkit/blob.py:44-49 | a new handle keeps its database, key and chunk size, is open and has cursor 0 |
| KitBlob.BlobWriter.Tell | fdbkit/blob.py:51-55 | returns the cursor and changes nothing |
| KitBlob.BlobWriter.Close | fdbkit/blob.py:57-61 | the handle is closed and the cursor stays |
| KitBlob.BlobWriter.Seek | fdbkit/blob.py:70-77 | as for the reader: closed error or `_seek`'s result, with the cursor unchanged on any error |
| KitBlob.BlobWriter.Write | fdbkit/blob.py:175-180 | a closed handle raises with nothing changed; otherwise a successful `_write` stores the blob's new chunks, leaves other blobs alone and moves the cursor, and a failed one changes nothing |
| KitBlob.BlobManager.constructor | fdbkit/blob.py:11-14 | the manager keeps its database and chunk size; called without a chunk size it uses `DEFAULT_CHUNK_SIZE`, 10240 bytes (`fdbkit/blob.py:7`) |
| KitBlob.BlobManager.GetReader | fdbkit/blob.py:16-17 | a fresh open reader on the key at cursor 0 |
| KitBlob.BlobManager.GetWriter | fdbkit/blob.py:19-20 | a fresh open writer on the key at cursor 0 |
| KitBlob.BlobManager.Read | fdbkit/blob.py:22-24 | returns what a whole read from offset 0 returns |
| KitBlob.BlobManager.Write | fdbkit/blob.py:26-28 | the blob's chunks become its old chunks overlaid with the data's slices from chunk 0 |
| KitBlob.BlobManager.Delete | fdbkit/blob.py:30-36 | the store loses exactly the entries of the blob's key range |
| KitBlob.BlobManager.Exists | fdbkit/blob.py:38-40 | returns whether the blob has a chunk |
| FsBlob.ChunkAtCursorLayout | fdbfs/blob.py:34-37 | on a blob's layout the single-chunk read finds a value exactly when the cursor is not negative and its chunk starts inside the blob, and the value is that whole chunk, whatever the in-chunk offset |
| FsBlob.ChunkAtCursor | fdbfs/blob.py:34-37 | no value for a negative cursor; a value is the stored chunk at the cursor's index, which holds the cursor's offset |
| FsBlob.BlobReader.constructor | fdbfs/blob.py:25-29 | a new reader keeps its database, key and chunk size and has cursor 0 |
| FsBlob.BlobReader.Read | fdbfs/blob.py:31-37 | returns the raw value at index `cursor / cs` (absent when no chunk is stored there), ignores `size` and leaves the cursor |
| FsBlob.BlobReader.Seek | fdbfs/blob.py:39-40 | the cursor becomes the argument, unclamped |
| FsBlob.BlobReader.Tell | fdbfs/blob.py:42-43 | returns the cursor and changes nothing |
| FsBlob.BlobWriter.constructor | fdbfs/blob.py:53-58 | a new writer keeps its database, key and chunk size and has cursor 0 |
| FsBlob.BlobWriter.Write | fdbfs/blob.py:59-105 | the same transaction as fdbkit's `_write`, from the cursor, with the same store and cursor afterwards and no closed check |
| FsBlob.BlobWriter.Tell | fdbfs/blob.py:110-111 | returns the cursor and changes nothing |
| BlobScenarios.WriteFirst | tests/test_blob.py:18-19 | with chunk size 4, writing "abcd" into an empty blob lays out "abcd" and returns cursor 4 |
| BlobScenarios.WriteSecond | tests/test_blob.py:20-25 | writing "efg" at 4 then lays out "abcdefg" with cursor 7, and the fdbkit read from 0 returns "abcdefg" |
| BlobScenarios.SeekRead | tests/test_blob.py:27-38 | on "abcdefg", seeking to 4 and 2 lands there, and the fdbkit reads return "efg" and "cdefg" |
| BlobScenarios.OverwriteShorter | fdbkit/blob.py:26-28 | writing "wxyz" from 0 over "abcdefg" leaves "wxyzefg", and the read from 0 returns "wxyzefg", not "wxyz" |
| BlobScenarios.FsReadsOneChunk | tests/test_blob.py:24-25 | the fdbfs reader returns "abcd" from offsets 0 and 2 and "efg" from 4, not "abcdefg" or "cdefg" |

## Left out

- FoundationDB itself is not modelled: transactions, conflict retries, `fdb.open` and the directory layer. Each `@fdb.transactional` body is one atomic function on a snapshot of the store, and the database is one map that a transaction replaces.
- The tuple-layer encoding (`pack`/`unpack`) becomes a `(blob key, index)` pair. `KeySelector.first_greater_than` becomes an inclusive upper index of the scan.
- `BytesIO` and `buffer` become byte sequences and slices. Python's `str` data becomes `seq<byte>`.
- `math.ceil(float(len) / chunk_size)` is exact integer ceiling division (`ChunkCodec.CeilDiv`). Float rounding for lengths beyond 2^53 is not modelled.
- `read`'s `size` is an optional integer. Non-integer sizes, and Python truthiness of other types, are not modelled.
- The chunk size is a positive `ChunkSize`. The source does not check it, and a size of 0 would raise a division error on the first read or write.
- `__enter__`/`__exit__` are not modelled. The manager's `read` and `write` call `Close` directly.
- The `closed` property is the `closed` field of the handle classes.
- fdbkit's `BlobManager.write` returns the writer's result, which is always `None`. `KitBlob.BlobManager.Write` returns nothing.
- fdbfs's `BlobManager` is not modelled: its `get_reader` and `get_writer` are stubs that return `None`.
- fdbfs's `BlobReader.close`, `BlobWriter.seek` and `BlobWriter.close` do nothing, so no member models them.
- Concurrent handles and interleaved transactions are not modelled. The source says it is not thread-safe.
- The repository's tests need a live database. Only their expected values appear here, in `BlobScenarios`.
- ChunkReader.ReadAtMost: stated only for stores whose chunks hold at most `cs` bytes.
  - `ChunkWriter.WriteChunksAtMost` shows that every write keeps this.
  - With a longer chunk, a cut piece can leave the cursor inside the next chunk, and the read can return more than `size` bytes.
- KitBlob.WriteThenRead: states the round trip only into an empty blob. `KitBlob.OverwriteThenRead` proves it over a well-formed blob no longer than the data; over a longer blob it does not hold, as `KitBlob.OverwriteKeepsTail` and `BlobScenarios.OverwriteShorter` show.
- ChunkReader.ReadLayoutAll, ReadLayoutBounded and ReadLayoutZero describe reads over the canonical layout, and so over well-formed blobs. `ReadAdvances`, `ReadCursorNat`, `ReadNegative` and `ReadAtMost` cover any store.

## Findings

| source | as written | input that shows it | evidently intended | confidence | as-written member | corrected member |
|---|---|---|---|---|---|---|
| fdbfs/blob.py:31-37 | `read` returns the single stored chunk at index `cursor / chunk_size`, whatever the in-chunk offset and the blob's later chunks | chunk size 4: two writes "abcd" and "efg", then `read()` from 0 returns "abcd"; after writing "abcdefg", `seek(2)` then `read()` returns "abcd" | the bytes from the cursor to the end, "abcdefg" and "cdefg", which tests/test_blob.py:25 and :38 expect and fdbkit's reader returns | medium, not executed | FsBlob.ChunkAtCursor, shown by BlobScenarios.FsReadsOneChunk | ChunkReader.Read, proved by ChunkReader.ReadLayoutAll and BlobScenarios.SeekRead |
