# axio buffered I/O core, modelled in Dafny

This project models the buffering core of `axio`, a `no_std` I/O crate.
It covers these parts:

- the read-side window `Buffer` with its `pos`, `filled` and `initialized` watermarks;
- `BufReader`, a reader with a fixed 1024-byte window in front of an inner reader;
- the `BufRead` scans `has_data_left`, `skip_until` and `read_until`, and the `Split` and `Lines` iterators;
- the chunked transfers `Buf::consume` and `BufMut::fill`, which go through a 4096-byte scratch region;
- the two write-side staging buffers (array and `Vec`);
- `Read for &[u8]`, which is the inner reader throughout.

Each part that changes state in place is a Dafny class. Its arrays and fields are
updated by methods with `modifies` clauses. Each method is proved against a
specification stated on values: a function of the old state, or the stream of
bytes still to be delivered (`Unread()`). The properties the source promises are
proved about those specifications as lemmas and as `ensures` clauses.

Files:

- `io_types.dfy` (module `IoTypes`): bytes, the error kinds, `Result` and `Option`, and the first-occurrence search that stands in for `memchr`.
- `slice_reader.dfy` (`SliceRead`): `Read for &[u8]`.
- `read_buffer.dfy` (`ReadBuffer`): src/buffered/bufreader/buffer.rs.
- `buf_reader.dfy` (`BufReading`): src/buffered/bufreader.rs.
- `buf_read.dfy` (`BufReadScans`): src/read/bufread.rs.
- `chunked.dfy` (`Chunked`): src/buf.rs.
- `write_stage.dfy` (`WriteStage`): src/buffered/bufwriter/buffer_array.rs and buffer_vec.rs.

## Model

| member | source | states |
|---|---|---|
| IoTypes.IndexOf | src/read/bufread.rs:29-32 | The `memchr` search: None exactly when the byte does not occur. Otherwise it is the index of the first occurrence. |
| SliceRead.SliceReader.Read | src/impls.rs:14-30 | Copies `min(len, remaining)` bytes, which are the front of the slice. Leaves the rest of the destination alone and advances the slice past the copied bytes. Returns 0 exactly when the destination or the slice is empty. The single-byte branch has the same effect as the general copy. |
| SliceRead.SliceReader.ReadExact | src/impls.rs:48-66 | Fails with UnexpectedEof exactly when the request exceeds the slice, and then changes nothing. Otherwise it fills the destination with the front of the slice and advances past it. |
| SliceRead.SliceReader.ReadToEnd | src/impls.rs:37-42 | Appends the whole slice, returns its length and leaves the slice empty. |
| ReadBuffer.Discarded | src/buffered/bufreader/buffer.rs:86-90 | Sets `pos` and `filled` to 0, so the window is empty and the next `read_more` appends at offset 0. Keeps the region, its written flags and `initialized`, and keeps the invariant. |
| ReadBuffer.Consumed | src/buffered/bufreader/buffer.rs:92-95 | Drops `amt` bytes of the window, or all of it when `amt` is larger. Nothing else changes and the invariant holds. |
| ReadBuffer.ClaimOf | src/buffered/bufreader/buffer.rs:97-112 | Succeeds exactly when `amt` fits the window. On success the visitor sees the first `amt` window bytes and `pos` advances by `amt`. On failure the state is unchanged. |
| ReadBuffer.Unconsumed | src/buffered/bufreader/buffer.rs:114-117 | `pos` moves back by `amt`, saturating at 0. The re-exposed bytes come back in front of the window. The region, its written flags, `filled` and `initialized` are kept. |
| ReadBuffer.ReadMoreResult | src/buffered/bufreader/buffer.rs:119-130 | `pos` is kept and `initialized` never drops. On success the window grows by exactly the bytes the reader produced. On error the window is unchanged, because the `?` returns before the fields are updated. |
| ReadBuffer.FillResult | src/buffered/bufreader/buffer.rs:139-166 | A non-empty window is returned without reading. Otherwise `pos = 0`, `filled` is the bytes read and `initialized` is the reader's initialized length, which is never lower. These watermarks are committed before an error is returned. The invariant holds. |
| ReadBuffer.FillBufIdempotent | src/buffered/bufreader/buffer.rs:139-166 | A second `fill_buf` after one that returned data changes nothing and returns the same bytes, whatever the reader would do. |
| ReadBuffer.ShiftDown | src/buffered/bufreader/buffer.rs:134 | `copy_within(pos.., 0)`: each byte from `pos` on moves down by `pos`, and the last `pos` slots keep their contents. |
| ReadBuffer.BackshiftedAsWritten | src/buffered/bufreader/buffer.rs:132-137 | `backshift` as written: `pos` becomes 0, the window's bytes now start at offset 0 (the window is unchanged), and `initialized` is kept. |
| ReadBuffer.BackshiftAsWrittenBreaksInvariant | src/buffered/bufreader/buffer.rs:132-137 | A concrete well-formed buffer whose as-written `backshift` breaks the "bytes below `initialized` are initialized" invariant. |
| ReadBuffer.Backshifted | src/buffered/bufreader/buffer.rs:132-137 | Corrected `backshift`: the window is unchanged, `pos = 0`, `initialized` drops by `pos`, and the invariant holds. |
| ReadBuffer.Buffer.WithCapacity | src/buffered/bufreader/buffer.rs:44-54 | A new buffer of the given capacity with all watermarks at 0 and no byte written yet. |
| ReadBuffer.Buffer.Buffered | src/buffered/bufreader/buffer.rs:56-65 | `buffer()` is the unread window `[pos, filled)`. |
| ReadBuffer.Buffer.DiscardBuffer | src/buffered/bufreader/buffer.rs:86-90 | The new state is `Discarded` of the old one. |
| ReadBuffer.Buffer.Consume | src/buffered/bufreader/buffer.rs:92-95 | The new state is `Consumed` of the old one. |
| ReadBuffer.Buffer.ConsumeWith | src/buffered/bufreader/buffer.rs:97-112 | The result, the slice claimed and the new state are `ClaimOf` of the old state. |
| ReadBuffer.Buffer.Unconsume | src/buffered/bufreader/buffer.rs:114-117 | The new state is `Unconsumed` of the old one. |
| ReadBuffer.Buffer.ReadMore | src/buffered/bufreader/buffer.rs:119-130 | Writes the reader's bytes into the array tail. The result and the new state are `ReadMoreResult` of the old state. |
| ReadBuffer.Buffer.Backshift | src/buffered/bufreader/buffer.rs:132-137 | Moves the bytes down in the array. The new state is `Backshifted` (the corrected form) of the old one. |
| ReadBuffer.Buffer.FillBuf | src/buffered/bufreader/buffer.rs:139-166 | Writes the reader's bytes into the array. The result and the new state are `FillResult` of the old state. |
| BufReading.ExactAsWritten | src/buffered/bufreader.rs:106-114 | `read_exact` as written. A request that fits the window is served from the front of the stream. A longer request that fits the inner reader is served from the inner reader, which loses exactly those bytes, and leaves the window in place. It fails only when neither holds, and then changes nothing. The fast path leaves the inner reader untouched. |
| BufReading.ReadExactAsWrittenReorders | src/buffered/bufreader.rs:106-114 | Window `[1]` over inner `[2, 3]` with a 2-byte request delivers the stream as 2, 3, 1. |
| BufReading.ExactInOrder | src/buffered/bufreader.rs:101-114 | Corrected `read_exact`: it succeeds exactly when the window plus the inner reader hold enough bytes. On success the bytes delivered are the front of the stream. |
| BufReading.BufReader.constructor | src/buffered/bufreader.rs:32-39 | A new reader has an empty window, so its stream is the inner reader's bytes. |
| BufReading.BufReader.Buffered | src/buffered/bufreader.rs:58-60 | `buffer()` is the front of the stream: the window followed by the inner reader's bytes is exactly `Unread()`. It holds at most 1024 bytes. |
| BufReading.BufReader.IsEmpty | src/buffered/bufreader.rs:77-79 | True exactly when the window is empty. |
| BufReading.BufReader.DiscardBuffer | src/buffered/bufreader.rs:72-75 | Empties the window. |
| BufReading.BufReader.FillBuf | src/buffered/bufreader.rs:166-173 | Never changes the stream. Returns an empty window exactly at end of stream. It reads only when the window is empty, and then reads `min(1024, remaining)` bytes into it. |
| BufReading.BufReader.Consume | src/buffered/bufreader.rs:176-178 | `pos = min(pos + amt, filled)`. The stream loses exactly the bytes dropped from the window. |
| BufReading.BufReader.Read | src/buffered/bufreader.rs:85-99 | The bytes delivered are the front of the stream, in order. Returns 0 exactly when the destination is empty or the stream is exhausted. The bypass, copy-from-window and fill-then-copy cases each give their exact count. |
| BufReading.BufReader.ReadBypassing | src/buffered/bufreader.rs:89-92 | An empty window with a destination of at least 1024 bytes: the window is discarded and the inner reader serves the request. |
| BufReading.BufReader.ReadThroughWindow | src/buffered/bufreader.rs:93-98 | Fill-then-copy: the delivered bytes are the front of the stream. The window and the inner reader afterwards are as stated per case. |
| BufReading.BufReader.CopyOut | src/buffered/bufreader.rs:94-97 | `rem.read(buf)` followed by `consume(nread)`: copies `min(len, window)` window bytes and drops exactly those from the window. |
| BufReading.BufReader.ReadExact | src/buffered/bufreader.rs:106-114 | The reader's array implementation follows `ExactAsWritten`. |
| BufReading.BufReader.ReadExactInOrder | src/buffered/bufreader.rs:101-114 | The corrected method follows `ExactInOrder`. |
| BufReading.BufReader.ReadToEnd | src/buffered/bufreader.rs:120-126 | Appends the whole stream (window, then inner reader) and returns its length. Leaves both empty. |
| BufReading.ReadSmallScenario | src/buffered/bufreader.rs:239-255 | Reading "hello world" into a 5-byte array returns 5, 5, 1 and then 0, and the bytes come out as "hello world". |
| BufReading.ReadExactUnbuffered | src/buffered/bufreader.rs:106-113 | With an empty window, `read_exact` of `len` bytes is the inner reader's `read_exact`: it fails with UnexpectedEof exactly when fewer than `len` bytes remain, and then consumes nothing. The window stays empty. |
| BufReading.ReadExactScenario | src/buffered/bufreader.rs:268-286 | `read_exact` of 5, 5, 1 and 1 bytes on "hello world" gives "hello", " worl" and "d", then UnexpectedEof. |
| BufReadScans.UntilDelim | src/read/bufread.rs:44-66 | What one delimiter scan consumes: a prefix of the stream, empty only for an empty stream. It ends at the first delimiter, or is the whole stream when there is none. |
| BufReadScans.UntilDelimAt | src/read/bufread.rs:29-30 | A delimiter at `k` with none before it ends the scan at `k + 1`. |
| BufReadScans.HasDataLeft | src/read/bufread.rs:19-21 | True exactly when the stream is not exhausted. The stream is unchanged. |
| BufReadScans.ScanRound | src/read/bufread.rs:26-38 | One loop round: consumes the next bytes of the stream. It either reaches the end of the scan or consumes a non-empty, delimiter-free run. |
| BufReadScans.ScanWindow | src/read/bufread.rs:29-34 | Within a filled window: consumes through the first delimiter, or the whole window. |
| BufReadScans.ScanStep | src/read/bufread.rs:29-38 | The stop rule `done or used == 0` is reached exactly at the first delimiter or at end of stream. |
| BufReadScans.ScanFound | src/read/bufread.rs:29-30 | A delimiter found in the window is the first delimiter of the whole scan. |
| BufReadScans.SkipUntil | src/read/bufread.rs:24-40 | Consumes and counts exactly `UntilDelim` of the stream. |
| BufReadScans.ReadUntil | src/read/bufread.rs:44-66 | Appends exactly the bytes consumed, which are `UntilDelim` of the stream, and returns their number. |
| BufReadScans.StripDelim | src/read/bufread.rs:121-123 | Removes one trailing delimiter if present, and only that. |
| BufReadScans.SplitRecord | src/read/bufread.rs:116-128 | A `split` record never contains the delimiter. Putting back the removed delimiter gives exactly the bytes consumed. |
| BufReadScans.SplitNext | src/read/bufread.rs:116-128 | None exactly at end of stream. Otherwise it returns the next record without its delimiter and consumes through that delimiter. |
| BufReadScans.StripLineEnding | src/read/bufread.rs:152-157 | Removes a trailing `\n`, and then a `\r` before it. Nothing is removed without a trailing `\n`, and a lone `\r` stays. |
| BufReadScans.LineHasNoNewline | src/read/bufread.rs:147-162 | A line from `lines` contains no `\n`. A line ending is removed exactly when the stream had a `\n`. |
| BufReadScans.LinesNext | src/read/bufread.rs:147-162 | None exactly at end of stream. Otherwise it returns the next line without its line ending and consumes through the `\n`. |
| Chunked.Pull | src/buf.rs:10-27 | The rounds of `Buf::consume` never read past `remaining()`. |
| Chunked.PullRound | src/buf.rs:15-24 | One round ends with the step's error, ends on a short acceptance, or continues with a full chunk. |
| Chunked.PullOffersWhatItReads | src/buf.rs:14-25 | The chunks offered to the step are exactly the bytes read from the endpoint, in order. |
| Chunked.PullBounds | src/buf.rs:14-26 | Every chunk is non-empty and at most 4096 bytes. The count returned is at most the bytes read. |
| Chunked.PullAcceptingAll | src/buf.rs:10-27 | A step that accepts everything moves all `remaining()` bytes and returns that count. |
| Chunked.Consume | src/buf.rs:10-27 | The loop returns what `Pull` returns and leaves the endpoint advanced by exactly the bytes `Pull` reads. |
| Chunked.ConsumeRound | src/buf.rs:15-24 | One round either ends the loop with `Pull`'s result, or advances `count` and keeps the rest of the pull unchanged. |
| Chunked.PushBounds | src/buf.rs:33-50 | `fill` never writes more than `remaining_mut()`, and no chunk exceeds 4096 bytes. A successful count equals the bytes written. |
| Chunked.PushEnds | src/buf.rs:38-42 | A round that stops, on zero room or on an error, writes nothing more. |
| Chunked.PushRound | src/buf.rs:42-47 | A short chunk ends the push. A full chunk continues it with the same outcome. |
| Chunked.Fill | src/buf.rs:33-50 | The loop returns what `Push` returns and writes exactly `Push`'s chunks to the sink, in order. |
| Chunked.FillRound | src/buf.rs:38-47 | One round either ends the loop with `Push`'s result, or advances `count` with the rest of what is owed unchanged. |
| Chunked.Emit | src/buf.rs:44 | `self.write(&buf[..written])` appends exactly the produced bytes to the sink. |
| WriteStage.Drain | src/buffered/bufwriter/buffer_vec.rs:49-51 | Removing `amt` pending bytes fails exactly when fewer are pending. Otherwise the removed prefix and what is left give back the pending bytes. |
| WriteStage.DrainTwice | src/buffered/bufwriter/buffer_vec.rs:49-51 | Two consumes compose into one of the summed amount. |
| WriteStage.FixedBuffer.New | src/buffered/bufwriter/buffer_array.rs:12-17 | Starts empty with capacity `DEFAULT_BUF_SIZE`. |
| WriteStage.FixedBuffer.AsSlice | src/buffered/bufwriter/buffer_array.rs:35-37 | `as_slice()` is the front of the array: the pending bytes sit at offsets `0..len` and fit in the array. |
| WriteStage.FixedBuffer.Len | src/buffered/bufwriter/buffer_array.rs:20-22 | `len()` is the length of `as_slice()` and at most the capacity. |
| WriteStage.FixedBuffer.Capacity | src/buffered/bufwriter/buffer_array.rs:25-27 | The capacity is never below `len()`. |
| WriteStage.FixedBuffer.SpareCapacity | src/buffered/bufwriter/buffer_array.rs:30-32 | `len() + spare_capacity() == capacity()`, so the subtraction cannot wrap. |
| WriteStage.FixedBuffer.SetLen | src/buffered/bufwriter/buffer_array.rs:40-42 | With `n <= capacity`, `len()` becomes `n` and the contents are untouched. |
| WriteStage.FixedBuffer.Consume | src/buffered/bufwriter/buffer_array.rs:45-52 | Panics exactly when `amt > len()`, and then changes nothing. Otherwise the forward shift loop leaves `as_slice()` equal to `Drain` of the old slice. Slots past the new `len()` keep their bytes. |
| WriteStage.FixedBuffer.MoveDown | src/buffered/bufwriter/buffer_array.rs:48-50 | The copy loop moves the `count` bytes at offset `amt` down to offset 0 without clobbering any byte still to be moved. Every slot from `count` on keeps its old byte. |
| WriteStage.GrowBuffer.WithCapacity | src/buffered/bufwriter/buffer_vec.rs:12-16 | Starts empty with the requested capacity. |
| WriteStage.GrowBuffer.New | src/buffered/bufwriter/buffer_vec.rs:19-21 | `with_capacity(DEFAULT_BUF_SIZE)`. |
| WriteStage.GrowBuffer.AsSlice | src/buffered/bufwriter/buffer_vec.rs:39-41 | `as_slice()` is a prefix of the allocation: the pending bytes sit at its front. |
| WriteStage.GrowBuffer.Len | src/buffered/bufwriter/buffer_vec.rs:24-26 | `len()` is the length of `as_slice()` and at most the capacity. |
| WriteStage.GrowBuffer.Capacity | src/buffered/bufwriter/buffer_vec.rs:29-31 | The capacity is never below `len()`. |
| WriteStage.GrowBuffer.SpareCapacity | src/buffered/bufwriter/buffer_vec.rs:34-36 | `len() + spare_capacity() == capacity()`. |
| WriteStage.GrowBuffer.SetLen | src/buffered/bufwriter/buffer_vec.rs:44-46 | With `n <= capacity`, `len()` becomes `n` and the allocation is untouched. |
| WriteStage.GrowBuffer.Consume | src/buffered/bufwriter/buffer_vec.rs:49-51 | `drain(..amt)` panics exactly when `amt > len()`, and then changes nothing. Otherwise the pending bytes become `Drain` of the old ones and the capacity is kept. |

## Left out

- `read_to_string` and `read_line` validate UTF-8 and are not modelled. `Lines::next` is modelled on bytes. Its `\n` and `\r` pops act on bytes exactly as on the string.
- Errors and short reads of the inner reader of `BufReader` are not modelled. The inner reader is the byte-slice reader, which never fails and always delivers `min(len, remaining)` bytes. `BufReader<R>` accepts any reader, so the properties below are not stated. `fill_buf` and `read_more` of the window `Buffer` do model reader errors, through the `ReadBufOutcome` parameter.
- BufReading.BufReader.FillBuf: does not state that an inner-reader error returns before `pos` and `filled` are assigned (src/buffered/bufreader.rs:168-170). Its "reads `min(1024, remaining)` bytes" holds for the byte-slice reader only; another reader may deliver fewer.
- BufReading.BufReader.Read: does not state that an inner-reader error is passed through to the caller (src/buffered/bufreader.rs:91 and 94-95).
- BufReadScans.SkipUntil: does not state that a failing `fill_buf` in a later round returns the error with the earlier rounds' bytes already consumed (src/read/bufread.rs:28).
- BufReadScans.ReadUntil: does not state that a failing `fill_buf` in a later round returns the error with the earlier rounds' bytes already consumed and appended to `buf` (src/read/bufread.rs:48).
- ReadBuffer.Consumed: `pos + amt` is unbounded in the model. In the source it is a `usize` sum (src/buffered/bufreader/buffer.rs:94), which panics in debug builds and wraps in release builds for `amt` near `usize::MAX`, where `min` can then move `pos` backwards. No caller in the modelled core passes such an `amt`.
- BufReading.BufReader.Consume: same as `ReadBuffer.Consumed`: the `usize` overflow of `self.pos + amt` (src/buffered/bufreader.rs:177) is not modelled, and the model clamps to `filled` instead.
- `BorrowedBuf`, `MaybeUninit` and `read_buf` are not modelled as code. A reader's effect is the `ReadBufOutcome` parameter, constrained by `ObeysReadBuf`. Initialization is tracked by ghost per-byte flags.
- Raw accessors of the read side are not modelled, because they hold no logic: `get_ref`, `get_mut` and `into_inner` of `BufReader`; `Buffer::capacity` (src/buffered/bufreader/buffer.rs:67-70) and `BufReader::capacity` (src/buffered/bufreader.rs:63-65); and `filled`, `pos`, `initialized`, `as_mut_ptr` and `spare_capacity_mut`. The write-side `capacity` of both staging buffers is modelled.
- The crate-wide `DEFAULT_BUF_SIZE` is generated at build time and is not part of this model. Constructors that use it take the size as a parameter. `BufReader`'s own 1024 is modelled as a constant.
- The `BufWriter` wrapper is not part of this model. Only its two staging buffers are.
- Chunked.Consume: the step must accept at most the chunk it was offered. The source does not check this. A step that claims more pushes `count` ahead of the bytes actually read, and the loop goes on from there (size 10000, first step claims 5000 of 4096 offered). Once `count` passes `size`, `size - count` underflows. None of this is modelled.
- Chunked.Fill: the step must produce at most `len` bytes. The source does not check this. `buf` is the 4096-byte scratch region, so `buf[..written]` panics only when `written` exceeds 4096. On a short last round (`len < 4096`), a step that returns `len < written <= 4096` makes the source write stale scratch bytes, and the next round's `size - count` underflows. None of this is modelled. The step's writes into the scratch region are modelled as the bytes it returns.
- Chunked.Fill: the endpoint is a sink with `room` bytes that takes every write in full. A writer that accepts fewer bytes than offered is not modelled, although the source ignores the count `write` returns. Write errors are not modelled either.
- Chunked.Consume: the endpoint is the byte-slice reader, which always delivers the `len` bytes asked for. The source does not check the count `read` returns.
- Step closures (`FnMut`) are modelled as pure functions of the count so far and the chunk, so a closure's private state is not modelled.
- WriteStage.FixedBuffer.Consume and WriteStage.GrowBuffer.Consume return a panic as a flag instead of aborting. The source panics before changing anything, which the flag case states.
- WriteStage.FixedBuffer.Consume: the source marks moved-from slots as uninitialized. The model does not track initialization of the staging array, because nothing reads past `len()`.
- WriteStage.GrowBuffer.WithCapacity: `Vec::with_capacity` may allocate more than requested. The model allocates exactly the requested capacity.
- `debug_assert!(self.pos == self.filled)` in `fill_buf` is not modelled. The `>=` branch is modelled as written.

## Findings

| source | as written | input that shows it | evidently intended | confidence | as-written member | corrected member |
|---|---|---|---|---|---|---|
| src/buffered/bufreader/buffer.rs:132-137 | `backshift` moves the bytes from `pos` down to 0 but leaves `initialized` unchanged. The slots `[initialized - pos, min(initialized, capacity - pos))` then hold bytes moved from beyond the old `initialized`, which were never written. Slots from `capacity - pos` on are not touched by the move and keep their own bytes. | region of 2 bytes, byte 0 written, `pos = filled = initialized = 1`: after `backshift`, `initialized` is 1 but byte 0 now holds the never-written byte 1 | lower `initialized` by `pos` together with `filled`, keeping "bytes below `initialized` are initialized" | not executed | ReadBuffer.BackshiftAsWrittenBreaksInvariant | ReadBuffer.Backshifted |
| src/buffered/bufreader.rs:106-114 | when the window holds fewer bytes than requested, `read_exact` calls the inner reader's `read_exact` directly. The buffered bytes are skipped and later delivered after bytes that followed them. | window `[1]`, inner reader `[2, 3]`, request of 2 bytes: the request gets `[2, 3]` and the next read gets `1` | serve the window first and ask the inner reader only for the rest, as the doc comment at line 101 says | not executed | BufReading.ReadExactAsWrittenReorders | BufReading.ExactInOrder |
