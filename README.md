# rust_microbenches: chunked readers and small maps, modelled in Dafny

This project models the logic in two of the benchmark files of the
`rust_microbenches` repository. Criterion times it; the model reasons about
it.

- **`benches/read_file_bench/utils.rs`**: four ways of pulling a file through
  a fixed-size buffer.
  - The `read_with_buf!` macro validates each chunk it reads with
    `from_utf8` and optionally drains its chars.
  - `CharReader1` and `CharReader2` are char iterators.
  - `ByteReader` is a byte iterator.
  - `consume` drains an iterator.

  The file is replaced by a *script*: the results its successive `read`
  calls return, each `Ok` with some bytes (never more than the buffer
  offered) or an error. Once the script is used up, every further read
  returns `Ok(0)`.
- **`benches/small_map_bench.rs`**:
  - `get_input` draws distinct chars from a 63-char alphabet.
  - `bench_find` fills a `Vec<(char, u32)>`, a `HashMap` and an `FxHashMap`
    from the same pairs and looks chars up in each.
  - `bench_add` builds the `Vec` by insert-if-absent and builds the two maps
    by `insert`.

  Both hash maps are modelled as a Dafny `map`.

UTF-8 is modelled as RFC 3629 defines it.
- Section 4 gives the octet syntax that decides well-formedness.
- Section 3 gives the bit layout that decoding follows.
- `Utf8Error::valid_up_to` is the length of the longest well-formed prefix.

The model follows the code as written. Three facts about that code shape it.
- **The carry never happens.** `MAX_PENDING_BYTES` and `pending_bytes`
  (utils.rs:7-11, 19-26 and 74-81) are there to carry an incomplete
  character, at most 4 bytes, at the end of one chunk over to the front of
  the next. The comment at utils.rs:9-10 already doubts that this is right.
  The code measures `valid_up_to` from the start of the fresh bytes, so
  `u.len() - valid_up_to` is always more than 4. The carry branch is never
  taken, `pending_bytes` stays 0, and the copy loop never runs. Its first
  step would index one past the end of the buffer.
  - In `read_with_buf!`, a character cut by a read boundary makes `unwrap`
    panic. This is proved in `ReadWithBuf.SplitCharPanics`.
  - In `CharReader1`, the same character gives `Err` twice. This is proved
    in `CharReader1.SplitCharErrs`.
- **An `Err` item is not terminal.** The iterators turn a failed read (and,
  in `CharReader1`, a chunk that is not well formed) into Some(Err(())), and
  the next call of `next` reads again. `consume` keeps pulling; only a read
  of 0 bytes ends the iteration. `read_with_buf!`, by contrast, returns the
  first read error through `?`.
- **A read of 0 bytes just ends the loop.** At `n == 0` the macro breaks and
  the iterators return None, whatever the chunk before ended with.

Modules, one per file:

| file | module | models |
|---|---|---|
| `wrappers.dfy` | `Wrappers` | `Option`, `Result` |
| `utf8.dfy` | `Utf8` | RFC 3629 well-formedness, `valid_up_to`, `from_utf8`, `str::chars`, and encoding as decoding's inverse |
| `byte_source.dfy` | `ByteSource` | the scripted stream, `read` into a buffer slice, and the spans of a script up to its first error or its end |
| `carry.dfy` | `Carry` | the `from_utf8` + carry test shared by `read_with_buf!` and `CharReader1::next` |
| `items.dfy` | `Items` | what one call of `next` returns (None, `Ok`, `Err`, or a panic) and the `Ok` values and the number of `Err`s of a sequence of calls |
| `read_with_buf.dfy` | `ReadWithBuf` | the macro's loop |
| `char_reader1.dfy` | `CharReader1` | `CharReader1` and `consume` over it |
| `buffered.dfy` | `Buffered` | the state and the `read_into_buf` shared by `CharReader2` and `ByteReader` |
| `char_reader2.dfy` | `CharReader2` | `CharReader2` and `consume` over it |
| `byte_reader.dfy` | `ByteReader` | `ByteReader` and `consume` over it |
| `small_map.dfy` | `SmallMap` | `SIZES`, `get_input`, the fill loop and the lookups of `bench_find`, and the insert loops of `bench_add` |

Each iterator follows the same pattern.
- `Step` is a function giving the result and new state of one call of
  `next`.
- The class's `Next` method updates the fields in place and is proved equal
  to `Step` of the old state.
- `Drain` is the sequence of results that `consume`'s `for` loop pulls.
- `Consume` is the loop itself, proved equal to `Drain`.
- Lemmas then state what a full drain yields.

## Model

| member | source | states |
|---|---|---|
| `Utf8.ValidUpTo` | benches/read_file_bench/utils.rs:21 | the greedy parse of a slice reaches at most its length |
| `Utf8.ValidUpToIsLongestPrefix` | benches/read_file_bench/utils.rs:21-23 | `valid_up_to` is the length of the longest well-formed prefix: that prefix is well formed, and no longer prefix is |
| `Utf8.WellFormedIffValidToEnd` | benches/read_file_bench/utils.rs:19-20 | a slice is well formed exactly when `valid_up_to` would be its whole length |
| `Utf8.FromUtf8` | benches/read_file_bench/utils.rs:19 | `from_utf8` succeeds exactly on well-formed slices and returns the same bytes as a `str`; a failure reports a `valid_up_to` below the length that is the longest well-formed prefix |
| `Utf8.Decode` | benches/read_file_bench/utils.rs:29 | `str::chars` yields no more chars than there are bytes, and none exactly for the empty `str` |
| `Utf8.EncodeCharRoundTrip` | benches/read_file_bench/utils.rs:29 | every char's UTF-8 encoding is one well-formed UTF8-char that decodes back to the char |
| `Utf8.DecodeCharRoundTrip` | benches/read_file_bench/utils.rs:29 | decoding one UTF8-char and encoding the result gives the same octets |
| `Utf8.EncodeRoundTrip` | benches/read_file_bench/utils.rs:29 | encoding any string gives a well-formed slice whose chars are that string |
| `Utf8.DecodeRoundTrip` | benches/read_file_bench/utils.rs:29 | encoding the chars of a well-formed slice gives back the slice |
| `Utf8.ConcatWellFormed` | benches/read_file_bench/utils.rs:19 | two well-formed slices put together form a well-formed slice |
| `Utf8.DecodeConcat` | benches/read_file_bench/utils.rs:29 | the chars of two well-formed slices put together are the chars of the first, then those of the second |
| `Utf8.SuffixWellFormed` | benches/read_file_bench/utils.rs:19 | what follows a well-formed prefix of a well-formed slice is well formed |
| `Utf8.SplitCharHeadNotWellFormed` | benches/read_file_bench/utils.rs:19-20 | a chunk that ends inside a multi-byte char is not well formed |
| `Utf8.SplitCharTailNotWellFormed` | benches/read_file_bench/utils.rs:19-20 | a chunk that starts inside a multi-byte char is not well formed |
| `ByteSource.Stop` | benches/read_file_bench/utils.rs:17-18 | the first read of a script that is an error or returns 0 bytes; every read before it returns bytes |
| `ByteSource.EndOf` | benches/read_file_bench/utils.rs:72 | the first read that returns 0 bytes, where an iterator ends; every read before it is an error or returns bytes |
| `ByteSource.ReadInto` | benches/read_file_bench/utils.rs:17 | `read` into `buf[offset..]` returns the next scripted result; on success it writes exactly those bytes at `offset` and leaves the rest of the buffer alone; on error it writes nothing |
| `ByteSource.DecodeAllFlatten` | benches/read_file_bench/utils.rs:28-29 | the chars of well-formed `str`s taken one after the other are the chars of their bytes put together |
| `ByteSource.DecodeChunks` | benches/read_file_bench/utils.rs:82-86 | when every successful read is well formed alone, decoding chunk by chunk gives the chars of all the bytes read |
| `Carry.CheckChunk` | benches/read_file_bench/utils.rs:19-26 | with nothing carried, the check is `from_utf8` on exactly the fresh bytes, and `pending_bytes` stays 0 because the carry test cannot pass |
| `ReadWithBuf.StepOf` | benches/read_file_bench/utils.rs:17-31 | a pass hands on a `str` exactly for a non-empty, well-formed read; it returns the error for a failed read, breaks for a read of 0 bytes, and panics for a read that is not well formed |
| `ReadWithBuf.Spec` | benches/read_file_bench/utils.rs:13-33 | every `str` the loop produces is well formed |
| `ReadWithBuf.Pass` | benches/read_file_bench/utils.rs:14-26 | one pass reads once into `u[4..]` and gives that read's `StepOf`; the copy loop runs no step, and `pending_bytes` stays 0 |
| `ReadWithBuf.ConsumeChars` | benches/read_file_bench/utils.rs:29 | draining `s.chars()` one char at a time yields exactly the decoding of `s` |
| `ReadWithBuf.Emit` | benches/read_file_bench/utils.rs:28-31 | one more `str` adds its chars to what `consume` has drained when `by_chars` is set, and nothing otherwise |
| `ReadWithBuf.ReadWithBuf` | benches/read_file_bench/utils.rs:5-38 | the macro's block ends as `Spec` says and produces `Spec`'s `str`s; with `by_chars` the chars drained are theirs, one after the other, and without it there are none |
| `ReadWithBuf.SpecOutcome` | benches/read_file_bench/utils.rs:13-33 | the loop panics exactly when a read before the first error or end is not well formed by itself; otherwise it ends with that error or with `Ok(())`; its `str`s are those reads and together are all the bytes read |
| `ReadWithBuf.CharsOfRun` | benches/read_file_bench/utils.rs:28-29 | when no read is ill formed on its own, `consume` drains exactly the chars of all the bytes read |
| `ReadWithBuf.SplitCharPanics` | benches/read_file_bench/utils.rs:9-26 | a char cut by a read boundary makes the loop panic at the read that holds either half, while the same bytes in one read form one `str` |
| `CharReader1.Step` | benches/read_file_bench/utils.rs:64-87 | `next` returns a buffered char without reading; otherwise it panics exactly when the buffer is shorter than 4 bytes; a read of 0 bytes gives None; a read error or an ill-formed chunk gives `Err` with no chars kept; a non-empty well-formed chunk gives `Ok` with its first char and keeps the others |
| `CharReader1.Drain` | benches/read_file_bench/utils.rs:171-175 | the pulls end with None or a panic, and only the last one does |
| `CharReader1.CharReader1.WithCapacity` | benches/read_file_bench/utils.rs:55-57 | a reader over the stream with a `capacity`-byte buffer, no chars pending and `pending_bytes` 0 |
| `CharReader1.CharReader1.New` | benches/read_file_bench/utils.rs:51-53 | `with_capacity(2^14)` |
| `CharReader1.CharReader1.Next` | benches/read_file_bench/utils.rs:64-87 | the call updates the reader as `Step` says and keeps `pending_bytes` at 0 |
| `CharReader1.Consume` | benches/read_file_bench/utils.rs:171-175 | `consume` pulls exactly the items of `Drain` |
| `CharReader1.DrainChars` | benches/read_file_bench/utils.rs:64-87 | with a buffer of at least 4 bytes, a drain ends with None. Its chars are the pending ones, then, read by read up to the first read of 0 bytes, the chars of each read that is well formed on its own |
| `CharReader1.DrainErrs` | benches/read_file_bench/utils.rs:68-85 | with a buffer of at least 4 bytes, a drain yields exactly one `Err` per failed or ill-formed read before the first read of 0 bytes, and no other `Err` |
| `CharReader1.DrainAllWellFormed` | benches/read_file_bench/utils.rs:82-86 | when every read is well formed alone, a fresh reader yields exactly the chars of all the bytes read |
| `CharReader1.SplitCharErrs` | benches/read_file_bench/utils.rs:74-85 | a char cut by a read boundary gives `Err`, `Err` and then None, and none of the chars of either read |
| `Buffered.Refill` | benches/read_file_bench/utils.rs:107-110 | `read_into_buf` writes a successful read at the front of the buffer and sets `n` to its length; an error, returned by `?` before `n` is set, changes nothing but the stream; `idx` is never touched |
| `Buffered.RefillAhead` | benches/read_file_bench/utils.rs:117-123 | a refill keeps every byte still to come ahead after an error, finds none at the end of the stream, and otherwise fills the buffer with the next bytes ahead |
| `CharReader2.AsChars` | benches/read_file_bench/utils.rs:127 | each byte becomes the char with that code point |
| `CharReader2.FirstNonAscii` | benches/read_file_bench/utils.rs:124-129 | the first byte of 128 or more; all the bytes before it are ASCII |
| `CharReader2.Step` | benches/read_file_bench/utils.rs:116-130 | `next` keeps the buffer invariant, and every call that returns does progress |
| `CharReader2.StepCases` | benches/read_file_bench/utils.rs:116-130 | an ASCII byte at `idx` is returned as its char and `idx` moves past it; any other byte panics with nothing changed; `Err` comes exactly from a failed read when the buffer is used up, and leaves `n` and `idx`; None comes exactly from a read of 0 bytes |
| `CharReader2.StepAhead` | benches/read_file_bench/utils.rs:116-130 | each `Ok` is the next byte still to come, which is ASCII; a panic is at a non-ASCII next byte; `Err` keeps the bytes to come, and None comes when there are none |
| `CharReader2.Drain` | benches/read_file_bench/utils.rs:171-175 | the pulls end with None or a panic, and only the last one does |
| `CharReader2.CharReader2.WithCapacity` | benches/read_file_bench/utils.rs:103-105 | a reader over the stream with a zeroed `capacity`-byte buffer and `idx` and `n` both 0 |
| `CharReader2.CharReader2.New` | benches/read_file_bench/utils.rs:99-101 | `with_capacity(2^14)` |
| `CharReader2.CharReader2.ReadIntoBuf` | benches/read_file_bench/utils.rs:107-110 | the fields change as `Refill` says |
| `CharReader2.CharReader2.Next` | benches/read_file_bench/utils.rs:116-130 | the call updates the fields as `Step` says and keeps the buffer invariant |
| `CharReader2.Consume` | benches/read_file_bench/utils.rs:171-175 | `consume` pulls exactly the items of `Drain` |
| `CharReader2.AsciiRunPrefix` | benches/read_file_bench/utils.rs:124-129 | the recursive ASCII run is the chars of the bytes before the first non-ASCII one |
| `CharReader2.DrainAscii` | benches/read_file_bench/utils.rs:116-130 | a drain yields the bytes to come, as chars, up to the first non-ASCII byte. It panics exactly when there is such a byte, and ends with None exactly when there is none |
| `CharReader2.DrainFreshAscii` | benches/read_file_bench/utils.rs:116-130 | on an all-ASCII stream, a fresh reader yields exactly the chars of all the bytes read and ends with None |
| `ByteReader.Step` | benches/read_file_bench/utils.rs:158-168 | `next` keeps the buffer invariant, never panics, and every call that does not return None makes progress |
| `ByteReader.StepCases` | benches/read_file_bench/utils.rs:158-168 | with bytes left in the buffer, `next` returns the one at `idx` and moves past it; `Err` comes exactly from a failed read when the buffer is used up, and leaves `n` and `idx`; None comes exactly from a read of 0 bytes; it never panics |
| `ByteReader.StepAhead` | benches/read_file_bench/utils.rs:158-168 | each `Ok` is the next byte still to come; `Err` keeps the bytes to come, and None comes when there are none |
| `ByteReader.TakeFirst` | benches/read_file_bench/utils.rs:166-167 | handing out the byte at `idx` takes it off the front of the unread bytes |
| `ByteReader.Drain` | benches/read_file_bench/utils.rs:171-175 | the pulls end with None, and only the last one is None |
| `ByteReader.ByteReader.WithCapacity` | benches/read_file_bench/utils.rs:145-147 | a reader over the stream with a zeroed `capacity`-byte buffer and `idx` and `n` both 0 |
| `ByteReader.ByteReader.New` | benches/read_file_bench/utils.rs:141-143 | `with_capacity(2^14)` |
| `ByteReader.ByteReader.ReadIntoBuf` | benches/read_file_bench/utils.rs:149-152 | the fields change as `Refill` says |
| `ByteReader.ByteReader.Next` | benches/read_file_bench/utils.rs:158-168 | the call updates the fields as `Step` says and keeps the buffer invariant |
| `ByteReader.Consume` | benches/read_file_bench/utils.rs:171-175 | `consume` pulls exactly the items of `Drain` |
| `ByteReader.DrainBytes` | benches/read_file_bench/utils.rs:158-175 | a drain ends with None, and its `Ok` bytes are exactly the bytes to come (the unread ones, then every read up to the first read of 0 bytes); `Err` items do not stop it |
| `ByteReader.DrainFresh` | benches/read_file_bench/utils.rs:145-175 | a fresh reader yields exactly the bytes of all the reads before the end of the stream |
| `SmallMap.AlphabetPositions` | benches/small_map_bench.rs:82 | the alphabet has 63 chars, and each stands at its own position |
| `SmallMap.AlphabetDistinct` | benches/small_map_bench.rs:82 | the alphabet's chars are pairwise distinct |
| `SmallMap.GetInput` | benches/small_map_bench.rs:81-87 | `get_input` panics exactly when `size` is over 63; otherwise it returns `size` distinct chars of the alphabet |
| `SmallMap.ChosenDistinct` | benches/small_map_bench.rs:84-86 | distinct picked positions give distinct alphabet chars |
| `SmallMap.SizesNeverPanic` | benches/small_map_bench.rs:7 | every entry of `SIZES` fits the alphabet, so `get_input` never panics in the benchmarks |
| `SmallMap.Find` | benches/small_map_bench.rs:29 | `find` returns None exactly when no pair has the key; otherwise it returns the first pair whose key it is |
| `SmallMap.Any` | benches/small_map_bench.rs:59 | `any` holds exactly when some pair has the key |
| `SmallMap.AnyKeys` | benches/small_map_bench.rs:59 | some pair has the key exactly when it is among the keys |
| `SmallMap.FirstIndex` | benches/small_map_bench.rs:57-62 | the first occurrence of a char in a sequence |
| `SmallMap.DedupSpec` | benches/small_map_bench.rs:57-62 | the distinct chars of the input, in first-occurrence order: pairwise distinct, the same set as the input, ordered by first occurrence |
| `SmallMap.DedupPrefix` | benches/small_map_bench.rs:57-62 | the keys pushed for a prefix of the input stay, unchanged and in place, as the rest of the input is added |
| `SmallMap.AddVec` | benches/small_map_bench.rs:57-62 | insert-if-absent ends with the distinct input chars as keys, in first-occurrence order, each with value 0 |
| `SmallMap.AddMap` | benches/small_map_bench.rs:64-77 | the `insert` loops end with exactly the input chars as keys, each with value 0 |
| `SmallMap.AddStrategiesAgree` | benches/small_map_bench.rs:55-77 | the `Vec` and the map strategies end with the same keys; `find` in the `Vec` returns what the map holds, and the `Vec`'s keys are distinct |
| `SmallMap.FindZero` | benches/small_map_bench.rs:59-60 | in a list whose values are all 0, `find` of a present key returns that key with 0 |
| `SmallMap.Inserted` | benches/small_map_bench.rs:21-22 | the map that inserting the pairs builds has exactly the pairs' keys |
| `SmallMap.FillFind` | benches/small_map_bench.rs:17-23 | the fill loop pushes the pairs in input order, and both maps are the map that inserting those pairs builds |
| `SmallMap.InsertedAt` | benches/small_map_bench.rs:21-22 | with distinct keys, the map holds each pair's value for its key |
| `SmallMap.FindAgreesWithMap` | benches/small_map_bench.rs:29-41 | with distinct keys, `find` returns `Some((ch, v))` exactly when `get(ch)` returns `Some(v)`, and None exactly when `get` does |
| `SmallMap.BenchFindAgrees` | benches/small_map_bench.rs:17-41 | on `get_input`'s chars with any drawn values, the `Vec`, `HashMap` and `FxHashMap` lookups agree for every query |

## Left out

- `benches/read_file_bench/main.rs`, `build.rs`, and the Criterion groups, timing configuration and `black_box` are not part of this model. They only compose the readers with library calls, create input files, and time the code.
- The file and the OS reads are modelled by the script. The model never observes what a read writes past its returned length.
- The `unsafe` lifetime `transmute` of `Chars` at utils.rs:83 is modelled as an owned sequence of the chars still to be yielded.
- `rand` is modelled as parameters.
  - The values drawn and the positions `choose_multiple` picks, `vals` and `picks`, are parameters constrained only as the library promises: distinct positions inside the alphabet.
  - `shuffle` is not modelled. The lookup lemmas hold for every query char, and the insert lemmas hold for every input order.
- The hashing internals of `HashMap` and `FxHashMap` are not modelled. Both are one Dafny `map`, since only their contents are observable here.
- A "fixed" carry decoder, chunk-size invariance, and an error for an unfinished carry at the end of the stream are left out, because the code has none of them.
- Integer widths are unbounded. `usize` arithmetic (`$size + 4`, `idx += 1`, `buf.len() - valid_up_to`) cannot overflow for buffers that fit in memory. `u32` values are a newtype within 0..2^32 and are only stored.
- The panic message of `get_input` is not modelled, only that it panics.
- `char::from_u32_unchecked` is modelled as the char with the byte's code point, which is sound for bytes below 128.
- `Carry.CheckChunk`: it requires `pending_bytes` to be 0 and states nothing about a non-zero carry. The model proves that every caller keeps `pending_bytes` at 0, so the re-check at utils.rs:23 and 78 is unreachable and not modelled.
- `ReadWithBuf.Pass`: the copy loop at utils.rs:14-16 is modelled as a loop whose range is empty. This is justified by the invariant `pending_bytes == 0`, so its out-of-bounds index is never reached.
- `CharReader2.CharReader2.Next`: the invariant it keeps is that `idx` and `n` lie within the buffer and `idx <= n` unless `n == 0`. It does not keep `idx <= n` itself, because a read of 0 bytes sets `n` to 0 and leaves `idx`.
- `ByteReader.ByteReader.Next`: the same as for `CharReader2.CharReader2.Next`.
- Endless read errors are outside the model. A script is finite and reads as `Ok(0)` once used up, so the model cannot show that `consume` over an iterator never ends on a stream whose reads keep failing, as the non-terminal `Err` implies.
- `consume` is generic over `Iterator` in the source. The model has one `Consume` method per reader.
- The second arm of `read_with_buf!`, which passes `false`, is `ReadWithBuf.ReadWithBuf` with `byChars` false.
- `CharReader1.CharReader1.WithCapacity`: the buffer's initial zeros are not stated, because nothing reads them before a read overwrites them.
