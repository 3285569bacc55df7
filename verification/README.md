# bl BufferList, modelled in Dafny

`bl` keeps a list of Node `Buffer` chunks (`_bufs`) together with a cached
total `length`. It reads the list as the one logical byte string the chunks
concatenate to. This project models that core of `bl.js` and proves what each
operation does to that logical string:

- appending buffers, arrays, other lists, strings and numbers;
- resolving logical offsets to chunk positions (`_offset`) and back (`_index`);
- the three paths of `copy`, with `slice` and `get` built on it;
- `consume`, `shallowSlice`, `duplicate` and `destroy`;
- the per-chunk search of `indexOf` and its cross-chunk fallback `_indexOfMultiByte`;
- the generated integer readers.

Modules, one per part of the code:

- `Chunks`: bytes, chunks, `Flat` (the logical string) and `Start` (where chunk `i` begins).
- `Offsets`: `_offset` as the function `Resolve`, and its properties.
- `CopyEngine`: the bounds of `copy`/`slice`, Node's `Buffer#slice`, and destination writes (`Overwrite`).
- `Shallow`: the chunk array that `shallowSlice` builds.
- `Consume`: the chunks left by `consume`.
- `Search`: occurrences, and Node's per-chunk `Buffer#indexOf`.
- `Decimal`: the text `append` makes of a number.
- `Integers`: byte-order decoding for the `read*` wrappers.
- `BufferLists`: the `BufferList` class. Its fields `bufs` and `length` are updated in place, and its invariant is `length == |Flat(bufs)|`.
- `Wrappers`: `Option`, `Outcome` and the JavaScript errors.

Every method of the class is proved against a specification. For `slice`,
`get`, `read*` and the bytes `copy` writes, that specification is a function
of `Flat(bufs)` alone, so these results do not depend on how the logical
string is split into chunks. Two results do depend on the chunking:

- **`copy`'s return value.** It is the byte count exactly when the window fits in the chunk holding its start, and the destination otherwise.
- **A multi-byte `indexOf` result.** A match inside one chunk wins over an earlier one that crosses a boundary (see "Left out").

`_offset`, `_index` and the per-chunk scan of `indexOf` are specified on chunk positions.

Edge cases the model keeps as the code has them:

- **Empty appends.** Appending an empty buffer or string pushes an empty chunk; the code does not skip it.
- **Empty needle on an empty list.** `indexOf` with an empty needle on an empty list returns -1, not the clamped offset. No chunk is searched, so `result` stays -1.
- **An end of 0.** `slice(-k, -j)` equals `slice(length - k, length - j)` only for `j >= 1`. An end of 0 (or `-0`) is not counted from the end.
- **Offsets past the end.** `_offset` of an offset past the end lands in the last chunk, at a local offset past that chunk's end, not clamped to it.

## Model

| member | source | states |
|---|---|---|
| BufferLists.BufferList.constructor | bl.js:7-35 | a list built from a non-callback argument is valid and holds exactly that argument's chunks, flattened in order |
| BufferLists.BufferList.AppendBuffer | bl.js:91-94 | the chunk becomes the last one, the length grows by its size, and the cached length stays the total of the chunk lengths |
| BufferLists.BufferList.Append | bl.js:66-88 | the chunk list becomes the old one followed by the argument flattened in order: a buffer, the elements of an array recursively, the chunks of another list, a string's bytes, a number's decimal text, nothing for null. The logical string grows by exactly those bytes, the length by their count, and the list itself is returned |
| BufferLists.BufferList.AppendEach | bl.js:71-73 | appending the elements of an array one by one appends the concatenation of their flattenings |
| BufferLists.BufferList.AppendItem | bl.js:72-73 | one array element's chunks follow those of the elements before it |
| BufferLists.BufferList.AppendChunks | bl.js:74-77 | another list's chunks are appended in their order |
| BufferLists.FlattenAllPush | bl.js:71-73 | flattening one more array element appends that element's chunks, and the lists it refers to |
| Decimal.DecimalRoundTrip | bl.js:81-84 | the decimal text appended for a number is a minus sign (for negatives) followed by digits, and reads back as that number |
| Decimal.DigitsWellFormed | bl.js:81-82 | a number's digits are all decimal digits, at least one, with a leading zero only for 0 |
| Decimal.DigitsRoundTrip | bl.js:81-82 | the value of a natural number's digits is that number |
| BufferLists.BufferList.Offset | bl.js:41-50 | the scan returns 0,0 for offset 0, otherwise the first chunk whose end lies past the offset or, failing that, the last chunk, with the offset relative to that chunk's start |
| Offsets.ResolveInverts | bl.js:41-63 | `_index(_offset(off)) == off` for every `off >= 0`, and the chunk exists unless the list is empty |
| Offsets.ResolveInside | bl.js:44-47 | for `0 < off < length` the chunk is the first whose cumulative end exceeds `off`, and the local offset lies inside it |
| Offsets.ResolvePastEnd | bl.js:46-47 | an offset at or past the end resolves into the last chunk, at or past its end |
| Offsets.ResolveLater | bl.js:44-48 | every chunk after the resolved one begins at or after the offset |
| BufferLists.BufferList.Index | bl.js:53-63 | the result is the number of bytes in the chunks before the position plus its local offset |
| CopyEngine.CopyBounds | bl.js:141-144 | a missing or negative start becomes 0, a missing or too-large end becomes the length |
| CopyEngine.NodeSlice | bl.js:180 | Node's `Buffer#slice` stays within the buffer and, for bounds inside it, is exactly that window |
| CopyEngine.ClampBound | bl.js:180 | a slice bound lands inside the buffer and is kept when it already was |
| BufferLists.BufferList.Copy | bl.js:140-204 | without a destination, returns the clamped window of the logical string. With one, writes that window at `dstStart` and leaves every other destination byte unchanged. The byte count is returned exactly when the single-chunk path is taken with a non-empty range, the destination otherwise (every empty range returns the destination, see Findings) |
| BufferLists.BufferList.CopyRange | bl.js:150-203 | for `0 <= s < e <= length`: the bytes `s..e` are returned or written at `dstStart`, and the single-chunk path reports `e - s` bytes |
| CopyEngine.OneChunkRangeInside | bl.js:160-177 | inside the list, the single-chunk path is taken exactly when the range is not the whole list and fits in the chunk holding its start |
| BufferLists.BufferList.CopyAll | bl.js:160-173 | the whole list is returned as the logical string (the only chunk itself for one chunk), or written at `dstStart` |
| BufferLists.BufferList.CopyWhole | bl.js:167-171 | writing every chunk in turn from `bufoff` on writes the whole logical string there |
| BufferLists.BufferList.CopyInChunk | bl.js:176-181 | a window inside the chunk holding its start is that chunk's piece; copying it writes the window and returns its length |
| BufferLists.BufferList.CopyAcross | bl.js:183-203 | a window running past its first chunk is written into the destination, or into a fresh buffer that is returned |
| BufferLists.CopySpanning | bl.js:186-201 | the cross-chunk loop writes exactly the bytes `s..e` of the logical string at the destination offset |
| BufferLists.CopyChunkRest | bl.js:187-200 | a chunk holding fewer bytes than are still wanted is copied from the local start to its end, and the walk moves to offset 0 of the next chunk, which exists |
| BufferLists.CopyChunkLast | bl.js:191-193 | the chunk holding the end of the window gives the bytes still wanted, which completes the window |
| BufferLists.ChunkCopy | bl.js:190-192 | Node's `Buffer#copy` writes the source bytes `from..to` at `at`, leaves the rest alone, and returns their count |
| BufferLists.BufferList.Slice | bl.js:131-137 | the result is the slice of the logical string after negative bounds get the length added |
| CopyEngine.SliceIsWindow | bl.js:131-148 | every slice is the window between its two bounds clamped into the list, and empty when they are reversed |
| CopyEngine.SliceInRange | bl.js:131-137 | bounds inside the list select exactly that range |
| CopyEngine.SliceWhole | bl.js:141-144 | no bounds, or bounds 0 and the length, give the whole logical string |
| CopyEngine.SliceFromEnd | bl.js:132-135 | `slice(-k, -j)` equals `slice(length - k, length - j)` for `1 <= j <= k <= length` |
| CopyEngine.ReversedSliceAsWritten | bl.js:145-148 | as written, a reversed range can return bytes: on chunks [0,1,2] and [3,4,5,6,7], `slice(4, 1)` gives [4,5] where the window is empty |
| CopyEngine.ReversedCopyAsWritten | bl.js:145-148 | as written, with a destination, a reversed or empty range inside the list is not returned as the destination: on the same chunks `copy(dst, 0, 4, 1)` is a RangeError, and `copy(dst, 0, 6, 5)` and `copy(dst, 0, 4, 4)` return 0, where the window is empty |
| CopyEngine.CopyIntoAgrees | bl.js:150-203 | for a range whose clamped end lies past its start, the result of `copy` with a destination as written is the corrected one: the byte count exactly on the single-chunk path, the destination otherwise |
| BufferLists.BufferList.Get | bl.js:125-128 | for `0 <= i < length` the byte at logical offset `i` |
| BufferLists.BufferList.ShallowSlice | bl.js:206-228 | a fresh valid list over the cut chunks, with a bound below minus the length clamped to 0 (see Findings), or the TypeError a positive bound on an empty list raises |
| Shallow.ShallowChunksWindow | bl.js:206-226 | for bounds in order after defaults, counting from the end and clamping at 0, the cut chunks concatenate to the bytes between the bounds, clamped to the length |
| Shallow.ShallowClampAgrees | bl.js:206-228 | for bounds not below minus the length, the clamped chunk array is exactly the one the code builds |
| Shallow.ShallowBelowStartAsWritten | bl.js:210-225 | as written, a start below minus the length is not clamped: on chunks [1,2,3] and [4,5,6,7,8,9,10], `shallowSlice(-12)` keeps only [2,3] of the first chunk, 9 bytes of 10; clamped, the new list holds all 10. On an empty list `shallowSlice(-5)` is a TypeError as written and the empty list clamped |
| Shallow.CutBetweenWindow | bl.js:215-226 | cutting the chunks between two in-order resolved bounds yields exactly the bytes between them |
| Shallow.CutEndWindow | bl.js:217-222 | an end offset of 0 drops the end chunk, any other cuts it to that length: either way the chunks taken end at the end bound |
| Shallow.CutStartWindow | bl.js:224-225 | a non-zero start offset drops that many bytes of the first chunk taken |
| Shallow.ArraySlice | bl.js:217 | JavaScript's `array.slice` with in-range bounds is that window |
| BufferLists.AsBuffers | bl.js:227 | each cut chunk is handed to the constructor as a Buffer argument, in order |
| BufferLists.FlattenBuffers | bl.js:227 | so the new list holds exactly the cut chunks |
| BufferLists.BufferList.Duplicate | bl.js:250-258 | a fresh valid list with the same chunks in the same order and the same length |
| BufferLists.BufferList.Consume | bl.js:234-247 | for `n >= 0`: the logical string loses its first `min(n, length)` bytes, the length becomes `max(length - n, 0)`, the chunks are those `Consumed` gives, and the list itself is returned |
| Consume.ConsumedFlat | bl.js:234-247 | the chunks left by consuming `n` bytes concatenate to the old string without its first `min(n, length)` bytes, and consuming at least the length leaves no chunk |
| BufferLists.BufferList.Destroy | bl.js:341-345 | the list is left valid, with no chunks and length 0, whatever its state before, so a second call changes nothing |
| BufferLists.BufferList.IndexOf | bl.js:260-289 | a non-empty needle's result is an occurrence at or after `byteOffset`, and -1 exactly when there is none. A one-byte needle gives the first occurrence. An empty needle gives the offset clamped to the length, or -1 on an empty list |
| BufferLists.BufferList.ScanChunks | bl.js:263-274 | the search starts at the chunk position `byteOffset` resolves to, and stops at the first chunk that yields a result or after the last chunk |
| Search.ChunkIndexOf | bl.js:272 | Node's per-chunk search: an empty needle at the offset clamped to the chunk; otherwise the first occurrence at or after the offset, or -1 when there is none |
| BufferLists.ScanNext | bl.js:269-274 | searching one more chunk keeps the search state |
| BufferLists.FoundInChunk | bl.js:272-288 | an occurrence found in a chunk, at or after the local start, is an occurrence in the logical string at or after `byteOffset` |
| BufferLists.ScanFound | bl.js:286-288 | a chunk result translated by `_index` is the occurrence `indexOf` promises |
| BufferLists.ScanMissed | bl.js:277-284 | when every chunk misses, a one-byte needle is absent from `byteOffset` on |
| BufferLists.BufferList.IndexOfMultiByte | bl.js:298-338 | the first occurrence at or after `byteOffset` of a needle of two or more bytes, wherever the chunk boundaries fall; -1 exactly when there is none |
| BufferLists.BufferList.MatchesAt | bl.js:310-330 | the comparison across chunks at a candidate succeeds exactly when the needle occurs there |
| BufferLists.CompareChunk | bl.js:317-326 | comparing the rest of one chunk against the rest of the needle extends the match or rules the candidate out |
| BufferLists.CompareInit | bl.js:310-314 | a candidate inside the list starts the comparison at its resolved chunk position |
| BufferLists.CompareDone | bl.js:316-330 | when the loop stops, its verdict is whether the needle occurs at the candidate |
| BufferLists.FirstByteAbsence | bl.js:304-307 | where the needle's first byte is absent, so is the needle, so no candidate is missed |
| BufferLists.BufferList.Read | bl.js:370-380 | reading `w` bytes at `offset` decodes the slice of the logical string there. The result is the value of those bytes when they lie inside the list and `1 <= w <= 6`, and a RangeError when the width is out of range or the bytes run past the end |
| Integers.BigEndianRoundTrip | bl.js:374-379 | the big-endian reading of `w` bytes is below 256^w and one-to-one: encoding it gives the bytes back |
| Integers.EncodeRoundTrip | bl.js:374-379 | decoding the `w`-byte encoding of a value below 256^w gives the value |
| Integers.LittleIsReversedBig | bl.js:374-379 | the little-endian reading is the big-endian reading of the reversed bytes |
| Integers.SignedBigEndian | bl.js:374-379 | the signed reading of `w` bytes lies in the `w`-byte two's-complement range, is negative exactly when the top bit is set, and is the unsigned reading or that less 256^w |

## Left out

- Stream plumbing is not modelled: the Duplex stream, the constructor's callback and its `pipe`/`unpipe` listeners, `_write`, `_read`, `end`, and the `push(null)` of `destroy` (bl.js:7-35, 97-122, 344).
- Text encodings are not modelled. A string argument to `append` or `indexOf` is taken as its already-encoded bytes, and `toString` is left out; both are Node's `Buffer` code.
- The floating-point readers (`readFloat*`, `readDouble*`) are left out. They decode IEEE 754 values.
- The fallback `indexOf` for Node versions before 4 (bl.js:291-295) is left out.
- Numbers passed to `append` are integers of at most 53 bits (`SafeInteger`). Fractions, NaN, the infinities and exponent notation are left out, because their text is JavaScript's number formatting.
- Chunks are byte sequences, so aliasing is value equality. The model does not show that `shallowSlice`, `duplicate` and a one-chunk `slice` share memory with the original buffers; it states that they hold the same chunks.
- BufferLists.BufferList.Get: requires `0 <= index < length`. Outside that range bl.js returns a stale byte of its module-level scratch buffer, which the model does not keep (it reads through a fresh one-byte array).
- BufferLists.BufferList.Copy: requires room in the destination. Node truncates a copy into a destination that is too small. `dstStart` is a `nat`: a negative `dstStart` reaches Node's `Buffer#copy` (bl.js:154 as `bufoff`, bl.js:179 directly), which throws a RangeError; the model does not express that error.
- BufferLists.BufferList.Append: requires that the list not be among the lists the argument refers to. Appending a non-empty list to itself never ends in bl.js, because the loop bound re-reads the growing chunk array. The requires also excludes appending an empty list to itself, which in bl.js returns at once and changes nothing.
- BufferLists.BufferList.Consume: requires `bytes >= 0`. A negative count makes bl.js keep a tail of the first chunk and increase the length.
- BufferLists.BufferList.IndexOf: requires `byteOffset >= 0`, and requires a non-zero offset only on a non-empty list. A negative offset is taken relative to the first chunk only. On an empty list, `_offset` of a non-zero offset returns `undefined` and the call throws.
- BufferLists.BufferList.IndexOf: a string needle is a byte `Pattern`, and the cross-chunk search is chosen when it has two or more bytes. bl.js:277 tests the string's `.length`, which counts UTF-16 code units, so a one-unit string that encodes to several bytes (`'é'`, bytes C3 A9) is only searched chunk by chunk there: with chunks [C3] and [A9] bl.js returns -1 where the model returns 0. The "-1 exactly when there is none" clause holds for Buffer needles and for strings whose byte count and `.length` are both above 1 or both 1.
- BufferLists.BufferList.IndexOf: a number needle is a `ByteValue` in 0..255. Node's `Buffer#indexOf` also takes numbers outside that range and searches for their low byte; those are not modelled.
- BufferLists.BufferList.IndexOf: claims the first occurrence only for a one-byte needle. A multi-byte needle found inside a chunk is returned even when an earlier occurrence straddles a chunk boundary (chunks [1] and [2,9,1,2] with needle [1,2] give 3, not 0).
- BufferLists.BufferList.MatchesAt: a needle prefix that matches at the end of the list makes bl.js read a chunk past the last one and throw a TypeError. The model counts this as a mismatch, which is the correct verdict.
- Offsets.Resolve: only the resolution of offsets `>= 0` is given meaning. Negative offsets reach `_offset` in two ways: through a negative `indexOf` offset, which is excluded, and through a `shallowSlice` bound below minus the length, which `ShallowChunksAsWritten` keeps and the corrected `ShallowChunks` clamps (see Findings).
- Shallow.ShallowChunksWindow: promises nothing for reversed bounds (start past end after clamping). There bl.js throws a TypeError or returns a list with no bytes, depending on where the bounds fall among the chunks; `ShallowChunks` keeps that behaviour as written.

## Findings

| source | as written | input that shows it | evidently intended | confidence | as-written member | corrected member |
|---|---|---|---|---|---|---|
| bl.js:145-148 | `copy` returns early only when the start is at or past the length or the end is at or before 0. A reversed range with the end below the start reaches the single-chunk path, which hands `start + bytes` (with `bytes` negative) to `Buffer#slice`, and Node counts that negative end from the end of the chunk | chunks [0,1,2] and [3,4,5,6,7], `slice(4, 1)`: offset 4 resolves to chunk 1, local 1, and `slice(1, -2)` of that chunk is [4,5] | an empty result for every range whose end is at or before its start | not executed | CopyEngine.ReversedSliceAsWritten | BufferLists.BufferList.Copy |
| bl.js:145-148 | the same missing check, with a destination: the single-chunk path calls Node's `Buffer#copy(dst, dstStart, start, start + bytes)` with `bytes` negative or 0. Node throws a RangeError for a negative source end and copies nothing, returning 0, for a source end at or before the source start | chunks [0,1,2] and [3,4,5,6,7]: `copy(dst, 0, 4, 1)` asks chunk 1 to copy from 1 to -2, a RangeError; `copy(dst, 0, 6, 5)` asks it to copy from 3 to 2 and `copy(dst, 0, 4, 4)` from 1 to 1, both of which return 0 | nothing written and the destination returned for every empty range, as the early returns at bl.js:145-148 return it | not executed | CopyEngine.ReversedCopyAsWritten | BufferLists.BufferList.Copy |
| bl.js:210-219 | a bound that is still negative after the length is added goes to `_offset`, which returns the first chunk with a negative local offset, or `undefined` on an empty list, where `startOffset[0]` then throws a TypeError; Node's `Buffer#slice` counts the negative offset from the end of the first chunk | chunks [1,2,3] and [4,5,6,7,8,9,10], `shallowSlice(-12)`: the start -2 resolves to chunk 0, local -2, and `slice(-2)` of that chunk keeps [2,3], so the new list holds 9 of the 10 bytes; on an empty list, `shallowSlice(-5)` is a TypeError | the bound clamped at 0, as `copy` clamps a negative start, so the new list holds all 10 bytes, and the empty list gives an empty list | not executed | Shallow.ShallowBelowStartAsWritten | Shallow.ShallowChunksWindow |
