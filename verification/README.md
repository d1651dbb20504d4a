# Thai full-text parser plugin, modelled in Dafny

This project models the segmentation core of the `thaift_parser` full-text
parser plugin for the MySQL server. The server hands the plugin a document or a
search query. The plugin splits it into whitespace-delimited chunks. For each
chunk it does one of two things:

- If the chunk's first byte, after conversion to TIS-620, is a letter, the
  whole chunk goes to the server as one word.
- Otherwise it asks libthai's `th_brk` where the word breaks are, in
  characters. It turns each break into a byte range by multiplying by the
  charset's `mbmaxlen`, then submits every range through `add_word`.

The plugin returns the sum of the server's replies.

The model follows the code as written. The Thai cut loop runs `i <= numCut`,
so it reads `pos[numCut]`, which lies outside the `numCut` cuts `th_brk`
reports, and ends the last word there rather than at the end of the chunk.
It converts characters to bytes with one fixed width. Each word's position is measured from
`param->doc`, which `fts_get_word` advances chunk by chunk.

In three places the code evidently means something other than what it does:

- The end of the last word comes from `pos[numCut]`. `th_brk`'s interface
  promises nothing about that entry. The code relies on a side effect:
  libthai's `th_brk` may leave the break at the end of the string stored
  there while not counting it. When that entry holds the character count
  and every character is `mbmaxlen` bytes wide, the loop is right
  (`Corrected.AsWrittenAgreesWhenUniform`). The side effect fails when the
  string `th_brk` sees does not end with the chunk: the converted buffer is
  not NUL-terminated, and a chunk may end in non-Thai text. The comment at
  `plugin_thaift.cc:204` shows the author's own doubt about `numCut`.
- `mbmaxlen` is the largest width a character can have in the charset, not
  the width of each character.
- The `position` field should place the word in the document, but the
  moving `param->doc` breaks that.

The main model follows the code. The module `Corrected` holds what the code
evidently means to do, and the section "Findings" below records each
difference.

Files and modules:

- `types.dfy` (`Types`): bytes, C-locale `isalpha`, and the conversions
  from `int` to `size_t` and back to `int`.
- `metadata.dfy` (`Metadata`): the record `add_word` builds, and the
  server's replies. The server's `mysql_add_word` is a function `Host` from
  the history of calls to the reply to the last one, so a stateful server is
  covered. `Responses` adds up those replies.
- `segmenter.dfy` (`Segmenter`, `SegmenterExamples`): `thai_parse`.
  - `ChunkWords` is the pure reference for what one chunk submits.
  - `ThaiParse` is the loop over an `int` array, proved to submit exactly
    that and to return the sum of the replies.
  - A `Chunk` is `(start, len, cursor)`. `start` and `len` are in bytes from
    the start of the document. `cursor` is where `param->doc` stands after
    `fts_get_word` returned the chunk.
  - An `Oracle` holds what the foreign calls left: the first byte
    `my_convert` wrote, `th_brk`'s count, and the whole `pos` buffer,
    including the entries after the `numCut` reported cuts, which the model
    leaves unconstrained.
  - `Fits` is what the Thai branch relies on: `0 <= numCut < len`, so the
    read of `pos[numCut]` stays inside the `len`-entry buffer.
- `session.dfy` (`Session`): `thai_parser_parse`. It walks the chunk
  sequence, calls `ThaiParse` on each chunk, and adds up the results.
- `corrected.dfy` (`Corrected`): the intended segmentation and the intended
  positions, with the properties the code fails proved about them.

## Model

| member | source | states |
|---|---|---|
| `Types.ToSizeT` | plugin/fulltext/thaift_parser/plugin_thaift.cc:152 | A length passed as `size_t` is reduced modulo 2^64. Non-negative lengths pass unchanged. Inside `add_word`, a negative `int` length is held as 2^64 plus it, which is at least 2^63. |
| `Types.ToInt32` | plugin/fulltext/thaift_parser/plugin_thaift.cc:164 | `add_word` passes its `size_t len` on to the server's `int word_len`, which keeps the value modulo 2^32: the result lies in the two's-complement range [-2^31, 2^31) and differs from the input by a multiple of 2^32. |
| `Types.SizeTRoundTrip` | plugin/fulltext/thaift_parser/plugin_thaift.cc:152-164 | `add_word` carries the length in a `size_t` and passes it on to the server's `int word_len`. Every `int` length, negative ones included, reaches the server unchanged. |
| `Metadata.AddWord` | plugin/fulltext/thaift_parser/plugin_thaift.cc:152-165 | The word is submitted with its start and length unchanged. The metadata is always a plain word with `yesno`, `weight_adjust`, `wasign`, `trunc` and `quot` zero and `prev` a space. Its position is the word's offset minus the current `param->doc`. |
| `Metadata.ResponsesAppend` | plugin/fulltext/thaift_parser/plugin_thaift.cc:191-213 | The replies to two consecutive batches of `add_word` calls add up. The second batch's replies are taken against the history that includes the first. |
| `Metadata.ConstantHostSum` | plugin/fulltext/thaift_parser/plugin_thaift.cc:208-215 | If every call gets the same code, the accumulated result is that code times the number of calls, so no reply cuts the loop short. |
| `Segmenter.ThaiParse` | plugin/fulltext/thaift_parser/plugin_thaift.cc:181-222 | The words submitted equal the reference `ChunkWords`, and the result is the sum of the server's replies to them. An alphabetic first converted byte gives exactly one word, the whole chunk. Otherwise there are exactly `numCut + 1` words: the first at the chunk start, `pos[0] * w` bytes long; word `i` at `start + pos[i-1] * w`, `(pos[i] - pos[i-1]) * w` bytes long. Every word carries the fixed metadata and a position measured from the chunk's cursor. |
| `Segmenter.ThaiWordsContiguous` | plugin/fulltext/thaift_parser/plugin_thaift.cc:208-215 | In the Thai branch the first word starts at the chunk start, and each later word starts exactly where the previous one ends. With a negative length, words can still overlap. |
| `Segmenter.ThaiWordsTile` | plugin/fulltext/thaift_parser/plugin_thaift.cc:208-215 | Suppose the width is positive and `pos[0..numCut]` starts at or above zero and never decreases. Then every Thai word lies in `[start, start + pos[numCut]*w)`, each starts where the previous one ends, and each ends no later than any later word starts: no gaps, no overlaps. |
| `Segmenter.ChunkWordsReadOnlyLoopReads` | plugin/fulltext/thaift_parser/plugin_thaift.cc:203-213 | The Thai words depend on the `pos` buffer only through `pos[0]` to `pos[numCut]`, the indices `LoopReads(numCut)`: two runs whose buffers agree there submit the same words, whatever the other entries hold. With `LastWordReadsUnfilledEntry`, which shows `pos[numCut]` is read, this pins down the loop's reads. |
| `Segmenter.LoopReadsInsideBuffer` | plugin/fulltext/thaift_parser/plugin_thaift.cc:203-208 | The loop reads `pos[0]` to `pos[numCut]`, the indices `ChunkWordsReadOnlyLoopReads` shows the words depend on. Given only `th_brk`'s promise `numCut <= length`, every read is inside the `length`-entry buffer if and only if `numCut < length`. When `numCut == length`, the last read is `pos[length]`. |
| `Segmenter.ContiguousSpan` | plugin/fulltext/thaift_parser/plugin_thaift.cc:208-215 | Contiguous words end, at the last one, exactly the sum of their lengths after the first one's start. |
| `Segmenter.ThaiCoverage` | plugin/fulltext/thaift_parser/plugin_thaift.cc:203-215 | The Thai words cover exactly `pos[numCut] * w` bytes and end at `start + pos[numCut] * w`, whatever the chunk's length. The end comes from the buffer entry after the last reported cut, not from the end of the chunk. |
| `Segmenter.ThaiLengthsNonNegative` | plugin/fulltext/thaift_parser/plugin_thaift.cc:190-213 | For a positive width, every Thai word length is non-negative if and only if `pos[0] >= 0` and `pos[0..numCut]` never decreases, `pos[numCut]`, the entry after the reported cuts, included. |
| `Segmenter.LastWordReadsUnfilledEntry` | plugin/fulltext/thaift_parser/plugin_thaift.cc:203-208 | Two runs can agree on the reported cuts and differ only in `pos[numCut]`, the entry after them. They then submit different last words. |
| `SegmenterExamples.UnfilledEntryCounterexample` | plugin/fulltext/thaift_parser/plugin_thaift.cc:203-215 | A 6-byte two-letter utf8 chunk cut after one letter, with a leftover 0 in `pos[1]`, gets a second word of length -3. `add_word`'s `size_t len` holds 2^64 - 3, the server's `int word_len` gets -3, and the words stop short of the chunk's end. |
| `SegmenterExamples.UniformWidthCounterexample` | plugin/fulltext/thaift_parser/plugin_thaift.cc:190-213 | With `mbmaxlen` 4 (utf8mb4) and 3-byte Thai letters, the first word ends inside the second letter, and the last word runs past the chunk. |
| `Session.Parse` | plugin/fulltext/thaift_parser/plugin_thaift.cc:224-237 | The words submitted are all chunks' words in chunk order, whatever the server replies. The result is the plain sum of every reply. |
| `Session.SessionWordCount` | plugin/fulltext/thaift_parser/plugin_thaift.cc:233-235 | The number of words submitted is one per alphabetic chunk plus `numCut + 1` per Thai chunk. |
| `Session.ConstantCodesAccumulate` | plugin/fulltext/thaift_parser/plugin_thaift.cc:233-236 | If the server answers every word with the same code, the parse returns that code times the total number of words. Error codes are summed, never acted on. |
| `Session.SessionPrefix` | plugin/fulltext/thaift_parser/plugin_thaift.cc:233-235 | The words of the first `k` chunks form the start of the words of all chunks: later chunks only append. |
| `Session.PositionsFromChunkCursor` | plugin/fulltext/thaift_parser/plugin_thaift.cc:228-234 | The words of chunk `k` sit together in the session's word list, after the earlier chunks' words. Each reports its offset minus that chunk's cursor, so the base of the position moves from chunk to chunk. |
| `Session.CursorPositionsCollide` | plugin/fulltext/thaift_parser/plugin_thaift.cc:160 | For `"hello world"`, the words at offsets 0 and 6 are both submitted with position -5. |
| `Corrected.AddWordAnchored` | plugin/fulltext/thaift_parser/plugin_thaift.cc:154-162 | This is the metadata record with the position taken from the start of the document: the position equals the word's offset. |
| `Corrected.SegmentsPartitionChunk` | plugin/fulltext/thaift_parser/plugin_thaift.cc:208-215 | With only the reported cuts, per-character widths and a final segment, a non-empty chunk is partitioned. There are `cuts + 1` words, the first starts at the chunk start, each starts where the previous one ends, the last ends at the chunk end, and none is empty. |
| `Corrected.SegmentOffsetsIncrease` | plugin/fulltext/thaift_parser/plugin_thaift.cc:208-213 | The corrected words of a chunk start at strictly increasing offsets, all inside the chunk. |
| `Corrected.PositionsIncrease` | plugin/fulltext/thaift_parser/plugin_thaift.cc:224-236 | In a corrected parse of chunks in document order, every position equals its word's offset. Positions strictly increase over the whole document. |
| `Corrected.AsWrittenAgreesWhenUniform` | plugin/fulltext/thaift_parser/plugin_thaift.cc:190-215 | Suppose every character is `w` bytes wide, the buffer holds exactly the reported cuts, and `pos[numCut]` holds the character count. Then `thai_parse` submits the same offsets and lengths as the corrected segmentation, word for word. |
| `Corrected.TwoLetterChunkCorrected` | plugin/fulltext/thaift_parser/plugin_thaift.cc:208-215 | The chunk of the unfilled-entry example, corrected, gives the words (0, 3) and (3, 3). |

## Left out

- Plugin registration, the descriptor and the four lifecycle hooks
  (`plugin_thaift.cc:69-133`, `:243-270`): they do nothing and return 0.
- `my_convert` and its `error` array: a foreign charset conversion. Only
  the first byte it writes is modelled, as an input, because the dispatch
  looks at nothing else.
- `th_brk`: libthai's dictionary segmentation. It is an input giving the
  count and the buffer contents. The TIS-620 buffer passed to it is not
  NUL-terminated, and `th_brk` may read past the converted text; that is
  not modelled.
- `fts_get_word`: its code is not part of this model. The chunks it yields
  are an input sequence. Each chunk carries where `param->doc` stands after
  the call, so no whitespace-exclusion property is stated.
- `malloc`/`free` of `toStr`, `error` and `pos`: allocation failures are
  not checked by the code and are not modelled. The `pos` array is
  allocated in `ThaiParse` and filled from the oracle.
- The `bool_info` parameter of `thai_parse`: it is unused, because
  `add_word` builds its own record. The `mode` of the call is also not
  modelled: it does not affect segmentation.
- `Segmenter.ThaiParse`: it requires `numCut < length` (`Fits`). When `th_brk`
  fills the whole buffer, the source reads past it; that case is recorded
  under "Findings", not modelled as a run.
- `Types.IsAlpha`: it is `isalpha` in the C locale. Under a TIS-620 locale,
  bytes 0xA1 and up also count as letters, and every Thai chunk would take
  the one-word branch. The locale the server runs in is not modelled.
- The server's `mysql_add_word` takes the length as `int word_len`. The
  plugin interface header that declares it is not part of this model;
  `Types.ToInt32` models that parameter.
- `Session.Parse`: it sums replies as unbounded integers. Overflow of the C
  `int` accumulator is not modelled.
- `Segmenter.ThaiParse`: it computes `pos[i] * numBytePerChar` and the
  offsets as unbounded integers. The model does not include C `int` overflow
  for chunks above 2^31 / `mbmaxlen` bytes. It also does not include the
  narrowing of `word.len` from `uint` to `int`.

## Findings

| source | as written | input that shows it | evidently intended | confidence | as-written member | corrected member |
|---|---|---|---|---|---|---|
| plugin/fulltext/thaift_parser/plugin_thaift.cc:203-215 | The loop `i <= numCut` reads `pos[numCut]`, outside the `numCut` cuts `th_brk` reports, and ends the last word there instead of at the end of the chunk. It relies on an undocumented side effect of `th_brk`: a stored but uncounted break at the end of the string. When that entry holds the character count and the width is uniform, the loop is right (`Corrected.AsWrittenAgreesWhenUniform`). | The side effect fails when the string `th_brk` sees does not end with the chunk. The converted buffer is not NUL-terminated, so `th_brk` may read past the chunk. A chunk may also end in non-Thai text, where no end break is stored. Example: Thai chunk "กข" in utf8 (6 bytes), cut after one letter, with `pos[1] = 0` rather than 2. The words are (0, 3) and (3, -3). `add_word`'s `size_t len` holds 2^64 - 3, and the server's `int word_len` gets -3. | One word per reported cut plus a final word from the last cut to the end of the chunk, partitioning the chunk. | plausible; not executed; depends on what `th_brk` leaves after the reported cuts | `SegmenterExamples.UnfilledEntryCounterexample` | `Corrected.SegmentsPartitionChunk` |
| plugin/fulltext/thaift_parser/plugin_thaift.cc:203-208 | `pos` has `length` entries, and `th_brk` may fill all of them (it only promises `numCut <= length`). The loop then reads `pos[length]`, one entry past the buffer. This can happen when `th_brk` reads past the converted text, which is not NUL-terminated. | A chunk for which `th_brk` returns `numCut == length`: the last read is `pos[length]`. | Read only the reported cuts, `pos[0]` to `pos[numCut - 1]`, and take the end of the last word from the chunk itself. | plausible; not executed; depends on what `th_brk` finds past the converted text | `Segmenter.LoopReadsInsideBuffer` | `Corrected.SegmentsPartitionChunk` |
| plugin/fulltext/thaift_parser/plugin_thaift.cc:190 | Character positions become byte offsets through one width, `param->cs->mbmaxlen`. | The same chunk in utf8mb4 (`mbmaxlen` 4, Thai letters 3 bytes), even with `pos[1] = 2`: the words are (0, 4) and (4, 4). The first ends inside the second letter, and the second runs to byte 8 of a 6-byte chunk. | Byte offsets taken as the sum of the widths of the characters before the cut. | not executed; depends on the document charset | `SegmenterExamples.UniformWidthCounterexample` | `Corrected.SegmentsPartitionChunk` |
| plugin/fulltext/thaift_parser/plugin_thaift.cc:160 | The position is `word - param->doc`, and `param->doc` is the cursor `fts_get_word` advances through the alias at line 228. | `"hello world"`, with the cursor left after each word at 5 and 11: both words get position -5. | The position is measured from the start of the document, so it equals the word's offset and strictly increases. | not executed; assumes `fts_get_word` leaves the cursor at the end of the word, as its use as the next scan start implies | `Session.CursorPositionsCollide` | `Corrected.PositionsIncrease` |
