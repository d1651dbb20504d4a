/** `thai_parse`: one whitespace-delimited chunk becomes either one word (its
    first converted byte is a letter) or the words between the cut positions
    libthai's `th_brk` reports, turned into byte ranges with one fixed
    character width. */
module Segmenter {
  import opened Types
  import opened Metadata

  /** A chunk returned by `fts_get_word`: its byte offset and length in the
      document, and the offset `param->doc` has been advanced to by the time
      the chunk is parsed (`fts_get_word` moves `param->doc` through an
      alias). */
  datatype Chunk = Chunk(start: int, len: int, cursor: int)

  /** What the foreign calls leave behind for one chunk: the first byte
      `my_convert` wrote into the TIS-620 buffer, the count `th_brk` returned,
      and the whole `pos` buffer. That buffer has one int per byte of the
      chunk; `th_brk` reports its first `numCut` entries as the cuts. What the
      entries after them hold is not part of `th_brk`'s interface: a break
      it stored and did not count, or whatever the allocator left there, so
      the model leaves them unconstrained. */
  datatype Oracle = Oracle(firstConverted: byte, numCut: int, pos: seq<int>)

  /** The dispatch of `thai_parse`: an alphabetic chunk is indexed whole. */
  predicate IsAlphabetic(o: Oracle) {
    IsAlpha(o.firstConverted)
  }

  /** What `thai_parse` relies on for a chunk that reaches `th_brk`: the `pos`
      buffer has one entry per byte of the chunk, and `th_brk` reported fewer
      cuts than that, so the loop's read of `pos[numCut]` stays inside the
      buffer. */
  predicate Fits(chunk: Chunk, o: Oracle) {
    IsAlphabetic(o) || (0 <= o.numCut < chunk.len && |o.pos| == chunk.len)
  }

  /** The word the cut loop submits at index `i`, with `w` the fixed number of
      bytes per character. */
  function CutWord(chunk: Chunk, pos: seq<int>, w: int, i: nat): (c: WordCall)
    requires i < |pos|
  {
    if i == 0 then AddWord(chunk.start, pos[0] * w, chunk.cursor)
    else AddWord(chunk.start + pos[i - 1] * w, (pos[i] - pos[i - 1]) * w, chunk.cursor)
  }

  /** Every word `thai_parse` submits for one chunk, in submission order. */
  function ChunkWords(chunk: Chunk, o: Oracle, w: int): (words: seq<WordCall>)
    requires Fits(chunk, o)
  {
    if IsAlphabetic(o) then [AddWord(chunk.start, chunk.len, chunk.cursor)]
    else seq(o.numCut + 1, i requires 0 <= i <= o.numCut => CutWord(chunk, o.pos, w, i))
  }

  /** Each word starts where the previous one ends. */
  predicate Contiguous(words: seq<WordCall>) {
    forall i :: 0 < i < |words| ==> words[i].offset == words[i - 1].offset + words[i - 1].len
  }

  /** The number of bytes the words account for. */
  function TotalLength(words: seq<WordCall>): (total: int)
    decreases |words|
  {
    if |words| == 0 then 0 else TotalLength(words[..|words| - 1]) + words[|words| - 1].len
  }

  /** `thai_parse`. The `pos` array is allocated with one entry per byte of
      the chunk and filled from what `th_brk` left; the loop runs
      `i <= numCut`, so it also reads `pos[numCut]`, the entry after the last
      reported cut. `w`
      is `param->cs->mbmaxlen`; `history` is what was submitted before this
      chunk. */
  method ThaiParse(chunk: Chunk, o: Oracle, w: int, host: Host, history: seq<WordCall>)
    returns (ret: int, calls: seq<WordCall>)
    requires Fits(chunk, o)
    ensures calls == ChunkWords(chunk, o, w)
    ensures ret == Responses(host, history, calls)
    ensures IsAlphabetic(o) ==> |calls| == 1 && calls[0].offset == chunk.start && calls[0].len == chunk.len
    ensures !IsAlphabetic(o) ==> |calls| == o.numCut + 1
    ensures !IsAlphabetic(o) ==> calls[0].offset == chunk.start && calls[0].len == o.pos[0] * w
    ensures !IsAlphabetic(o) ==>
      forall i :: 0 < i < |calls| ==> calls[i].offset == chunk.start + o.pos[i - 1] * w
    ensures !IsAlphabetic(o) ==>
      forall i :: 0 < i < |calls| ==> calls[i].len == (o.pos[i] - o.pos[i - 1]) * w
    ensures forall i :: 0 <= i < |calls| ==>
      PlainWordInfo(calls[i].info) && calls[i].info.position == calls[i].offset - chunk.cursor
  {
    ret := 0;
    calls := [];
    if IsAlpha(o.firstConverted) {
      calls := [AddWord(chunk.start, chunk.len, chunk.cursor)];
      ret := ret + host(history + calls);
    } else {
      var pos := new int[chunk.len](i requires 0 <= i < chunk.len => o.pos[i]);
      var numCut := o.numCut;
      ghost var words := ChunkWords(chunk, o, w);
      var i := 0;
      while i <= numCut
        invariant 0 <= i <= numCut + 1
        invariant calls == words[..i]
        invariant ret == Responses(host, history, calls)
      {
        var c;
        if i == 0 {
          c := AddWord(chunk.start, pos[i] * w, chunk.cursor);
        } else {
          c := AddWord(chunk.start + pos[i - 1] * w, (pos[i] - pos[i - 1]) * w, chunk.cursor);
        }
        assert c == words[i];
        calls := calls + [c];
        assert calls[..|calls| - 1] == words[..i];
        ret := ret + host(history + calls);
        i := i + 1;
      }
      assert calls == words;
    }
  }

  /** In the Thai branch the words are contiguous: word `i` starts exactly
      where word `i - 1` ends, the first at the start of the chunk. */
  lemma ThaiWordsContiguous(chunk: Chunk, o: Oracle, w: int)
    requires Fits(chunk, o) && !IsAlphabetic(o)
    ensures ChunkWords(chunk, o, w)[0].offset == chunk.start
    ensures Contiguous(ChunkWords(chunk, o, w))
  {
    var words := ChunkWords(chunk, o, w);
    forall i | 0 < i < |words|
      ensures words[i].offset == words[i - 1].offset + words[i - 1].len
    {
      if i == 1 {
        assert words[i].offset == chunk.start + o.pos[0] * w;
      } else {
        assert words[i - 1].offset + words[i - 1].len
            == chunk.start + o.pos[i - 2] * w + (o.pos[i - 1] - o.pos[i - 2]) * w;
        assert o.pos[i - 2] * w + (o.pos[i - 1] - o.pos[i - 2]) * w == o.pos[i - 1] * w;
      }
    }
  }

  /** Contiguous words span, from the first start to the last end, exactly
      the bytes their lengths add up to. */
  lemma {:induction false} ContiguousSpan(words: seq<WordCall>)
    requires |words| > 0 && Contiguous(words)
    ensures words[|words| - 1].offset + words[|words| - 1].len == words[0].offset + TotalLength(words)
    decreases |words|
  {
    if |words| > 1 {
      var init := words[..|words| - 1];
      assert Contiguous(init) by {
        forall i | 0 < i < |init|
          ensures init[i].offset == init[i - 1].offset + init[i - 1].len
        {
          assert init[i] == words[i] && init[i - 1] == words[i - 1];
        }
      }
      ContiguousSpan(init);
    } else {
      assert words[..0] == [];
    }
  }

  /** The Thai words cover `pos[numCut] * w` bytes from the start of the
      chunk, whatever the length of the chunk: the last word ends where the
      entry after the last reported cut says, not where the chunk ends. */
  lemma ThaiCoverage(chunk: Chunk, o: Oracle, w: int)
    requires Fits(chunk, o) && !IsAlphabetic(o)
    ensures TotalLength(ChunkWords(chunk, o, w)) == o.pos[o.numCut] * w
    ensures var words := ChunkWords(chunk, o, w);
      words[|words| - 1].offset + words[|words| - 1].len == chunk.start + o.pos[o.numCut] * w
  {
    var words := ChunkWords(chunk, o, w);
    ThaiWordsContiguous(chunk, o, w);
    ContiguousSpan(words);
    var n := o.numCut;
    if n == 0 {
      assert words[n].offset + words[n].len == chunk.start + o.pos[n] * w;
    } else {
      assert words[n].offset + words[n].len
          == chunk.start + o.pos[n - 1] * w + (o.pos[n] - o.pos[n - 1]) * w;
      assert o.pos[n - 1] * w + (o.pos[n] - o.pos[n - 1]) * w == o.pos[n] * w;
    }
  }

  /** With a positive width, every Thai word length is non-negative exactly
      when the buffer entries the loop reads, `pos[0]` to `pos[numCut]`, start
      at or above zero and never decrease. */
  lemma ThaiLengthsNonNegative(chunk: Chunk, o: Oracle, w: int)
    requires Fits(chunk, o) && !IsAlphabetic(o) && w > 0
    ensures (forall i :: 0 <= i < |ChunkWords(chunk, o, w)| ==> ChunkWords(chunk, o, w)[i].len >= 0)
        <==> (0 <= o.pos[0] && forall i :: 0 < i <= o.numCut ==> o.pos[i - 1] <= o.pos[i])
  {
    var words := ChunkWords(chunk, o, w);
    forall i | 0 <= i <= o.numCut
      ensures words[i].len >= 0 <==> (if i == 0 then 0 else o.pos[i - 1]) <= o.pos[i]
    {
      var d := o.pos[i] - (if i == 0 then 0 else o.pos[i - 1]);
      assert words[i].len == d * w;
      SignOfProduct(d, w);
    }
    if forall i :: 0 <= i < |words| ==> words[i].len >= 0 {
      assert words[0].len >= 0;
      forall i | 0 < i <= o.numCut
        ensures o.pos[i - 1] <= o.pos[i]
      {
        assert words[i].len >= 0;
      }
    }
    if 0 <= o.pos[0] && forall i :: 0 < i <= o.numCut ==> o.pos[i - 1] <= o.pos[i] {
      forall i | 0 <= i < |words|
        ensures words[i].len >= 0
      {
        if i > 0 {
          assert o.pos[i - 1] <= o.pos[i];
        }
      }
    }
  }

  /** A product with a positive factor has the sign of the other factor. */
  lemma SignOfProduct(d: int, w: int)
    requires w > 0
    ensures d * w >= 0 <==> d >= 0
  {
    if d < 0 {
      assert d * w == -((-d) * w);
    }
  }

  /** Word `i` of a Thai chunk covers the bytes from `CutStart * w` to
      `pos[i] * w` past the chunk start, `CutStart` being 0 for the first word
      and `pos[i - 1]` otherwise. */
  lemma ThaiWordRange(chunk: Chunk, o: Oracle, w: int, i: nat)
    requires Fits(chunk, o) && !IsAlphabetic(o) && i <= o.numCut
    ensures var word := ChunkWords(chunk, o, w)[i];
      && word.offset == chunk.start + (if i == 0 then 0 else o.pos[i - 1]) * w
      && word.offset + word.len == chunk.start + o.pos[i] * w
  {
    if i > 0 {
      assert o.pos[i - 1] * w + (o.pos[i] - o.pos[i - 1]) * w == o.pos[i] * w;
    }
  }

  /** Entries that never decrease from one to the next never decrease over
      any distance. */
  lemma {:induction false} CutsMonotone(o: Oracle, i: nat, j: nat)
    requires j <= o.numCut < |o.pos|
    requires forall k :: 0 < k <= o.numCut ==> o.pos[k - 1] <= o.pos[k]
    requires i <= j
    ensures o.pos[i] <= o.pos[j]
    decreases j - i
  {
    if i < j {
      CutsMonotone(o, i, j - 1);
    }
  }

  /** Scaling by a positive width keeps the order. */
  lemma ScaleMonotone(a: int, b: int, w: int)
    requires a <= b && w > 0
    ensures a * w <= b * w
  {
    assert b * w - a * w == (b - a) * w;
  }

  /** Under the condition of `ThaiLengthsNonNegative` the Thai words tile
      `[start, start + pos[numCut] * w)`: each lies inside that range, each
      starts where the previous one ends, and each ends no later than any
      later word starts, so there are no gaps and no overlaps. */
  lemma ThaiWordsTile(chunk: Chunk, o: Oracle, w: int)
    requires Fits(chunk, o) && !IsAlphabetic(o) && w > 0
    requires 0 <= o.pos[0] && forall i :: 0 < i <= o.numCut ==> o.pos[i - 1] <= o.pos[i]
    ensures var words := ChunkWords(chunk, o, w);
      && (forall i :: 0 <= i < |words| ==>
            chunk.start <= words[i].offset && words[i].offset + words[i].len <= chunk.start + o.pos[o.numCut] * w)
      && (forall i, j :: 0 <= i < j < |words| ==> words[i].offset + words[i].len <= words[j].offset)
      && Contiguous(words)
  {
    var words := ChunkWords(chunk, o, w);
    var n := o.numCut;
    ThaiWordsContiguous(chunk, o, w);
    forall i | 0 <= i < |words|
      ensures chunk.start <= words[i].offset && words[i].offset + words[i].len <= chunk.start + o.pos[n] * w
    {
      ThaiWordRange(chunk, o, w, i);
      if i > 0 {
        CutsMonotone(o, 0, i - 1);
        ScaleMonotone(0, o.pos[i - 1], w);
      }
      CutsMonotone(o, i, n);
      ScaleMonotone(o.pos[i], o.pos[n], w);
    }
    forall i, j | 0 <= i < j < |words|
      ensures words[i].offset + words[i].len <= words[j].offset
    {
      ThaiWordRange(chunk, o, w, i);
      ThaiWordRange(chunk, o, w, j);
      CutsMonotone(o, i, j - 1);
      ScaleMonotone(o.pos[i], o.pos[j - 1], w);
    }
  }

  /** The indices of `pos` the cut loop reads, in order: 0 to `numCut`. */
  function LoopReads(numCut: nat): (indices: seq<int>) {
    seq(numCut + 1, i => i)
  }

  /** The Thai words depend on `pos` only through the entries at
      `LoopReads(numCut)`: two runs with the same first byte and count whose
      buffers agree there submit the same words, whatever the other entries
      hold. */
  lemma ChunkWordsReadOnlyLoopReads(chunk: Chunk, o1: Oracle, o2: Oracle, w: int)
    requires Fits(chunk, o1) && Fits(chunk, o2) && !IsAlphabetic(o1)
    requires o2.firstConverted == o1.firstConverted && o2.numCut == o1.numCut
    requires forall k :: 0 <= k < |LoopReads(o1.numCut)| ==>
      o1.pos[LoopReads(o1.numCut)[k]] == o2.pos[LoopReads(o1.numCut)[k]]
    ensures ChunkWords(chunk, o1, w) == ChunkWords(chunk, o2, w)
  {
    var indices := LoopReads(o1.numCut);
    forall i | 0 <= i <= o1.numCut
      ensures CutWord(chunk, o1.pos, w, i) == CutWord(chunk, o2.pos, w, i)
    {
      assert o1.pos[indices[i]] == o2.pos[indices[i]];
      if i > 0 {
        assert o1.pos[indices[i - 1]] == o2.pos[indices[i - 1]];
      }
    }
  }

  /** `th_brk` only promises `numCut <= length`, the size of the `pos`
      buffer. The loop's reads, the indices `ChunkWordsReadOnlyLoopReads`
      and `LastWordReadsUnfilledEntry` pin down, stay inside the buffer
      exactly when it reports fewer cuts than that; with a full buffer the
      last read, `pos[numCut]`, is one entry past its end. */
  lemma LoopReadsInsideBuffer(numCut: nat, length: int)
    requires numCut <= length
    ensures var indices := LoopReads(numCut);
      (forall k :: 0 <= k < |indices| ==> indices[k] < length) <==> numCut < length
    ensures var indices := LoopReads(numCut);
      numCut == length ==> indices[|indices| - 1] == length
  {
    var indices := LoopReads(numCut);
    assert indices[|indices| - 1] == numCut;
  }

  /** The last Thai word depends on `pos[numCut]`, the entry after the cuts
      `th_brk` reported: two runs that agree on the reported cuts but find
      different values in that entry submit different last words. */
  lemma LastWordReadsUnfilledEntry(chunk: Chunk, o1: Oracle, o2: Oracle, w: int)
    requires Fits(chunk, o1) && Fits(chunk, o2) && !IsAlphabetic(o1) && w > 0
    requires o2.firstConverted == o1.firstConverted && o2.numCut == o1.numCut
    requires o2.pos[..o1.numCut] == o1.pos[..o1.numCut]
    requires o2.pos[o1.numCut] != o1.pos[o1.numCut]
    ensures ChunkWords(chunk, o1, w)[o1.numCut] != ChunkWords(chunk, o2, w)[o1.numCut]
  {
    var n := o1.numCut;
    var w1 := ChunkWords(chunk, o1, w)[n];
    var w2 := ChunkWords(chunk, o2, w)[n];
    var base := if n == 0 then 0 else o1.pos[n - 1];
    if n > 0 {
      assert o2.pos[n - 1] == o2.pos[..n][n - 1] == o1.pos[..n][n - 1];
    }
    assert w1.len == (o1.pos[n] - base) * w;
    assert w2.len == (o2.pos[n] - base) * w;
  }
}

/** Concrete runs of `thai_parse` that exhibit what its cut loop does with
    the positions `th_brk` reports. */
module SegmenterExamples {
  import opened Types
  import opened Metadata
  import opened Segmenter

  /** TIS-620 code of the Thai letter KO KAI, the first byte `my_convert`
      writes for a chunk that starts with it. */
  const KO_KAI: byte := 0xA1

  /** A two-letter Thai chunk in utf8 (6 bytes, 3 per letter) that `th_brk`
      cuts after its first letter: it reports `pos[0] = 1` and returns 1. The
      loop also reads `pos[1]`, which here holds 0 rather than the letter
      count 2, as when the string `th_brk` saw did not end with the chunk.
      The second word gets length -3: `add_word`'s `size_t` parameter holds
      2^64 - 3, and the server's `int` parameter gets -3 back. The words do
      not end at the end of the chunk. */
  lemma UnfilledEntryCounterexample()
    ensures var words := ChunkWords(Chunk(0, 6, 6), Oracle(KO_KAI, 1, [1, 0, 0, 0, 0, 0]), 3);
      && |words| == 2
      && words[0].offset == 0 && words[0].len == 3
      && words[1].offset == 3 && words[1].len == -3
      && ToSizeT(words[1].len) == SIZE_T_MODULUS - 3
      && ToInt32(ToSizeT(words[1].len)) == -3
      && words[1].offset + words[1].len != 6
  {
    SizeTRoundTrip(-3);
  }

  /** The same two-letter chunk in utf8mb4, whose `mbmaxlen` is 4 although a
      Thai letter takes 3 bytes in it. Even when the entry after the cut
      happens to hold the letter count 2, the first word is 4 bytes long and
      ends inside the second letter (bytes 3 to 5), and the second word runs
      two bytes past the end of the chunk. */
  lemma UniformWidthCounterexample()
    ensures var words := ChunkWords(Chunk(0, 6, 6), Oracle(KO_KAI, 1, [1, 2, 0, 0, 0, 0]), 4);
      && |words| == 2
      && words[0].offset == 0 && words[0].len == 4
      && 3 < words[0].offset + words[0].len < 6
      && words[1].offset + words[1].len == 8
  {
  }
}
