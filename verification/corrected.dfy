/** What `thai_parse` and `add_word` evidently mean to do: cut a Thai chunk at
    the positions `th_brk` reports and nowhere else, run the last word to the
    end of the chunk, convert character positions to bytes with each
    character's own width, and report positions from the start of the
    document. */
module Corrected {
  import opened Types
  import opened Metadata
  import opened Segmenter

  /** Byte offset of character `k` in a chunk whose characters take `widths`
      bytes each in the document's character set. */
  function Prefix(widths: seq<int>, k: nat): (p: int)
    requires k <= |widths|
    decreases k
  {
    if k == 0 then 0 else Prefix(widths, k - 1) + widths[k - 1]
  }

  /** Every character takes at least one byte. */
  predicate PositiveWidths(widths: seq<int>) {
    forall i :: 0 <= i < |widths| ==> widths[i] >= 1
  }

  /** What `th_brk` promises about the cuts it reports for `n` characters:
      interior positions, strictly increasing. */
  predicate InteriorCuts(cuts: seq<int>, n: int) {
    && (forall i :: 0 <= i < |cuts| ==> 0 < cuts[i] < n)
    && (forall i, j :: 0 <= i < j < |cuts| ==> cuts[i] < cuts[j])
  }

  /** What a corrected `thai_parse` learns about one chunk: the first
      converted byte, the cuts `th_brk` reported (and only those) and the
      width of each character of the chunk. */
  datatype Segmentation = Segmentation(firstConverted: byte, cuts: seq<int>, widths: seq<int>)

  /** The segmentation belongs to the chunk: its widths add up to the chunk's
      length and its cuts lie strictly inside the chunk's characters. */
  predicate Describes(chunk: Chunk, s: Segmentation) {
    && PositiveWidths(s.widths)
    && Prefix(s.widths, |s.widths|) == chunk.len
    && InteriorCuts(s.cuts, |s.widths|)
  }

  /** Character index of boundary `j`: 0, then the cuts, then the character
      count. */
  function Boundary(s: Segmentation, j: nat): (b: nat)
    requires InteriorCuts(s.cuts, |s.widths|) && j <= |s.cuts| + 1
    ensures b <= |s.widths|
  {
    if j == 0 then 0 else if j == |s.cuts| + 1 then |s.widths| else s.cuts[j - 1]
  }

  /** `add_word` with the position measured from the start of the document,
      which the parse would have to remember before `fts_get_word` moves
      `param->doc`. */
  function AddWordAnchored(offset: int, len: int): (c: WordCall)
    ensures c.offset == offset && c.len == len
    ensures PlainWordInfo(c.info)
    ensures c.info.position == offset
  {
    AddWord(offset, len, 0)
  }

  /** Word `j` of a corrected Thai chunk: from boundary `j` to boundary
      `j + 1`, in bytes. */
  function SegmentWord(chunk: Chunk, s: Segmentation, j: nat): (c: WordCall)
    requires Describes(chunk, s) && j <= |s.cuts|
  {
    var from := Prefix(s.widths, Boundary(s, j));
    AddWordAnchored(chunk.start + from, Prefix(s.widths, Boundary(s, j + 1)) - from)
  }

  /** The words a corrected `thai_parse` submits for one chunk. */
  function SegmentWords(chunk: Chunk, s: Segmentation): (words: seq<WordCall>)
    requires Describes(chunk, s)
  {
    if IsAlpha(s.firstConverted) then [AddWordAnchored(chunk.start, chunk.len)]
    else seq(|s.cuts| + 1, j requires 0 <= j <= |s.cuts| => SegmentWord(chunk, s, j))
  }

  /** Byte offsets grow strictly with character indices. */
  lemma {:induction false} PrefixStrictlyIncreasing(widths: seq<int>, i: nat, j: nat)
    requires PositiveWidths(widths) && i < j <= |widths|
    ensures Prefix(widths, i) < Prefix(widths, j)
    decreases j - i
  {
    if i + 1 < j {
      PrefixStrictlyIncreasing(widths, i, j - 1);
    }
  }

  /** Boundaries of a non-empty chunk grow strictly. */
  lemma BoundaryStrictlyIncreasing(s: Segmentation, i: nat, j: nat)
    requires InteriorCuts(s.cuts, |s.widths|) && |s.widths| >= 1 && i < j <= |s.cuts| + 1
    ensures Boundary(s, i) < Boundary(s, j)
  {
  }

  /** Corrected word `j` starts at byte boundary `j` and is not empty. */
  lemma SegmentWordBounds(chunk: Chunk, s: Segmentation, j: nat)
    requires Describes(chunk, s) && chunk.len >= 1 && j <= |s.cuts|
    ensures SegmentWord(chunk, s, j).offset == chunk.start + Prefix(s.widths, Boundary(s, j))
    ensures SegmentWord(chunk, s, j).offset + SegmentWord(chunk, s, j).len
         == chunk.start + Prefix(s.widths, Boundary(s, j + 1))
    ensures SegmentWord(chunk, s, j).len >= 1
  {
    assert |s.widths| >= 1;
    BoundaryStrictlyIncreasing(s, j, j + 1);
    PrefixStrictlyIncreasing(s.widths, Boundary(s, j), Boundary(s, j + 1));
  }

  /** The corrected words partition a non-empty chunk: the first starts at
      the start of the chunk, each starts where the previous ends, the last
      ends at the end of the chunk, none is empty, and a Thai chunk yields one
      word more than `th_brk` reported cuts. */
  lemma SegmentsPartitionChunk(chunk: Chunk, s: Segmentation)
    requires Describes(chunk, s) && chunk.len >= 1
    ensures var words := SegmentWords(chunk, s);
      && |words| == (if IsAlpha(s.firstConverted) then 1 else |s.cuts| + 1)
      && words[0].offset == chunk.start
      && Contiguous(words)
      && words[|words| - 1].offset + words[|words| - 1].len == chunk.start + chunk.len
      && (forall i :: 0 <= i < |words| ==> words[i].len >= 1)
  {
    var words := SegmentWords(chunk, s);
    if !IsAlpha(s.firstConverted) {
      var n := |s.cuts|;
      SegmentWordBounds(chunk, s, 0);
      SegmentWordBounds(chunk, s, n);
      forall i | 0 < i < |words|
        ensures words[i].offset == words[i - 1].offset + words[i - 1].len
      {
        SegmentWordBounds(chunk, s, i - 1);
        SegmentWordBounds(chunk, s, i);
      }
      forall i | 0 <= i < |words|
        ensures words[i].len >= 1
      {
        SegmentWordBounds(chunk, s, i);
      }
    }
  }

  /** Within a non-empty chunk the corrected words start at strictly
      increasing offsets, all inside the chunk. */
  lemma SegmentOffsetsIncrease(chunk: Chunk, s: Segmentation)
    requires Describes(chunk, s) && chunk.len >= 1
    ensures var words := SegmentWords(chunk, s);
      && (forall i :: 0 <= i < |words| ==> chunk.start <= words[i].offset < chunk.start + chunk.len)
      && (forall i, j :: 0 <= i < j < |words| ==> words[i].offset < words[j].offset)
  {
    var words := SegmentWords(chunk, s);
    if !IsAlpha(s.firstConverted) {
      var n := |s.cuts|;
      assert |s.widths| >= 1;
      forall i | 0 <= i < |words|
        ensures chunk.start <= words[i].offset < chunk.start + chunk.len
      {
        SegmentWordBounds(chunk, s, i);
        if i > 0 {
          PrefixStrictlyIncreasing(s.widths, 0, Boundary(s, i));
        }
        BoundaryStrictlyIncreasing(s, i, n + 1);
        PrefixStrictlyIncreasing(s.widths, Boundary(s, i), |s.widths|);
      }
      forall i, j | 0 <= i < j < |words|
        ensures words[i].offset < words[j].offset
      {
        SegmentWordBounds(chunk, s, i);
        SegmentWordBounds(chunk, s, j);
        BoundaryStrictlyIncreasing(s, i, j);
        PrefixStrictlyIncreasing(s.widths, Boundary(s, i), Boundary(s, j));
      }
    }
  }

  /** Chunks in document order, none empty, none overlapping the next. */
  predicate InDocumentOrder(chunks: seq<Chunk>) {
    && (forall k :: 0 <= k < |chunks| ==> chunks[k].len >= 1)
    && (forall k :: 0 < k < |chunks| ==> chunks[k - 1].start + chunks[k - 1].len <= chunks[k].start)
  }

  /** One segmentation per chunk, each describing its chunk. */
  predicate AllDescribed(chunks: seq<Chunk>, segs: seq<Segmentation>) {
    && |chunks| == |segs|
    && forall k :: 0 <= k < |chunks| ==> Describes(chunks[k], segs[k])
  }

  /** The words a corrected parse submits, chunk after chunk. */
  function ParseWords(chunks: seq<Chunk>, segs: seq<Segmentation>): (words: seq<WordCall>)
    requires AllDescribed(chunks, segs)
    decreases |chunks|
  {
    if |chunks| == 0 then []
    else ParseWords(chunks[..|chunks| - 1], segs[..|segs| - 1]) + SegmentWords(chunks[|chunks| - 1], segs[|segs| - 1])
  }

  /** Every word's position is its offset in the document. */
  predicate PositionsAreOffsets(words: seq<WordCall>) {
    forall i :: 0 <= i < |words| ==> words[i].info.position == words[i].offset
  }

  /** Words start at strictly increasing offsets. */
  predicate StrictlyIncreasing(words: seq<WordCall>) {
    forall i, j :: 0 <= i < j < |words| ==> words[i].offset < words[j].offset
  }

  /** Every word starts in `[lo, hi)`. */
  predicate StartsWithin(words: seq<WordCall>, lo: int, hi: int) {
    forall i :: 0 <= i < |words| ==> lo <= words[i].offset < hi
  }

  /** Words of a chunk that follows all earlier words keep the order. */
  lemma ConcatIncreasing(a: seq<WordCall>, b: seq<WordCall>, lo: int, mid: int, hi: int)
    requires StrictlyIncreasing(a) && StartsWithin(a, lo, mid)
    requires StrictlyIncreasing(b) && StartsWithin(b, mid, hi)
    requires PositionsAreOffsets(a) && PositionsAreOffsets(b) && lo <= mid <= hi
    ensures StrictlyIncreasing(a + b) && StartsWithin(a + b, lo, hi) && PositionsAreOffsets(a + b)
  {
    var ab := a + b;
    forall i, j | 0 <= i < j < |ab|
      ensures ab[i].offset < ab[j].offset
    {
      if j < |a| {
        assert ab[i] == a[i] && ab[j] == a[j];
      } else if i >= |a| {
        assert ab[i] == b[i - |a|] && ab[j] == b[j - |a|];
      } else {
        assert ab[i] == a[i] && ab[j] == b[j - |a|];
      }
    }
    forall i | 0 <= i < |ab|
      ensures lo <= ab[i].offset < hi && ab[i].info.position == ab[i].offset
    {
      if i < |a| {
        assert ab[i] == a[i];
      } else {
        assert ab[i] == b[i - |a|];
      }
    }
  }

  /** The first `m` chunks are described by the first `m` segmentations. */
  lemma DescribedPrefix(chunks: seq<Chunk>, segs: seq<Segmentation>, m: nat)
    requires AllDescribed(chunks, segs) && m <= |chunks|
    ensures AllDescribed(chunks[..m], segs[..m])
  {
    forall k | 0 <= k < m
      ensures Describes(chunks[..m][k], segs[..m][k])
    {
      assert chunks[..m][k] == chunks[k] && segs[..m][k] == segs[k];
    }
  }

  /** The first `m` chunks are still in document order. */
  lemma OrderPrefix(chunks: seq<Chunk>, m: nat)
    requires InDocumentOrder(chunks) && m <= |chunks|
    ensures InDocumentOrder(chunks[..m])
  {
    var init := chunks[..m];
    forall k | 0 <= k < m
      ensures init[k].len >= 1
    {
      assert init[k] == chunks[k];
    }
    forall k | 0 < k < m
      ensures init[k - 1].start + init[k - 1].len <= init[k].start
    {
      assert init[k] == chunks[k] && init[k - 1] == chunks[k - 1];
    }
  }

  /** The corrected words of chunks in document order start at strictly
      increasing offsets inside the span of the chunks, and report their
      offsets as positions. */
  lemma {:induction false} OffsetsIncrease(chunks: seq<Chunk>, segs: seq<Segmentation>)
    requires AllDescribed(chunks, segs) && InDocumentOrder(chunks) && |chunks| > 0
    ensures var words := ParseWords(chunks, segs);
      && PositionsAreOffsets(words)
      && StrictlyIncreasing(words)
      && StartsWithin(words, chunks[0].start, chunks[|chunks| - 1].start + chunks[|chunks| - 1].len)
    decreases |chunks|
  {
    var m := |chunks| - 1;
    DescribedPrefix(chunks, segs, m);
    OrderPrefix(chunks, m);
    var prefix := ParseWords(chunks[..m], segs[..m]);
    var mine := SegmentWords(chunks[m], segs[m]);
    assert ParseWords(chunks, segs) == prefix + mine;
    var mid := chunks[m].start;
    var hi := chunks[m].start + chunks[m].len;
    SegmentOffsetsIncrease(chunks[m], segs[m]);
    assert StartsWithin(mine, mid, hi);
    if m == 0 {
      assert prefix == [];
      ConcatIncreasing(prefix, mine, mid, mid, hi);
    } else {
      OffsetsIncrease(chunks[..m], segs[..m]);
      assert chunks[..m][0] == chunks[0] && chunks[..m][m - 1] == chunks[m - 1];
      ChunksMonotone(chunks, 0, m);
      assert StartsWithin(prefix, chunks[0].start, mid);
      ConcatIncreasing(prefix, mine, chunks[0].start, mid, hi);
    }
  }

  /** In a corrected parse the position of each word is its offset in the
      document, and positions strictly increase from word to word. */
  lemma PositionsIncrease(chunks: seq<Chunk>, segs: seq<Segmentation>)
    requires AllDescribed(chunks, segs) && InDocumentOrder(chunks)
    ensures var words := ParseWords(chunks, segs);
      && (forall i :: 0 <= i < |words| ==> words[i].info.position == words[i].offset)
      && (forall i, j :: 0 <= i < j < |words| ==> words[i].info.position < words[j].info.position)
  {
    if |chunks| > 0 {
      OffsetsIncrease(chunks, segs);
    }
  }

  /** Chunks in document order start no earlier than their predecessors. */
  lemma {:induction false} ChunksMonotone(chunks: seq<Chunk>, i: nat, j: nat)
    requires InDocumentOrder(chunks) && i <= j < |chunks|
    ensures chunks[i].start <= chunks[j].start
    decreases j - i
  {
    if i < j {
      ChunksMonotone(chunks, i, j - 1);
    }
  }

  /** With every character `w` bytes wide, character `k` starts at byte
      `k * w`. */
  lemma {:induction false} UniformPrefix(widths: seq<int>, w: int, k: nat)
    requires k <= |widths|
    requires forall i :: 0 <= i < |widths| ==> widths[i] == w
    ensures Prefix(widths, k) == k * w
    decreases k
  {
    if k > 0 {
      UniformPrefix(widths, w, k - 1);
      assert (k - 1) * w + w == k * w;
    }
  }

  /** When the code as written is right: if every character of a Thai chunk
      is `mbmaxlen` bytes wide, the buffer holds exactly the reported cuts
      and the entry after them happens to hold the character count, then
      `thai_parse` submits the same byte ranges as the corrected
      segmentation. */
  lemma AsWrittenAgreesWhenUniform(chunk: Chunk, o: Oracle, w: int, s: Segmentation)
    requires Fits(chunk, o) && !IsAlphabetic(o) && Describes(chunk, s)
    requires s.firstConverted == o.firstConverted
    requires forall i :: 0 <= i < |s.widths| ==> s.widths[i] == w
    requires o.pos[..o.numCut] == s.cuts && o.pos[o.numCut] == |s.widths|
    ensures var asWritten := ChunkWords(chunk, o, w);
      var corrected := SegmentWords(chunk, s);
      && |asWritten| == |corrected|
      && forall i :: 0 <= i < |asWritten| ==>
           asWritten[i].offset == corrected[i].offset && asWritten[i].len == corrected[i].len
  {
    var asWritten := ChunkWords(chunk, o, w);
    var corrected := SegmentWords(chunk, s);
    var n := o.numCut;
    assert |s.cuts| == n;
    forall i | 0 <= i <= n
      ensures asWritten[i].offset == corrected[i].offset && asWritten[i].len == corrected[i].len
    {
      var from := if i == 0 then 0 else o.pos[i - 1];
      if i > 0 {
        assert s.cuts[i - 1] == o.pos[..n][i - 1];
      }
      if i < n {
        assert s.cuts[i] == o.pos[..n][i];
      }
      assert Boundary(s, i) == from;
      assert Boundary(s, i + 1) == o.pos[i];
      UniformPrefix(s.widths, w, Boundary(s, i));
      UniformPrefix(s.widths, w, Boundary(s, i + 1));
      ThaiWordRange(chunk, o, w, i);
    }
  }

  /** The two-letter utf8 chunk of the unfilled-entry example, corrected:
      words of 3 and 3 bytes covering the chunk, at positions 0 and 3. */
  lemma TwoLetterChunkCorrected()
    ensures SegmentWords(Chunk(0, 6, 6), Segmentation(0xA1, [1], [3, 3]))
         == [AddWordAnchored(0, 3), AddWordAnchored(3, 3)]
  {
  }
}
