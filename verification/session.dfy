/** `thai_parser_parse`: walks the chunks `fts_get_word` yields and parses
    each with `thai_parse`, adding up the return codes. */
module Session {
  import opened Types
  import opened Metadata
  import opened Segmenter

  /** One oracle per chunk, each fitting its chunk. */
  predicate AllFit(chunks: seq<Chunk>, oracles: seq<Oracle>) {
    && |chunks| == |oracles|
    && forall k :: 0 <= k < |chunks| ==> Fits(chunks[k], oracles[k])
  }

  /** Every word submitted for the chunks, chunk after chunk. */
  function SessionWords(chunks: seq<Chunk>, oracles: seq<Oracle>, w: int): (words: seq<WordCall>)
    requires AllFit(chunks, oracles)
    decreases |chunks|
  {
    if |chunks| == 0 then []
    else
      SessionWords(chunks[..|chunks| - 1], oracles[..|oracles| - 1], w)
      + ChunkWords(chunks[|chunks| - 1], oracles[|oracles| - 1], w)
  }

  /** How many words `thai_parse` submits for one chunk. */
  function WordCount(chunk: Chunk, o: Oracle): (n: nat)
    requires Fits(chunk, o)
  {
    if IsAlphabetic(o) then 1 else o.numCut + 1
  }

  /** How many words are submitted for all the chunks. */
  function TotalWordCount(chunks: seq<Chunk>, oracles: seq<Oracle>): (n: nat)
    requires AllFit(chunks, oracles)
    decreases |chunks|
  {
    if |chunks| == 0 then 0
    else
      TotalWordCount(chunks[..|chunks| - 1], oracles[..|oracles| - 1])
      + WordCount(chunks[|chunks| - 1], oracles[|oracles| - 1])
  }

  /** `thai_parser_parse`: the chunks stand for the successive results of
      `fts_get_word`, and each is parsed with `thai_parse`. The words
      submitted do not depend on the server's replies, and the result is the
      plain sum of all of them. */
  method Parse(chunks: seq<Chunk>, oracles: seq<Oracle>, w: int, host: Host)
    returns (ret: int, calls: seq<WordCall>)
    requires AllFit(chunks, oracles)
    ensures calls == SessionWords(chunks, oracles, w)
    ensures ret == Responses(host, [], calls)
  {
    ret := 0;
    calls := [];
    var k := 0;
    while k < |chunks|
      invariant 0 <= k <= |chunks|
      invariant calls == SessionWords(chunks[..k], oracles[..k], w)
      invariant ret == Responses(host, [], calls)
    {
      var r, cs := ThaiParse(chunks[k], oracles[k], w, host, calls);
      ParseStep(chunks, oracles, w, host, k, calls, cs);
      ret := ret + r;
      calls := calls + cs;
      k := k + 1;
    }
    assert chunks[..k] == chunks && oracles[..k] == oracles;
  }

  /** Parsing one more chunk appends its words. */
  lemma SessionStep(chunks: seq<Chunk>, oracles: seq<Oracle>, w: int, k: nat)
    requires AllFit(chunks, oracles) && k < |chunks|
    ensures SessionWords(chunks[..k + 1], oracles[..k + 1], w)
         == SessionWords(chunks[..k], oracles[..k], w) + ChunkWords(chunks[k], oracles[k], w)
  {
    assert chunks[..k + 1][..k] == chunks[..k];
    assert oracles[..k + 1][..k] == oracles[..k];
  }

  /** One iteration of the parse loop: appending the next chunk's words
      keeps the words and the summed replies in step with the first `k + 1`
      chunks. */
  lemma ParseStep(chunks: seq<Chunk>, oracles: seq<Oracle>, w: int, host: Host, k: nat,
                  calls: seq<WordCall>, cs: seq<WordCall>)
    requires AllFit(chunks, oracles) && k < |chunks|
    requires calls == SessionWords(chunks[..k], oracles[..k], w)
    requires cs == ChunkWords(chunks[k], oracles[k], w)
    ensures calls + cs == SessionWords(chunks[..k + 1], oracles[..k + 1], w)
    ensures Responses(host, [], calls + cs) == Responses(host, [], calls) + Responses(host, calls, cs)
  {
    SessionStep(chunks, oracles, w, k);
    ResponsesAppend(host, [], calls, cs);
    assert [] + calls == calls;
  }

  /** Every chunk contributes all its words: one for an alphabetic chunk,
      `numCut + 1` for a Thai one. */
  lemma {:induction false} SessionWordCount(chunks: seq<Chunk>, oracles: seq<Oracle>, w: int)
    requires AllFit(chunks, oracles)
    ensures |SessionWords(chunks, oracles, w)| == TotalWordCount(chunks, oracles)
    decreases |chunks|
  {
    if |chunks| > 0 {
      SessionWordCount(chunks[..|chunks| - 1], oracles[..|oracles| - 1], w);
    }
  }

  /** A non-zero reply stops nothing: a server that answers every word with
      the same code makes the parse return that code times the number of
      words of all chunks. */
  lemma ConstantCodesAccumulate(chunks: seq<Chunk>, oracles: seq<Oracle>, w: int, host: Host, code: int)
    requires AllFit(chunks, oracles)
    requires forall h :: host(h) == code
    ensures Responses(host, [], SessionWords(chunks, oracles, w)) == code * TotalWordCount(chunks, oracles)
  {
    SessionWordCount(chunks, oracles, w);
    ConstantHostSum(host, code, [], SessionWords(chunks, oracles, w));
  }

  /** A prefix of a prefix is a prefix. */
  lemma PrefixOfPrefix<T>(all: seq<T>, longer: seq<T>, prefix: seq<T>, rest: seq<T>)
    requires |longer| <= |all| && all[..|longer|] == longer && longer == prefix + rest
    ensures |prefix| <= |all| && all[..|prefix|] == prefix
  {
    assert all[..|prefix|] == all[..|longer|][..|prefix|];
  }

  /** The words of the first `k` chunks are the beginning of the words of
      all chunks. */
  lemma {:induction false} SessionPrefix(chunks: seq<Chunk>, oracles: seq<Oracle>, w: int, k: nat)
    requires AllFit(chunks, oracles) && k <= |chunks|
    ensures var prefix := SessionWords(chunks[..k], oracles[..k], w);
      var all := SessionWords(chunks, oracles, w);
      |prefix| <= |all| && all[..|prefix|] == prefix
    decreases |chunks| - k
  {
    if k < |chunks| {
      SessionPrefix(chunks, oracles, w, k + 1);
      SessionStep(chunks, oracles, w, k);
      PrefixOfPrefix(SessionWords(chunks, oracles, w),
        SessionWords(chunks[..k + 1], oracles[..k + 1], w),
        SessionWords(chunks[..k], oracles[..k], w),
        ChunkWords(chunks[k], oracles[k], w));
    } else {
      assert chunks[..k] == chunks && oracles[..k] == oracles;
    }
  }

  /** Every word of one chunk reports its offset minus the chunk's cursor. */
  lemma ChunkPositions(chunk: Chunk, o: Oracle, w: int)
    requires Fits(chunk, o)
    ensures var mine := ChunkWords(chunk, o, w);
      |mine| >= 1 && forall i :: 0 <= i < |mine| ==> mine[i].info.position == mine[i].offset - chunk.cursor
  {
  }

  /** Elements `from` to `to` of a sequence that begins with `prefix + mine`
      are the elements of `mine`. */
  lemma SliceOfConcat<T>(all: seq<T>, prefix: seq<T>, mine: seq<T>)
    requires |prefix + mine| <= |all| && all[..|prefix + mine|] == prefix + mine
    ensures forall i :: |prefix| <= i < |prefix| + |mine| ==> all[i] == mine[i - |prefix|]
  {
    forall i | |prefix| <= i < |prefix| + |mine|
      ensures all[i] == mine[i - |prefix|]
    {
      assert all[i] == all[..|prefix + mine|][i] == (prefix + mine)[i];
    }
  }

  /** Each word's position is measured from the cursor of its own chunk: the
      words of chunk `k`, which follow those of the chunks before it, all
      report their offset minus `chunks[k].cursor`. */
  lemma PositionsFromChunkCursor(chunks: seq<Chunk>, oracles: seq<Oracle>, w: int, k: nat)
    requires AllFit(chunks, oracles) && k < |chunks|
    ensures var all := SessionWords(chunks, oracles, w);
      var from := |SessionWords(chunks[..k], oracles[..k], w)|;
      var to := |SessionWords(chunks[..k + 1], oracles[..k + 1], w)|;
      && from < to <= |all|
      && forall i :: from <= i < to ==> all[i].info.position == all[i].offset - chunks[k].cursor
  {
    var all := SessionWords(chunks, oracles, w);
    var before := SessionWords(chunks[..k], oracles[..k], w);
    var mine := ChunkWords(chunks[k], oracles[k], w);
    SessionStep(chunks, oracles, w, k);
    SessionPrefix(chunks, oracles, w, k + 1);
    ChunkPositions(chunks[k], oracles[k], w);
    SliceOfConcat(all, before, mine);
  }

  /** `"hello world"`: `fts_get_word` leaves the cursor just after each word
      it returns, at 5 and then at 11. Both words are alphabetic, and both
      are submitted with position -5, although they start at 0 and 6. */
  lemma CursorPositionsCollide()
    ensures var words := SessionWords(
        [Chunk(0, 5, 5), Chunk(6, 5, 11)],
        [Oracle('h' as int as byte, 0, []), Oracle('w' as int as byte, 0, [])], 1);
      && |words| == 2
      && words[0].offset == 0 && words[1].offset == 6
      && words[0].info.position == -5 && words[1].info.position == -5
  {
    var chunks := [Chunk(0, 5, 5), Chunk(6, 5, 11)];
    var oracles := [Oracle('h' as int as byte, 0, []), Oracle('w' as int as byte, 0, [])];
    assert chunks[..1] == [Chunk(0, 5, 5)] && oracles[..1] == [Oracle('h' as int as byte, 0, [])];
  }
}
