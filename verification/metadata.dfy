/** What the parser hands the server for each word (`add_word`) and how the
    server's replies are accumulated. */
module Metadata {

  /** `enum_ft_token_type` of the full-text parser plugin interface. */
  datatype TokenType = TokenEof | TokenWord | TokenLeftParen | TokenRightParen | TokenStopword

  /** `MYSQL_FTPARSER_BOOLEAN_INFO`. The `quot` pointer is an int, 0 standing
      for NULL. */
  datatype BooleanInfo = BooleanInfo(
    tokenType: TokenType,
    yesno: int,
    weightAdjust: int,
    wasign: int,
    trunc: int,
    position: int,
    prev: char,
    quot: int)

  /** One call of the server's `mysql_add_word`: where the word starts (in
      bytes from the start of the document), its length as the parser computed
      it, and its metadata. The length is a C `int`; `add_word` carries it in
      a `size_t` and hands it on to the server's `int word_len`, which gets
      the same value back (`Types.SizeTRoundTrip`). */
  datatype WordCall = WordCall(offset: int, len: int, info: BooleanInfo)

  /** The fixed part of every record `add_word` builds: a plain word, no
      boolean operator, no truncation, preceded by a space. */
  predicate PlainWordInfo(info: BooleanInfo) {
    && info.tokenType == TokenWord
    && info.yesno == 0
    && info.weightAdjust == 0
    && info.wasign == 0
    && info.trunc == 0
    && info.prev == ' '
    && info.quot == 0
  }

  /** `add_word`: submits the word unchanged. `cursor` is the offset
      `param->doc` holds at the time of the call, and the position is measured
      from it, not from the start of the document. */
  function AddWord(offset: int, len: int, cursor: int): (c: WordCall)
    ensures c.offset == offset && c.len == len
    ensures PlainWordInfo(c.info)
    ensures c.info.position + cursor == offset
  {
    WordCall(offset, len, BooleanInfo(TokenWord, 0, 0, 0, 0, offset - cursor, ' ', 0))
  }

  /** The server's `mysql_add_word`, seen from the parser: its reply to the
      last call of a history of calls. The reply may depend on everything
      submitted before. */
  type Host = seq<WordCall> -> int

  /** The sum of the replies the server gives to `calls`, submitted one after
      the other after `history`. */
  function Responses(host: Host, history: seq<WordCall>, calls: seq<WordCall>): (sum: int)
    decreases |calls|
  {
    if |calls| == 0 then 0
    else Responses(host, history, calls[..|calls| - 1]) + host(history + calls)
  }

  /** Replies accumulate across consecutive batches of calls: what the second
      batch earns is judged against everything submitted before it. */
  lemma {:induction false} ResponsesAppend(host: Host, history: seq<WordCall>, a: seq<WordCall>, b: seq<WordCall>)
    ensures Responses(host, history, a + b)
         == Responses(host, history, a) + Responses(host, history + a, b)
    decreases |b|
  {
    if |b| == 0 {
      assert a + b == a;
    } else {
      var b' := b[..|b| - 1];
      assert (a + b)[..|a + b| - 1] == a + b';
      ResponsesAppend(host, history, a, b');
      assert history + (a + b) == (history + a) + b;
    }
  }

  /** A reply never stops the accumulation: when the server answers every
      call with the same code, the total is that code once per call. */
  lemma {:induction false} ConstantHostSum(host: Host, code: int, history: seq<WordCall>, calls: seq<WordCall>)
    requires forall h :: host(h) == code
    ensures Responses(host, history, calls) == code * |calls|
    decreases |calls|
  {
    if |calls| > 0 {
      ConstantHostSum(host, code, history, calls[..|calls| - 1]);
    }
  }
}
