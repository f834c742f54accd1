/** `vectorize_stories`, `vectorize_query` and `vectorize_story`
    (memory_network_q1.py:88-129): words become their `word_idx` indices, each
    row is padded or cut to a fixed length, and each answer becomes a one-hot
    row over `0..len(word_idx)`. */
module Vectorize {
  import opened Results
  import opened Babi
  import opened Tokenizer
  import opened Stories
  import opened Vocabulary

  // ------------------------------------------------------------ encoding

  /** `[word_idx[w] for w in ws]`: a KeyError at the first unknown word. */
  function Encode(ws: seq<string>, m: map<string, int>): Result<seq<int>> {
    if ws == [] then Ok([])
    else if ws[0] !in m then Err(UnknownWord(ws[0]))
    else match Encode(ws[1..], m)
      case Err(e) => Err(e)
      case Ok(rest) => Ok([m[ws[0]]] + rest)
  }

  /** Encoding succeeds exactly when every word is known; it then maps word
      `i` to `m[ws[i]]`, and otherwise names the first unknown word. */
  lemma {:induction false} EncodeSpec(ws: seq<string>, m: map<string, int>)
    ensures Encode(ws, m).Ok? <==> forall i :: 0 <= i < |ws| ==> ws[i] in m
    ensures Encode(ws, m).Ok? ==>
              |Encode(ws, m).value| == |ws|
              && forall i :: 0 <= i < |ws| ==> Encode(ws, m).value[i] == m[ws[i]]
    ensures Encode(ws, m).Err? ==>
              exists k :: 0 <= k < |ws| && ws[k] !in m
                          && (forall i :: 0 <= i < k ==> ws[i] in m)
                          && Encode(ws, m).error == UnknownWord(ws[k])
  {
    if ws != [] && ws[0] in m {
      var tail := ws[1..];
      EncodeSpec(tail, m);
      assert forall i :: 1 <= i < |ws| ==> ws[i] == tail[i - 1];
      if Encode(tail, m).Err? {
        var k :| 0 <= k < |tail| && tail[k] !in m
                 && (forall i :: 0 <= i < k ==> tail[i] in m)
                 && Encode(tail, m).error == UnknownWord(tail[k]);
        assert ws[k + 1] == tail[k];
      }
    }
  }

  /** The words of a flattened story; the placeholder string `''` has none. */
  function StoryWords(story: Entry): seq<string> {
    if story.Sentence? then story.tokens else []
  }

  // ------------------------------------------------------------- one-hot

  /** A row of `size` zeros with a 1 at `p`. */
  function Indicator(size: nat, p: nat): seq<int> {
    seq(size, i requires 0 <= i < size => if i == p then 1 else 0)
  }

  /** `y = np.zeros(size); y[index] = 1`: numpy wraps a negative index once,
      and any other index outside the row is an IndexError. */
  function OneHotOf(size: nat, index: int): Result<seq<int>> {
    match PyIndex(size, index)
    case None => Err(AnswerIndexOutOfRange)
    case Some(p) => Ok(Indicator(size, p))
  }

  /** The one-hot row exists exactly for an index numpy accepts; it has
      length `size`, a 1 at the (wrapped) index and 0 everywhere else. */
  lemma OneHotSpec(size: nat, index: int)
    ensures OneHotOf(size, index).Ok? <==> -(size as int) <= index < size
    ensures OneHotOf(size, index).Ok? ==>
              var y := OneHotOf(size, index).value;
              var p := if index >= 0 then index else size + index;
              |y| == size && y[p] == 1 && forall i :: 0 <= i < size && i != p ==> y[i] == 0
  {
  }

  /** The answer row: a zero vector of `size` entries with a 1 written at
      `index`, built in an array as the source builds it with numpy. */
  method OneHot(size: nat, index: int) returns (r: Result<seq<int>>)
    ensures r == OneHotOf(size, index)
  {
    var y := new int[size](_ => 0);
    var p := PyIndex(size, index);
    if p.None? {
      return Err(AnswerIndexOutOfRange);
    }
    y[p.value] := 1;
    assert y[..] == Indicator(size, p.value);
    return Ok(y[..]);
  }

  // ------------------------------------------------------------- padding

  /** `pad_sequences` on one row with Keras's defaults (`padding='pre'`,
      `truncating='pre'`, `value=0`): a short row gets zeros in front, a long
      row keeps its last `maxlen` entries. */
  function Pad(row: seq<int>, maxlen: nat): seq<int> {
    if |row| >= maxlen then row[|row| - maxlen..]
    else seq(maxlen - |row|, _ => 0) + row
  }

  /** A padded row has length `maxlen`; position `i` is 0 when it lies in
      front of the row, and otherwise the entry that lands there. */
  lemma PadSpec(row: seq<int>, maxlen: nat)
    ensures |Pad(row, maxlen)| == maxlen
    ensures forall i :: 0 <= i < maxlen ==>
              Pad(row, maxlen)[i] == (if i < maxlen - |row| then 0 else row[i - (maxlen - |row|)])
  {
  }

  /** A row no longer than `maxlen` is kept whole, at the end: nothing is cut. */
  lemma PadKeepsShortRow(row: seq<int>, maxlen: nat)
    requires |row| <= maxlen
    ensures Pad(row, maxlen)[maxlen - |row|..] == row
    ensures forall i :: 0 <= i < maxlen - |row| ==> Pad(row, maxlen)[i] == 0
  {
  }

  /** When the row holds no 0, the zeros of the padded row are exactly the
      padding in front. */
  lemma ZerosOnlyPadding(row: seq<int>, maxlen: nat)
    requires forall i :: 0 <= i < |row| ==> row[i] != 0
    ensures forall i :: 0 <= i < maxlen ==>
              (Pad(row, maxlen)[i] == 0 <==> i < maxlen - |row|)
  {
    PadSpec(row, maxlen);
  }

  /** `pad_sequences(rows, maxlen=maxlen)`: every row padded. */
  function PadAll(rows: seq<seq<int>>, maxlen: nat): seq<seq<int>> {
    seq(|rows|, k requires 0 <= k < |rows| => Pad(rows[k], maxlen))
  }

  // --------------------------------------------------- vectorize_stories

  /** The three unpadded lists the loop builds: `X`, `Xq` and `Y`. */
  datatype Vectors = Vectors(stories: seq<seq<int>>, queries: seq<seq<int>>, answers: seq<seq<int>>)

  /** One iteration: `x`, then `xq`, then `y`, each failing as in the source,
      in that order. */
  function EncodeExample(ex: FlatExample, m: map<string, int>): Result<(seq<int>, seq<int>, seq<int>)> {
    match Encode(StoryWords(ex.story), m)
    case Err(e) => Err(e)
    case Ok(x) =>
      match Encode(ex.query, m)
      case Err(e) => Err(e)
      case Ok(xq) =>
        if ex.answer !in m then Err(UnknownWord(ex.answer))
        else match OneHotOf(|m| + 1, m[ex.answer])
          case Err(e) => Err(e)
          case Ok(y) => Ok((x, xq, y))
  }

  /** The loop over `data`, stopping at the first example that fails. */
  function EncodeAll(data: seq<FlatExample>, m: map<string, int>): Result<Vectors> {
    if data == [] then Ok(Vectors([], [], []))
    else match EncodeAll(data[..|data| - 1], m)
      case Err(e) => Err(e)
      case Ok(v) =>
        match EncodeExample(data[|data| - 1], m)
        case Err(e) => Err(e)
        case Ok(t) => Ok(Vectors(v.stories + [t.0], v.queries + [t.1], v.answers + [t.2]))
  }

  /** What `vectorize_stories` returns: the loop's lists with stories and
      queries padded. */
  function Vectorized(data: seq<FlatExample>, m: map<string, int>, storyMaxlen: nat, queryMaxlen: nat): Result<Vectors> {
    match EncodeAll(data, m)
    case Err(e) => Err(e)
    case Ok(v) => Ok(Vectors(PadAll(v.stories, storyMaxlen), PadAll(v.queries, queryMaxlen), v.answers))
  }

  lemma {:induction false} EncodeAllErrorStays(data: seq<FlatExample>, m: map<string, int>, i: nat)
    requires i <= |data| && EncodeAll(data[..i], m).Err?
    ensures EncodeAll(data, m) == EncodeAll(data[..i], m)
    decreases |data| - i
  {
    if i < |data| {
      assert data[..i + 1][..i] == data[..i];
      EncodeAllErrorStays(data, m, i + 1);
    } else {
      assert data[..i] == data;
    }
  }

  /** `vectorize_stories`. */
  method VectorizeStories(data: seq<FlatExample>, m: map<string, int>, storyMaxlen: nat, queryMaxlen: nat)
    returns (r: Result<Vectors>)
    ensures r == Vectorized(data, m, storyMaxlen, queryMaxlen)
  {
    var xs: seq<seq<int>> := [];
    var xqs: seq<seq<int>> := [];
    var ys: seq<seq<int>> := [];
    var i := 0;
    while i < |data|
      invariant 0 <= i <= |data|
      invariant EncodeAll(data[..i], m) == Ok(Vectors(xs, xqs, ys))
    {
      assert data[..i + 1][..i] == data[..i];
      var ex := data[i];
      var x := Encode(StoryWords(ex.story), m);
      if x.Err? {
        EncodeAllErrorStays(data, m, i + 1);
        return Err(x.error);
      }
      var xq := Encode(ex.query, m);
      if xq.Err? {
        EncodeAllErrorStays(data, m, i + 1);
        return Err(xq.error);
      }
      if ex.answer !in m {
        EncodeAllErrorStays(data, m, i + 1);
        return Err(UnknownWord(ex.answer));
      }
      var y := OneHot(|m| + 1, m[ex.answer]);
      if y.Err? {
        EncodeAllErrorStays(data, m, i + 1);
        return Err(y.error);
      }
      xs := xs + [x.value];
      xqs := xqs + [xq.value];
      ys := ys + [y.value];
      i := i + 1;
    }
    assert data[..i] == data;
    return Ok(Vectors(PadAll(xs, storyMaxlen), PadAll(xqs, queryMaxlen), ys));
  }

  /** Every word of the example and its answer is in `m`, and numpy accepts
      the answer's index in a row of `|m| + 1`. */
  ghost predicate Encodable(ex: FlatExample, m: map<string, int>) {
    (forall w :: w in StoryWords(ex.story) ==> w in m)
    && (forall w :: w in ex.query ==> w in m)
    && ex.answer in m && -(|m| + 1) <= m[ex.answer] <= |m|
  }

  lemma EncodeExampleSpec(ex: FlatExample, m: map<string, int>)
    ensures EncodeExample(ex, m).Ok? <==> Encodable(ex, m)
    ensures EncodeExample(ex, m).Ok? ==>
              var t := EncodeExample(ex, m).value;
              t.0 == Encode(StoryWords(ex.story), m).value
              && t.1 == Encode(ex.query, m).value
              && t.2 == OneHotOf(|m| + 1, m[ex.answer]).value
  {
    EncodeSpec(StoryWords(ex.story), m);
    EncodeSpec(ex.query, m);
    if ex.answer in m {
      OneHotSpec(|m| + 1, m[ex.answer]);
    }
  }

  lemma {:induction false} EncodeAllOk(data: seq<FlatExample>, m: map<string, int>)
    ensures EncodeAll(data, m).Ok? <==> forall k :: 0 <= k < |data| ==> EncodeExample(data[k], m).Ok?
  {
    if data != [] {
      var init := data[..|data| - 1];
      EncodeAllOk(init, m);
      assert forall k :: 0 <= k < |init| ==> init[k] == data[k];
    }
  }

  lemma {:induction false} EncodeAllRows(data: seq<FlatExample>, m: map<string, int>)
    requires EncodeAll(data, m).Ok?
    ensures var v := EncodeAll(data, m).value;
              |v.stories| == |data| && |v.queries| == |data| && |v.answers| == |data|
              && forall k :: 0 <= k < |data| ==>
                   EncodeExample(data[k], m) == Ok((v.stories[k], v.queries[k], v.answers[k]))
  {
    if data != [] {
      var init := data[..|data| - 1];
      assert EncodeAll(init, m).Ok?;
      EncodeAllRows(init, m);
      assert forall k :: 0 <= k < |init| ==> init[k] == data[k];
    }
  }

  /** The loop succeeds exactly when every example is encodable, and then has
      one entry per example in each list, in order. */
  lemma EncodeAllSpec(data: seq<FlatExample>, m: map<string, int>)
    ensures EncodeAll(data, m).Ok? <==> forall k :: 0 <= k < |data| ==> Encodable(data[k], m)
    ensures EncodeAll(data, m).Ok? ==>
              var v := EncodeAll(data, m).value;
              |v.stories| == |data| && |v.queries| == |data| && |v.answers| == |data|
              && forall k :: 0 <= k < |data| ==>
                   EncodeExample(data[k], m) == Ok((v.stories[k], v.queries[k], v.answers[k]))
  {
    EncodeAllOk(data, m);
    if EncodeAll(data, m).Ok? {
      EncodeAllRows(data, m);
    }
    forall k | 0 <= k < |data|
      ensures EncodeExample(data[k], m).Ok? <==> Encodable(data[k], m)
    {
      EncodeExampleSpec(data[k], m);
    }
  }

  /** `vectorize_stories` succeeds exactly when every example is encodable;
      it then gives one story row, one query row and one answer row per
      example, the story and query rows padded to their fixed lengths and the
      answer row one-hot at the answer's index. */
  lemma VectorizedSpec(data: seq<FlatExample>, m: map<string, int>, storyMaxlen: nat, queryMaxlen: nat)
    ensures Vectorized(data, m, storyMaxlen, queryMaxlen).Ok? <==>
              forall k :: 0 <= k < |data| ==> Encodable(data[k], m)
    ensures Vectorized(data, m, storyMaxlen, queryMaxlen).Ok? ==>
              var v := Vectorized(data, m, storyMaxlen, queryMaxlen).value;
              |v.stories| == |data| && |v.queries| == |data| && |v.answers| == |data|
              && forall k :: 0 <= k < |data| ==>
                   Encode(StoryWords(data[k].story), m).Ok?
                   && v.stories[k] == Pad(Encode(StoryWords(data[k].story), m).value, storyMaxlen)
                   && Encode(data[k].query, m).Ok?
                   && v.queries[k] == Pad(Encode(data[k].query, m).value, queryMaxlen)
                   && data[k].answer in m && OneHotOf(|m| + 1, m[data[k].answer]).Ok?
                   && v.answers[k] == OneHotOf(|m| + 1, m[data[k].answer]).value
                   && |v.stories[k]| == storyMaxlen && |v.queries[k]| == queryMaxlen
  {
    EncodeAllSpec(data, m);
    if EncodeAll(data, m).Ok? {
      forall k | 0 <= k < |data|
        ensures |Pad(Encode(StoryWords(data[k].story), m).value, storyMaxlen)| == storyMaxlen
        ensures |Pad(Encode(data[k].query, m).value, queryMaxlen)| == queryMaxlen
      {
        EncodeExampleSpec(data[k], m);
        PadSpec(Encode(StoryWords(data[k].story), m).value, storyMaxlen);
        PadSpec(Encode(data[k].query, m).value, queryMaxlen);
      }
      forall k | 0 <= k < |data|
        ensures EncodeExample(data[k], m).Ok?
      {
        EncodeExampleSpec(data[k], m);
      }
    }
  }

  /** `y` is the answer row of `answer` for `vocab`: `vocab_size` entries,
      a single 1 at the answer's index, which is its place in `vocab` plus one,
      and 0 elsewhere, in particular at the reserved index 0. */
  ghost predicate AnswerRow(vocab: seq<string>, answer: string, y: seq<int>) {
    var m := WordIdx(vocab);
    answer in m && 1 <= m[answer] <= |vocab| && vocab[m[answer] - 1] == answer
    && |y| == VocabSize(vocab) && y[0] == 0 && y[m[answer]] == 1
    && forall i :: 0 <= i < |y| && i != m[answer] ==> y[i] == 0
  }

  /** A row that holds the indices of `words` whole, at its end, with zeros
      exactly in the padding in front of them: nothing was cut off, and no
      index is confused with the padding value. */
  ghost predicate WordsRow(words: seq<string>, m: map<string, int>, maxlen: nat, row: seq<int>) {
    Encode(words, m).Ok?
    && var x := Encode(words, m).value;
       |x| == |words| <= maxlen && |row| == maxlen
       && row[maxlen - |x|..] == x
       && forall i :: 0 <= i < maxlen ==> (row[i] == 0 <==> i < maxlen - |x|)
  }

  /** A row with a non-zero entry in its padding is not a words row. */
  lemma WordsRowZeroPadding(words: seq<string>, m: map<string, int>, maxlen: nat, row: seq<int>, i: nat)
    requires WordsRow(words, m, maxlen, row) && i < maxlen - |words|
    ensures row[i] == 0
  {
    EncodeSpec(words, m);
  }

  /** For instance, a row for one word cannot carry a non-zero value in front. */
  lemma WordsRowRejectsFilledPadding()
    ensures !WordsRow(["a"], map["a" := 1], 2, [5, 1])
  {
    var m := map["a" := 1];
    var ws := ["a"];
    assert ws[0] in m;
    EncodeSpec(ws, m);
    var row := [5, 1];
    assert row[0] != 0;
  }

  lemma AnswerRowOnVocabulary(vocab: seq<string>, answer: string)
    requires Distinct(vocab) && answer in vocab
    ensures answer in WordIdx(vocab)
    ensures OneHotOf(|WordIdx(vocab)| + 1, WordIdx(vocab)[answer]).Ok?
    ensures AnswerRow(vocab, answer, OneHotOf(|WordIdx(vocab)| + 1, WordIdx(vocab)[answer]).value)
  {
    var m := WordIdx(vocab);
    WordIdxSpec(vocab);
    var wi :| 0 <= wi < |vocab| && vocab[wi] == answer;
    assert m[answer] == wi + 1;
    assert |m| == |vocab| by {
      assert |m| == |m.Keys|;
    }
    OneHotSpec(|m| + 1, m[answer]);
  }

  /** Words of the vocabulary that fit in `maxlen` are padded whole, with
      zeros only in front: vocabulary indices start at 1. */
  lemma RowOnVocabulary(vocab: seq<string>, ws: seq<string>, maxlen: nat)
    requires Distinct(vocab) && |ws| <= maxlen
    requires forall w :: w in ws ==> w in vocab
    ensures Encode(ws, WordIdx(vocab)).Ok?
    ensures WordsRow(ws, WordIdx(vocab), maxlen, Pad(Encode(ws, WordIdx(vocab)).value, maxlen))
  {
    var m := WordIdx(vocab);
    WordIdxSpec(vocab);
    EncodeSpec(ws, m);
    var x := Encode(ws, m).value;
    PadSpec(x, maxlen);
    PadKeepsShortRow(x, maxlen);
    forall j | 0 <= j < |x|
      ensures x[j] != 0
    {
      assert ws[j] in ws;
    }
    ZerosOnlyPadding(x, maxlen);
  }

  /** The examples' words are all in the vocabulary built from them. */
  lemma OwnVocabularyEncodable(all: seq<FlatExample>, vocab: seq<string>, ex: FlatExample)
    requires BuildVocab(all) == Ok(vocab) && ex in all
    ensures ex.story.Sentence?
    ensures forall w :: w in StoryWords(ex.story) ==> w in vocab
    ensures forall w :: w in ex.query ==> w in vocab
    ensures ex.answer in vocab
  {
    BuildVocabSpec(all);
    var i :| 0 <= i < |all| && all[i] == ex;
    var ws := ExampleWords(ex).value;
    assert ws == ex.story.tokens + ex.query + [ex.answer];
    forall w | w in ws
      ensures w in vocab
    {
      assert Occurs(all, w);
    }
    assert ex.answer in ws;
  }

  /** On the module-level pipeline, where `word_idx` is built from the
      vocabulary of all examples and the lengths are their maxima, vectorizing
      any of those examples cannot fail; every answer row is the one-hot row
      of its answer, and every story row and every query row holds the word
      indices whole, with zeros only as padding in front: at the data's own
      maxima nothing is truncated. */
  lemma VectorizeOwnVocabulary(all: seq<FlatExample>, data: seq<FlatExample>, vocab: seq<string>,
                               storyMaxlen: nat, queryMaxlen: nat)
    requires BuildVocab(all) == Ok(vocab)
    requires StoryMaxLen(all) == Ok(storyMaxlen) && QueryMaxLen(all) == Ok(queryMaxlen)
    requires forall j :: 0 <= j < |data| ==> data[j] in all
    ensures Vectorized(data, WordIdx(vocab), storyMaxlen, queryMaxlen).Ok?
    ensures var v := Vectorized(data, WordIdx(vocab), storyMaxlen, queryMaxlen).value;
            |v.stories| == |data| && |v.queries| == |data| && |v.answers| == |data|
    ensures var v := Vectorized(data, WordIdx(vocab), storyMaxlen, queryMaxlen).value;
            forall k :: 0 <= k < |data| ==>
              AnswerRow(vocab, data[k].answer, v.answers[k])
              && WordsRow(StoryWords(data[k].story), WordIdx(vocab), storyMaxlen, v.stories[k])
              && WordsRow(data[k].query, WordIdx(vocab), queryMaxlen, v.queries[k])
  {
    var m := WordIdx(vocab);
    BuildVocabSpec(all);
    SortedIsDistinct(vocab);
    MaxLensSpec(all);
    forall j | 0 <= j < |data|
      ensures Encodable(data[j], m)
    {
      OwnVocabularyEncodable(all, vocab, data[j]);
      WordIdxSpec(vocab);
      AnswerRowOnVocabulary(vocab, data[j].answer);
    }
    VectorizedSpec(data, m, storyMaxlen, queryMaxlen);
    forall k | 0 <= k < |data|
      ensures AnswerRow(vocab, data[k].answer, Vectorized(data, m, storyMaxlen, queryMaxlen).value.answers[k])
      ensures WordsRow(StoryWords(data[k].story), m, storyMaxlen, Vectorized(data, m, storyMaxlen, queryMaxlen).value.stories[k])
      ensures WordsRow(data[k].query, m, queryMaxlen, Vectorized(data, m, storyMaxlen, queryMaxlen).value.queries[k])
    {
      OwnVocabularyEncodable(all, vocab, data[k]);
      AnswerRowOnVocabulary(vocab, data[k].answer);
      RowOnVocabulary(vocab, StoryWords(data[k].story), storyMaxlen);
      RowOnVocabulary(vocab, data[k].query, queryMaxlen);
    }
  }

  // ------------------------------------------------------ vectorize_query

  /** `vectorize_query`: the question tokenized, encoded and padded into a
      single row. */
  function VectorizeQuery(data: string, m: map<string, int>, queryMaxlen: nat): Result<seq<seq<int>>> {
    match Encode(Tokenize(data), m)
    case Err(e) => Err(e)
    case Ok(xq) => Ok([Pad(xq, queryMaxlen)])
  }

  /** The query vectorizes exactly when all its tokens are known, into one row of
      `query_maxlen` entries: zeros in front when the tokens fit, then their
      indices; when they do not fit, the indices of the last `query_maxlen`
      tokens (the front is cut). */
  lemma VectorizeQuerySpec(data: string, m: map<string, int>, queryMaxlen: nat)
    ensures VectorizeQuery(data, m, queryMaxlen).Ok? <==> forall t :: t in Tokenize(data) ==> t in m
    ensures VectorizeQuery(data, m, queryMaxlen).Ok? ==>
              var rows := VectorizeQuery(data, m, queryMaxlen).value;
              var ts := Tokenize(data);
              |rows| == 1 && |rows[0]| == queryMaxlen
              && forall i :: 0 <= i < queryMaxlen ==>
                   rows[0][i] == (if i < queryMaxlen - |ts| then 0 else m[ts[i - (queryMaxlen - |ts|)]])
  {
    var ts := Tokenize(data);
    EncodeSpec(ts, m);
    if Encode(ts, m).Ok? {
      var xq := Encode(ts, m).value;
      PadSpec(xq, queryMaxlen);
    }
  }

  // ------------------------------------------------------ vectorize_story

  /** The rows `vectorize_story`'s loop builds: every sentence tokenized and
      encoded, stopping at the first unknown word. */
  function EncodeSentences(data: seq<string>, m: map<string, int>): Result<seq<seq<int>>> {
    if data == [] then Ok([])
    else match EncodeSentences(data[..|data| - 1], m)
      case Err(e) => Err(e)
      case Ok(xs) =>
        match Encode(Tokenize(data[|data| - 1]), m)
        case Err(e) => Err(e)
        case Ok(x) => Ok(xs + [x])
  }

  lemma {:induction false} EncodeSentencesErrorStays(data: seq<string>, m: map<string, int>, i: nat)
    requires i <= |data| && EncodeSentences(data[..i], m).Err?
    ensures EncodeSentences(data, m) == EncodeSentences(data[..i], m)
    decreases |data| - i
  {
    if i < |data| {
      assert data[..i + 1][..i] == data[..i];
      EncodeSentencesErrorStays(data, m, i + 1);
    } else {
      assert data[..i] == data;
    }
  }

  /** `vectorize_story`: one padded row per sentence. */
  method VectorizeStory(data: seq<string>, m: map<string, int>, storyMaxlen: nat) returns (r: Result<seq<seq<int>>>)
    ensures r == (match EncodeSentences(data, m)
                  case Err(e) => Err(e)
                  case Ok(xs) => Ok(PadAll(xs, storyMaxlen)))
  {
    var xs: seq<seq<int>> := [];
    var i := 0;
    while i < |data|
      invariant 0 <= i <= |data|
      invariant EncodeSentences(data[..i], m) == Ok(xs)
    {
      assert data[..i + 1][..i] == data[..i];
      var x := Encode(Tokenize(data[i]), m);
      if x.Err? {
        EncodeSentencesErrorStays(data, m, i + 1);
        return Err(x.error);
      }
      xs := xs + [x.value];
      i := i + 1;
    }
    assert data[..i] == data;
    return Ok(PadAll(xs, storyMaxlen));
  }

  /** The sentences encode exactly when all their tokens are known, one row
      per sentence, in order, each the indices of that sentence's tokens. */
  lemma {:induction false} EncodeSentencesSpec(data: seq<string>, m: map<string, int>)
    ensures EncodeSentences(data, m).Ok? <==>
              forall k :: 0 <= k < |data| ==> Encode(Tokenize(data[k]), m).Ok?
    ensures EncodeSentences(data, m).Ok? ==>
              |EncodeSentences(data, m).value| == |data|
              && forall k :: 0 <= k < |data| ==>
                   EncodeSentences(data, m).value[k] == Encode(Tokenize(data[k]), m).value
  {
    if data != [] {
      var init := data[..|data| - 1];
      assert forall k :: 0 <= k < |init| ==> init[k] == data[k];
      EncodeSentencesSpec(init, m);
    }
  }
}
