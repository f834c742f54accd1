/** The module-level code that builds the vocabulary (memory_network_q1.py:160-168,
    :180) and the reverse lookup in `get_answer` (:324-330). The vocabulary is
    every word of every story, query and answer, de-duplicated and sorted; word
    `vocab[i]` gets index `i + 1`, leaving 0 for padding. */
module Vocabulary {
  import opened Results
  import opened Babi
  import opened Stories

  // ------------------------------------------------------------- the order

  /** Python's `<` on strings: code point by code point, a proper prefix first. */
  predicate Less(a: string, b: string) {
    if a == [] then b != []
    else b != [] && (a[0] < b[0] || (a[0] == b[0] && Less(a[1..], b[1..])))
  }

  lemma {:induction false} LessIrreflexive(a: string)
    ensures !Less(a, a)
  {
    if a != [] {
      LessIrreflexive(a[1..]);
    }
  }

  lemma {:induction false} LessTransitive(a: string, b: string, c: string)
    requires Less(a, b) && Less(b, c)
    ensures Less(a, c)
  {
    if a != [] && a[0] == b[0] && b[0] == c[0] {
      LessTransitive(a[1..], b[1..], c[1..]);
    }
  }

  lemma {:induction false} LessTotal(a: string, b: string)
    requires a != b
    ensures Less(a, b) || Less(b, a)
  {
    if a != [] && b != [] && a[0] == b[0] {
      assert a == [a[0]] + a[1..];
      assert b == [b[0]] + b[1..];
      LessTotal(a[1..], b[1..]);
    }
  }

  lemma LessAsymmetric(a: string, b: string)
    ensures !(Less(a, b) && Less(b, a))
  {
    if Less(a, b) && Less(b, a) {
      LessTransitive(a, b, a);
      LessIrreflexive(a);
    }
  }

  /** Increasing under `Less`: sorted, and without duplicates. */
  ghost predicate StrictlySorted(v: seq<string>) {
    forall i, j :: 0 <= i < j < |v| ==> Less(v[i], v[j])
  }

  lemma SortedDistinct(v: seq<string>, i: nat, j: nat)
    requires StrictlySorted(v) && i < |v| && j < |v| && i != j
    ensures v[i] != v[j]
  {
    if i < j {
      LessIrreflexive(v[i]);
    } else {
      LessIrreflexive(v[j]);
    }
  }

  /** A strictly sorted list is determined by its elements: it is the one
      `sorted()` returns for that set. */
  lemma {:induction false} SortedUnique(a: seq<string>, b: seq<string>)
    requires StrictlySorted(a) && StrictlySorted(b)
    requires forall w :: w in a <==> w in b
    ensures a == b
  {
    if a != [] {
      assert a[0] in a;
    }
    if b != [] {
      assert b[0] in b;
    }
    if a != [] && b != [] {
      var j :| 0 <= j < |b| && b[j] == a[0];
      var i :| 0 <= i < |a| && a[i] == b[0];
      LessAsymmetric(a[0], b[0]);
      assert a[0] == b[0];
      forall w
        ensures w in a[1..] <==> w in b[1..]
      {
        if w in a[1..] {
          var j :| 1 <= j < |a| && a[j] == w;
          SortedDistinct(a, 0, j);
          assert w in b;
          var m :| 0 <= m < |b| && b[m] == w;
          assert m != 0;
        }
        if w in b[1..] {
          var j :| 1 <= j < |b| && b[j] == w;
          SortedDistinct(b, 0, j);
          assert w in a;
          var m :| 0 <= m < |a| && a[m] == w;
          assert m != 0;
        }
      }
      SortedUnique(a[1..], b[1..]);
      assert a == [a[0]] + a[1..] && b == [b[0]] + b[1..];
    }
  }

  // -------------------------------------------------------- the vocabulary

  /** `w` added to a sorted list of distinct words, at its place, unless present. */
  function Insert(v: seq<string>, w: string): seq<string> {
    if v == [] then [w]
    else if w == v[0] then v
    else if Less(w, v[0]) then [w] + v
    else [v[0]] + Insert(v[1..], w)
  }

  /** Putting a word in front of a strictly sorted list keeps it so when the
      word is below every element. */
  lemma ConsSorted(x: string, t: seq<string>)
    requires StrictlySorted(t)
    requires forall y :: y in t ==> Less(x, y)
    ensures StrictlySorted([x] + t)
  {
    var r := [x] + t;
    forall i, j | 0 <= i < j < |r|
      ensures Less(r[i], r[j])
    {
      assert r[j] == t[j - 1];
      if i > 0 {
        assert r[i] == t[i - 1];
      }
    }
  }

  /** Inserting keeps the list strictly sorted and adds `w` to its elements. */
  lemma {:induction false} InsertSpec(v: seq<string>, w: string)
    requires StrictlySorted(v)
    ensures StrictlySorted(Insert(v, w))
    ensures forall x :: x in Insert(v, w) <==> x in v || x == w
  {
    if v != [] && w != v[0] && !Less(w, v[0]) {
      var tail := v[1..];
      assert StrictlySorted(tail) by {
        forall i, j | 0 <= i < j < |tail|
          ensures Less(tail[i], tail[j])
        {
          assert tail[i] == v[i + 1] && tail[j] == v[j + 1];
        }
      }
      InsertSpec(tail, w);
      var t := Insert(tail, w);
      assert Insert(v, w) == [v[0]] + t;
      LessTotal(w, v[0]);
      forall y | y in t
        ensures Less(v[0], y)
      {
        if y in tail {
          var m :| 0 <= m < |tail| && tail[m] == y;
          assert v[m + 1] == y;
        }
      }
      ConsSorted(v[0], t);
    } else if v != [] && Less(w, v[0]) {
      forall y | y in v
        ensures Less(w, y)
      {
        var m :| 0 <= m < |v| && v[m] == y;
        if m > 0 {
          LessTransitive(w, v[0], y);
        }
      }
      ConsSorted(w, v);
    }
  }

  /** Every word of `ws` inserted in turn. */
  function InsertAll(v: seq<string>, ws: seq<string>): seq<string>
    decreases |ws|
  {
    if ws == [] then v else InsertAll(Insert(v, ws[0]), ws[1..])
  }

  lemma {:induction false} InsertAllSpec(v: seq<string>, ws: seq<string>)
    requires StrictlySorted(v)
    ensures StrictlySorted(InsertAll(v, ws))
    ensures forall x :: x in InsertAll(v, ws) <==> x in v || x in ws
    decreases |ws|
  {
    if ws != [] {
      InsertSpec(v, ws[0]);
      InsertAllSpec(Insert(v, ws[0]), ws[1..]);
      assert forall x :: x in ws <==> x == ws[0] || x in ws[1..];
    }
  }

  /** The words one example adds: `story + q + [answer]`; the placeholder string
      as story makes that a TypeError. */
  function ExampleWords(ex: FlatExample): Result<seq<string>> {
    if ex.story.Placeholder? then Err(MixedConcat)
    else Ok(ex.story.tokens + ex.query + [ex.answer])
  }

  /** The loop `vocab |= set(story + q + [answer])` over the examples, kept as a
      sorted list of distinct words, which is what `sorted(vocab)` then returns. */
  function BuildVocab(examples: seq<FlatExample>): Result<seq<string>> {
    if examples == [] then Ok([])
    else match BuildVocab(examples[..|examples| - 1])
      case Err(e) => Err(e)
      case Ok(v) =>
        match ExampleWords(examples[|examples| - 1])
        case Err(e) => Err(e)
        case Ok(ws) => Ok(InsertAll(v, ws))
  }

  /** A word of some example's story, query or answer. */
  ghost predicate Occurs(examples: seq<FlatExample>, w: string) {
    exists k :: 0 <= k < |examples| && ExampleWords(examples[k]).Ok? && w in ExampleWords(examples[k]).value
  }

  /** The vocabulary is built unless some story is the placeholder string; it
      is then strictly sorted (so sorted and duplicate-free) and holds exactly
      the words of the stories, queries and answers. */
  lemma {:induction false} BuildVocabSpec(examples: seq<FlatExample>)
    ensures BuildVocab(examples).Ok? <==> forall k :: 0 <= k < |examples| ==> examples[k].story.Sentence?
    ensures BuildVocab(examples).Err? ==> BuildVocab(examples).error == MixedConcat
    ensures BuildVocab(examples).Ok? ==>
              StrictlySorted(BuildVocab(examples).value)
              && forall w :: w in BuildVocab(examples).value <==> Occurs(examples, w)
  {
    if examples != [] {
      var init := examples[..|examples| - 1];
      var last := examples[|examples| - 1];
      assert forall k :: 0 <= k < |init| ==> init[k] == examples[k];
      BuildVocabSpec(init);
      if BuildVocab(examples).Ok? {
        var v := BuildVocab(init).value;
        var ws := ExampleWords(last).value;
        InsertAllSpec(v, ws);
        forall w
          ensures w in BuildVocab(examples).value <==> Occurs(examples, w)
        {
          if Occurs(examples, w) {
            var k :| 0 <= k < |examples| && ExampleWords(examples[k]).Ok? && w in ExampleWords(examples[k]).value;
            if k < |init| {
              assert Occurs(init, w);
            }
          }
          if w in v {
            assert Occurs(init, w);
            var k :| 0 <= k < |init| && ExampleWords(init[k]).Ok? && w in ExampleWords(init[k]).value;
            assert examples[k] == init[k];
          }
        }
      }
    }
  }

  /** `vocab_size`: one more than the number of words, for the padding index 0. */
  function VocabSize(vocab: seq<string>): nat {
    |vocab| + 1
  }

  // ----------------------------------------------------------- word_idx

  /** `dict((c, i + 1) for i, c in enumerate(vocab))`: the pairs in order, a
      later pair for the same key overwriting an earlier one. */
  function WordIdx(vocab: seq<string>): map<string, int> {
    if vocab == [] then map[]
    else WordIdx(vocab[..|vocab| - 1])[vocab[|vocab| - 1] := |vocab|]
  }

  ghost predicate Distinct(vocab: seq<string>) {
    forall i, j :: 0 <= i < j < |vocab| ==> vocab[i] != vocab[j]
  }

  lemma {:induction false} WordIdxKeys(vocab: seq<string>)
    ensures forall w :: w in WordIdx(vocab) <==> w in vocab
  {
    if vocab != [] {
      var init := vocab[..|vocab| - 1];
      WordIdxKeys(init);
      assert vocab == init + [vocab[|vocab| - 1]];
    }
  }

  lemma {:induction false} WordIdxAt(vocab: seq<string>)
    requires Distinct(vocab)
    ensures forall i :: 0 <= i < |vocab| ==> vocab[i] in WordIdx(vocab) && WordIdx(vocab)[vocab[i]] == i + 1
  {
    if vocab != [] {
      var init := vocab[..|vocab| - 1];
      assert forall i :: 0 <= i < |init| ==> init[i] == vocab[i];
      WordIdxAt(init);
    }
  }

  lemma {:induction false} WordIdxSize(vocab: seq<string>)
    requires Distinct(vocab)
    ensures |WordIdx(vocab).Keys| == |vocab|
  {
    if vocab != [] {
      var init := vocab[..|vocab| - 1];
      var last := vocab[|vocab| - 1];
      assert forall i :: 0 <= i < |init| ==> init[i] == vocab[i];
      WordIdxSize(init);
      WordIdxKeys(init);
      assert last !in WordIdx(init);
      assert WordIdx(vocab).Keys == WordIdx(init).Keys + {last};
    }
  }

  /** On a duplicate-free vocabulary, `word_idx` has exactly its words as keys,
      maps `vocab[i]` to `i + 1`, uses only indices `1..|vocab|`, never 0, and
      is injective, with as many keys as words. */
  lemma WordIdxSpec(vocab: seq<string>)
    requires Distinct(vocab)
    ensures forall w :: w in WordIdx(vocab) <==> w in vocab
    ensures forall i :: 0 <= i < |vocab| ==> WordIdx(vocab)[vocab[i]] == i + 1
    ensures forall w :: w in WordIdx(vocab) ==> 1 <= WordIdx(vocab)[w] <= |vocab|
    ensures forall a, b :: a in WordIdx(vocab) && b in WordIdx(vocab) && WordIdx(vocab)[a] == WordIdx(vocab)[b] ==> a == b
    ensures |WordIdx(vocab).Keys| == |vocab|
  {
    var m := WordIdx(vocab);
    WordIdxKeys(vocab);
    WordIdxAt(vocab);
    WordIdxSize(vocab);
    forall w | w in m
      ensures exists i :: 0 <= i < |vocab| && vocab[i] == w && m[w] == i + 1
    {
      var i :| 0 <= i < |vocab| && vocab[i] == w;
    }
  }

  /** Index 0 stays free for padding. */
  lemma ZeroReserved(vocab: seq<string>)
    requires Distinct(vocab)
    ensures forall w :: w in WordIdx(vocab) ==> WordIdx(vocab)[w] != 0
    ensures VocabSize(vocab) == |WordIdx(vocab).Keys| + 1
  {
    WordIdxSpec(vocab);
  }

  lemma SortedIsDistinct(vocab: seq<string>)
    requires StrictlySorted(vocab)
    ensures Distinct(vocab)
  {
    forall i, j | 0 <= i < j < |vocab|
      ensures vocab[i] != vocab[j]
    {
      SortedDistinct(vocab, i, j);
    }
  }

  // -------------------------------------------------------------- lookup

  const NotFound: string := "answer not found"

  /** What the lookup loop in `get_answer` may return: a key mapped to `index`
      (the last one the iteration meets, in an order the dict decides), or
      "answer not found" when no key is. */
  ghost predicate LookupResult(wordIdx: map<string, int>, index: int, k: string) {
    (k in wordIdx && wordIdx[k] == index)
    || (k == NotFound && forall w :: w in wordIdx ==> wordIdx[w] != index)
  }

  /** The loop over `word_idx.items()`; the iteration order of the dict is left
      open. */
  method Lookup(wordIdx: map<string, int>, index: int) returns (k: string)
    ensures LookupResult(wordIdx, index, k)
  {
    k := NotFound;
    var remaining := wordIdx.Keys;
    ghost var seen: set<string> := {};
    while remaining != {}
      invariant remaining + seen == wordIdx.Keys && remaining !! seen
      invariant (k in seen && wordIdx[k] == index)
                || (k == NotFound && forall w :: w in seen ==> wordIdx[w] != index)
      decreases |remaining|
    {
      var key :| key in remaining;
      if wordIdx[key] == index {
        k := key;
      }
      remaining := remaining - {key};
      seen := seen + {key};
    }
  }

  /** The word with a given index: `vocab[index - 1]` for `1 <= index <= |vocab|`,
      otherwise "answer not found". */
  function WordAt(vocab: seq<string>, index: int): string {
    if 1 <= index <= |vocab| then vocab[index - 1] else NotFound
  }

  /** On the `word_idx` of a duplicate-free vocabulary the lookup is
      determined whatever the iteration order: it returns the word with that
      index, and "answer not found" for 0 or any index not assigned. */
  lemma LookupDetermined(vocab: seq<string>, index: int, k: string)
    requires Distinct(vocab) && LookupResult(WordIdx(vocab), index, k)
    ensures k == WordAt(vocab, index)
    ensures (index < 1 || index > |vocab|) ==> k == NotFound
  {
    WordIdxSpec(vocab);
    if 1 <= index <= |vocab| {
      assert vocab[index - 1] in WordIdx(vocab);
    }
  }

  /** The word a word's index looks up is that word: lookup inverts `word_idx`. */
  lemma LookupInverts(vocab: seq<string>, w: string, k: string)
    requires Distinct(vocab) && w in WordIdx(vocab) && LookupResult(WordIdx(vocab), WordIdx(vocab)[w], k)
    ensures k == w
  {
    WordIdxSpec(vocab);
  }

  // ------------------------------------------------------------ maxima

  /** `max(xs)`; empty is a ValueError. */
  function Max(xs: seq<nat>): Result<nat> {
    if xs == [] then Err(EmptyMax)
    else if |xs| == 1 then Ok(xs[0])
    else match Max(xs[1..])
      case Err(e) => Err(e)
      case Ok(m) => Ok(if xs[0] >= m then xs[0] else m)
  }

  /** The maximum exists exactly for a non-empty sequence, bounds every element
      and is one of them. */
  lemma {:induction false} MaxSpec(xs: seq<nat>)
    ensures Max(xs).Ok? <==> xs != []
    ensures Max(xs).Ok? ==>
              (forall i :: 0 <= i < |xs| ==> xs[i] <= Max(xs).value) && Max(xs).value in xs
  {
    if |xs| > 1 {
      MaxSpec(xs[1..]);
      assert forall i :: 1 <= i < |xs| ==> xs[i] == xs[1..][i - 1];
    }
  }

  /** The flattened story lengths, one per example. */
  function StoryLengths(examples: seq<FlatExample>): (ls: seq<nat>)
    ensures |ls| == |examples|
    ensures forall k :: 0 <= k < |examples| ==> ls[k] == Length(examples[k].story)
  {
    seq(|examples|, k requires 0 <= k < |examples| => Length(examples[k].story))
  }

  /** The query lengths, one per example. */
  function QueryLengths(examples: seq<FlatExample>): (lq: seq<nat>)
    ensures |lq| == |examples|
    ensures forall k :: 0 <= k < |examples| ==> lq[k] == |examples[k].query|
  {
    seq(|examples|, k requires 0 <= k < |examples| => |examples[k].query|)
  }

  /** `story_maxlen`: the longest flattened story. */
  function StoryMaxLen(examples: seq<FlatExample>): Result<nat> {
    Max(StoryLengths(examples))
  }

  /** `query_maxlen`: the longest query. */
  function QueryMaxLen(examples: seq<FlatExample>): Result<nat> {
    Max(QueryLengths(examples))
  }

  /** Both maxima exist unless there are no examples; each bounds every story
      (query) and is the length of one of them. */
  lemma MaxLensSpec(examples: seq<FlatExample>)
    ensures StoryMaxLen(examples).Ok? <==> examples != []
    ensures QueryMaxLen(examples).Ok? <==> examples != []
    ensures examples != [] ==>
              (forall k :: 0 <= k < |examples| ==>
                 Length(examples[k].story) <= StoryMaxLen(examples).value
                 && |examples[k].query| <= QueryMaxLen(examples).value)
              && (exists k :: 0 <= k < |examples| && Length(examples[k].story) == StoryMaxLen(examples).value)
              && (exists k :: 0 <= k < |examples| && |examples[k].query| == QueryMaxLen(examples).value)
  {
    var ls := StoryLengths(examples);
    var lq := QueryLengths(examples);
    MaxSpec(ls);
    MaxSpec(lq);
    if examples != [] {
      var i :| 0 <= i < |ls| && ls[i] == Max(ls).value;
      var j :| 0 <= j < |lq| && lq[j] == Max(lq).value;
      assert Length(examples[i].story) == StoryMaxLen(examples).value;
      assert |examples[j].query| == QueryMaxLen(examples).value;
    }
  }
}
