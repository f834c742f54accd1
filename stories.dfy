/** `get_stories` (memory_network_q1.py:75-85) after the file is read: each
    substory is flattened with `reduce(lambda x, y: x + y, story)` and the
    examples whose flattened story is too long are dropped. */
module Stories {
  import opened Results
  import opened Babi

  /** An example with its story flattened. The flattened story is a token list,
      or the string `''` when every entry was a placeholder. */
  datatype FlatExample = FlatExample(story: Entry, query: seq<string>, answer: string)

  /** Python's `x + y` on two story entries: two lists concatenate, two strings
      concatenate (`'' + ''` is `''`), a list and a string are a TypeError. */
  function Plus(x: Entry, y: Entry): Result<Entry> {
    match (x, y)
    case (Sentence(a), Sentence(b)) => Ok(Sentence(a + b))
    case (Placeholder, Placeholder) => Ok(Placeholder)
    case _ => Err(MixedConcat)
  }

  /** The fold `reduce` runs from the accumulator `acc` over `rest`. */
  function FoldPlus(acc: Entry, rest: seq<Entry>): Result<Entry>
    decreases |rest|
  {
    if rest == [] then Ok(acc)
    else match Plus(acc, rest[0])
      case Err(e) => Err(e)
      case Ok(next) => FoldPlus(next, rest[1..])
  }

  /** `reduce(lambda x, y: x + y, story)`; an empty story is a TypeError. */
  function Flatten(story: seq<Entry>): Result<Entry> {
    if story == [] then Err(EmptyReduce) else FoldPlus(story[0], story[1..])
  }

  ghost predicate AllSentences(story: seq<Entry>) {
    forall k :: 0 <= k < |story| ==> story[k].Sentence?
  }

  ghost predicate AllPlaceholders(story: seq<Entry>) {
    forall k :: 0 <= k < |story| ==> story[k].Placeholder?
  }

  /** The tokens of all sentences, in order. */
  function Tokens(story: seq<Entry>): seq<string> {
    if story == [] then []
    else (if story[0].Sentence? then story[0].tokens else []) + Tokens(story[1..])
  }

  lemma {:induction false} FoldPlusSpec(acc: Entry, rest: seq<Entry>)
    ensures FoldPlus(acc, rest).Ok? <==>
              (acc.Sentence? && AllSentences(rest)) || (acc.Placeholder? && AllPlaceholders(rest))
    ensures FoldPlus(acc, rest).Ok? && acc.Sentence? ==>
              FoldPlus(acc, rest) == Ok(Sentence(acc.tokens + Tokens(rest)))
    ensures FoldPlus(acc, rest).Ok? && acc.Placeholder? ==> FoldPlus(acc, rest) == Ok(Placeholder)
    ensures FoldPlus(acc, rest).Err? ==> FoldPlus(acc, rest).error == MixedConcat
    decreases |rest|
  {
    if rest != [] {
      var tail := rest[1..];
      assert forall k :: 1 <= k < |rest| ==> rest[k] == tail[k - 1];
      if Plus(acc, rest[0]).Ok? {
        var next := Plus(acc, rest[0]).value;
        FoldPlusSpec(next, tail);
        assert FoldPlus(acc, rest) == FoldPlus(next, tail);
        if acc.Sentence? && rest[0].Sentence? {
          assert Tokens(rest) == rest[0].tokens + Tokens(tail);
          assert acc.tokens + rest[0].tokens + Tokens(tail) == acc.tokens + Tokens(rest);
        }
      }
    } else if acc.Sentence? {
      assert acc.tokens + Tokens(rest) == acc.tokens;
    }
  }

  /** Flattening fails on an empty story (`reduce` of an empty sequence) and on
      a story mixing sentences and placeholders; a story of sentences flattens to
      all their tokens in order, one of placeholders only to `''`. */
  lemma FlattenSpec(story: seq<Entry>)
    ensures Flatten(story).Ok? <==> story != [] && (AllSentences(story) || AllPlaceholders(story))
    ensures story == [] ==> Flatten(story) == Err(EmptyReduce)
    ensures story != [] && Flatten(story).Err? ==> Flatten(story) == Err(MixedConcat)
    ensures story != [] && AllSentences(story) ==> Flatten(story) == Ok(Sentence(Tokens(story)))
    ensures story != [] && AllPlaceholders(story) ==> Flatten(story) == Ok(Placeholder)
  {
    if story != [] {
      FoldPlusSpec(story[0], story[1..]);
      assert forall k :: 1 <= k < |story| ==> story[k] == story[1..][k - 1];
      assert story == [story[0]] + story[1..];
    }
  }

  /** `len()` of a flattened story: the number of tokens; `len('')` is 0. */
  function Length(flat: Entry): nat {
    if flat.Sentence? then |flat.tokens| else 0
  }

  /** The filter of the comprehension: `not max_length or len(flat) < max_length`,
      where both `None` and 0 are false. */
  predicate Keep(flat: Entry, maxLength: Option<int>) {
    maxLength.None? || maxLength.value == 0 || Length(flat) < maxLength.value
  }

  /** `get_stories` on the triples `parse_stories` returned. */
  function GetStories(data: seq<Example>, maxLength: Option<int>): Result<seq<FlatExample>> {
    if data == [] then Ok([])
    else match GetStories(data[..|data| - 1], maxLength)
      case Err(e) => Err(e)
      case Ok(out) =>
        var ex := data[|data| - 1];
        match Flatten(ex.story)
        case Err(e) => Err(e)
        case Ok(flat) =>
          Ok(out + if Keep(flat, maxLength) then [FlatExample(flat, ex.query, ex.answer)] else [])
  }

  /** The positions of the examples the filter keeps, in order. */
  function KeptPositions(data: seq<Example>, maxLength: Option<int>): seq<nat>
    requires forall k :: 0 <= k < |data| ==> Flatten(data[k].story).Ok?
  {
    if data == [] then []
    else
      KeptPositions(data[..|data| - 1], maxLength)
      + if Keep(Flatten(data[|data| - 1].story).value, maxLength) then [|data| - 1] else []
  }

  /** The kept positions are increasing positions of `data`, and a position is
      among them exactly when the filter accepts its flattened story. */
  lemma {:induction false} KeptPositionsSpec(data: seq<Example>, maxLength: Option<int>)
    requires forall k :: 0 <= k < |data| ==> Flatten(data[k].story).Ok?
    ensures forall i :: 0 <= i < |KeptPositions(data, maxLength)| ==> KeptPositions(data, maxLength)[i] < |data|
    ensures forall i, m :: 0 <= i < m < |KeptPositions(data, maxLength)| ==>
              KeptPositions(data, maxLength)[i] < KeptPositions(data, maxLength)[m]
    ensures forall k :: 0 <= k < |data| ==>
              (k in KeptPositions(data, maxLength) <==> Keep(Flatten(data[k].story).value, maxLength))
  {
    if data != [] {
      var init := data[..|data| - 1];
      assert forall k :: 0 <= k < |init| ==> init[k] == data[k];
      KeptPositionsSpec(init, maxLength);
    }
  }

  /** `get_stories` fails exactly when some substory cannot be flattened, and
      then with the error of the first one that cannot. */
  lemma {:induction false} GetStoriesFails(data: seq<Example>, maxLength: Option<int>)
    ensures GetStories(data, maxLength).Ok? <==> forall k :: 0 <= k < |data| ==> Flatten(data[k].story).Ok?
    ensures GetStories(data, maxLength).Err? ==>
              exists k :: 0 <= k < |data| && Flatten(data[k].story) == Err(GetStories(data, maxLength).error)
                          && forall m :: 0 <= m < k ==> Flatten(data[m].story).Ok?
  {
    if data != [] {
      var init := data[..|data| - 1];
      assert forall k :: 0 <= k < |init| ==> init[k] == data[k];
      GetStoriesFails(init, maxLength);
      if GetStories(init, maxLength).Ok? && Flatten(data[|data| - 1].story).Err? {
        assert Flatten(data[|data| - 1].story) == Err(GetStories(data, maxLength).error);
      }
    }
  }

  /** Otherwise it keeps, in order, exactly the examples at the kept positions,
      each with its story flattened and its question and answer unchanged. */
  lemma {:induction false} GetStoriesKeeps(data: seq<Example>, maxLength: Option<int>)
    requires forall k :: 0 <= k < |data| ==> Flatten(data[k].story).Ok?
    ensures GetStories(data, maxLength).Ok?
    ensures var out := GetStories(data, maxLength).value;
      var kept := KeptPositions(data, maxLength);
      |out| == |kept|
      && forall i :: 0 <= i < |kept| ==>
           kept[i] < |data|
           && out[i] == FlatExample(Flatten(data[kept[i]].story).value, data[kept[i]].query, data[kept[i]].answer)
  {
    GetStoriesFails(data, maxLength);
    KeptPositionsSpec(data, maxLength);
    if data != [] {
      var init := data[..|data| - 1];
      assert forall k :: 0 <= k < |init| ==> init[k] == data[k];
      GetStoriesKeeps(init, maxLength);
    }
  }

  /** Without a (truthy) `max_length`, no example is dropped. */
  lemma KeepsAllWhenUnbounded(data: seq<Example>, maxLength: Option<int>)
    requires maxLength.None? || maxLength.value == 0
    requires forall k :: 0 <= k < |data| ==> Flatten(data[k].story).Ok?
    ensures GetStories(data, maxLength).Ok?
    ensures |GetStories(data, maxLength).value| == |data|
    ensures forall k :: 0 <= k < |data| ==>
              GetStories(data, maxLength).value[k]
              == FlatExample(Flatten(data[k].story).value, data[k].query, data[k].answer)
  {
    GetStoriesKeeps(data, maxLength);
    KeptAll(data, maxLength);
  }

  lemma {:induction false} KeptAll(data: seq<Example>, maxLength: Option<int>)
    requires maxLength.None? || maxLength.value == 0
    requires forall k :: 0 <= k < |data| ==> Flatten(data[k].story).Ok?
    ensures |KeptPositions(data, maxLength)| == |data|
    ensures forall i :: 0 <= i < |data| ==> KeptPositions(data, maxLength)[i] == i
  {
    if data != [] {
      var init := data[..|data| - 1];
      assert forall k :: 0 <= k < |init| ==> init[k] == data[k];
      KeptAll(init, maxLength);
    }
  }

  /** With a truthy `max_length`, every story kept is shorter than it. */
  lemma KeptAreShort(data: seq<Example>, maxLength: Option<int>)
    requires maxLength.Some? && maxLength.value != 0
    requires GetStories(data, maxLength).Ok?
    ensures forall i :: 0 <= i < |GetStories(data, maxLength).value| ==>
              Length(GetStories(data, maxLength).value[i].story) < maxLength.value
  {
    GetStoriesFails(data, maxLength);
    GetStoriesKeeps(data, maxLength);
    KeptPositionsSpec(data, maxLength);
    var kept := KeptPositions(data, maxLength);
    forall i | 0 <= i < |kept|
      ensures kept[i] in kept
    {
    }
  }

  /** A substory taken without `only_supporting` holds only non-empty
      sentences, so it flattens, unless it is empty, to its tokens in order. */
  lemma FlattenPlainSubstory(story: seq<Entry>)
    ensures Flatten(Truthful(story)).Ok? <==> Truthful(story) != []
    ensures Truthful(story) != [] ==> Flatten(Truthful(story)) == Ok(Sentence(Tokens(story)))
  {
    TruthfulSpec(story);
    FlattenSpec(Truthful(story));
    TokensTruthful(story);
  }

  lemma {:induction false} TokensTruthful(story: seq<Entry>)
    ensures Tokens(Truthful(story)) == Tokens(story)
  {
    if story != [] {
      TokensTruthful(story[1..]);
      var head := if Truthy(story[0]) then [story[0]] else [];
      assert Truthful(story) == head + Truthful(story[1..]);
      TokensAppend(head, Truthful(story[1..]));
      if story[0].Sentence? && !Truthy(story[0]) {
        assert story[0].tokens == [];
      }
    }
  }

  lemma {:induction false} TokensAppend(a: seq<Entry>, b: seq<Entry>)
    ensures Tokens(a + b) == Tokens(a) + Tokens(b)
  {
    if a == [] {
      assert a + b == b;
    } else {
      assert (a + b)[1..] == a[1..] + b;
      TokensAppend(a[1..], b);
    }
  }

  /** `get_stories` on the lines of a bAbI file: parse, then flatten and filter. */
  function GetStoriesOf(lines: seq<string>, onlySupporting: bool, maxLength: Option<int>): Result<seq<FlatExample>> {
    match Parsed(lines, onlySupporting)
    case Err(e) => Err(e)
    case Ok(data) => GetStories(data, maxLength)
  }

  /** Reading a file fails exactly when parsing fails or some substory cannot
      be flattened; an empty substory (a question before any statement of its
      story) is enough. */
  lemma GetStoriesOfFails(lines: seq<string>, onlySupporting: bool, maxLength: Option<int>)
    ensures GetStoriesOf(lines, onlySupporting, maxLength).Ok? <==>
              Parsed(lines, onlySupporting).Ok?
              && forall k :: 0 <= k < |Parsed(lines, onlySupporting).value| ==>
                   Flatten(Parsed(lines, onlySupporting).value[k].story).Ok?
    ensures Parsed(lines, onlySupporting).Ok?
            && (exists k :: 0 <= k < |Parsed(lines, onlySupporting).value|
                            && Parsed(lines, onlySupporting).value[k].story == [])
            ==> GetStoriesOf(lines, onlySupporting, maxLength).Err?
  {
    if Parsed(lines, onlySupporting).Ok? {
      var data := Parsed(lines, onlySupporting).value;
      GetStoriesFails(data, maxLength);
      if exists k :: 0 <= k < |data| && data[k].story == [] {
        var k :| 0 <= k < |data| && data[k].story == [];
        FlattenSpec(data[k].story);
      }
    }
  }
}
