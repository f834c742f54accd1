/** What `parse_stories` computes, stated line by line instead of as a loop:
    every line is read on its own, the story in effect at a line is the entries
    of the lines since the last line numbered 1, and there is one triple per
    question line, built from that story. */
module BabiLines {
  import opened Results
  import opened Text
  import opened Babi

  /** Every line read on its own, or the error of the first bad line. */
  function ParseAll(lines: seq<string>): Result<seq<Line>> {
    Collect(lines, ParseLine)
  }

  /** Reading all lines succeeds exactly when each line reads, and gives the lines read. */
  lemma ParseAllSpec(lines: seq<string>)
    ensures ParseAll(lines).Ok? <==> forall k :: 0 <= k < |lines| ==> ParseLine(lines[k]).Ok?
    ensures ParseAll(lines).Ok? ==>
              |ParseAll(lines).value| == |lines|
              && forall k :: 0 <= k < |lines| ==> ParseAll(lines).value[k] == ParseLine(lines[k]).value
  {
    CollectOk(lines, ParseLine);
    if ParseAll(lines).Ok? {
      CollectValues(lines, ParseLine);
    }
  }

  /** The story entry a line contributes: a statement's tokens, or a placeholder
      for a question. */
  function EntryOf(l: Line): Entry {
    if l.Statement? then Sentence(l.tokens) else Placeholder
  }

  function Entries(ls: seq<Line>): seq<Entry> {
    seq(|ls|, k requires 0 <= k < |ls| => EntryOf(ls[k]))
  }

  /** Where the story in effect at line `j` begins: the last line up to `j`
      numbered 1, or the first line if there is none. */
  function Start(ls: seq<Line>, j: nat): (r: nat)
    requires j <= |ls|
    ensures r <= j && (r < |ls| ==> r == 0 || ls[r].id == 1)
    ensures forall k :: r < k <= j && k < |ls| ==> ls[k].id != 1
    decreases j
  {
    if j < |ls| && ls[j].id == 1 then j
    else if j == 0 then 0
    else Start(ls, j - 1)
  }

  /** The story when line `j` is handled (after the reset a line numbered 1
      causes); `StoryAt(ls, |ls|)` is the story after the last line. */
  function StoryAt(ls: seq<Line>, j: nat): seq<Entry>
    requires j <= |ls|
  {
    Entries(ls[Start(ls, j)..j])
  }

  /** The positions of the question lines, in order. */
  function QuestionPositions(ls: seq<Line>): seq<nat> {
    if ls == [] then []
    else QuestionPositions(ls[..|ls| - 1]) + (if ls[|ls| - 1].Question? then [|ls| - 1] else [])
  }

  lemma {:induction false} QuestionPositionsAreQuestions(ls: seq<Line>)
    ensures forall k :: 0 <= k < |QuestionPositions(ls)| ==>
              QuestionPositions(ls)[k] < |ls| && ls[QuestionPositions(ls)[k]].Question?
  {
    if ls != [] {
      var init := ls[..|ls| - 1];
      QuestionPositionsAreQuestions(init);
      assert forall k :: 0 <= k < |init| ==> init[k] == ls[k];
    }
  }

  lemma {:induction false} QuestionPositionsIncrease(ls: seq<Line>)
    ensures forall k :: 0 <= k < |QuestionPositions(ls)| ==> QuestionPositions(ls)[k] < |ls|
    ensures forall k, m :: 0 <= k < m < |QuestionPositions(ls)| ==>
              QuestionPositions(ls)[k] < QuestionPositions(ls)[m]
  {
    if ls != [] {
      QuestionPositionsIncrease(ls[..|ls| - 1]);
    }
  }

  lemma {:induction false} QuestionPositionsComplete(ls: seq<Line>)
    ensures forall j :: 0 <= j < |ls| && ls[j].Question? ==> j in QuestionPositions(ls)
  {
    if ls != [] {
      var init := ls[..|ls| - 1];
      QuestionPositionsComplete(init);
      forall j | 0 <= j < |ls| && ls[j].Question?
        ensures j in QuestionPositions(ls)
      {
        if j < |init| {
          assert init[j] == ls[j];
        }
      }
    }
  }

  /** The positions are increasing, each is a question line, and every question
      line is among them. */
  lemma QuestionPositionsSpec(ls: seq<Line>)
    ensures forall k :: 0 <= k < |QuestionPositions(ls)| ==>
              QuestionPositions(ls)[k] < |ls| && ls[QuestionPositions(ls)[k]].Question?
    ensures forall k, m :: 0 <= k < m < |QuestionPositions(ls)| ==>
              QuestionPositions(ls)[k] < QuestionPositions(ls)[m]
    ensures forall j :: 0 <= j < |ls| && ls[j].Question? ==> j in QuestionPositions(ls)
  {
    QuestionPositionsAreQuestions(ls);
    QuestionPositionsIncrease(ls);
    QuestionPositionsComplete(ls);
  }

  /** The triple for the question at line `j`, built from the story then in effect. */
  function ExampleFor(ls: seq<Line>, j: nat, onlySupporting: bool): Result<Example>
    requires j < |ls| && ls[j].Question?
  {
    match Substory(StoryAt(ls, j), ls[j].supporting, onlySupporting)
    case Err(e) => Err(e)
    case Ok(sub) => Ok(Example(sub, ls[j].query, ls[j].answer))
  }

  ghost predicate AllExamplesOk(ls: seq<Line>, onlySupporting: bool) {
    forall j :: 0 <= j < |ls| && ls[j].Question? ==> ExampleFor(ls, j, onlySupporting).Ok?
  }

  /** The loop state `st` is the one the lines `ls` describe: the story after
      the last line, and one triple per question line, in order. */
  ghost predicate Describes(ls: seq<Line>, st: ParseState, onlySupporting: bool) {
    var qs := QuestionPositions(ls);
    st.story == StoryAt(ls, |ls|)
    && |st.data| == |qs|
    && forall k :: 0 <= k < |qs| ==>
         qs[k] < |ls| && ls[qs[k]].Question?
         && ExampleFor(ls, qs[k], onlySupporting) == Ok(st.data[k])
  }

  // ------------------------------------------------------- appending a line

  lemma {:induction false} StartSnoc(ls: seq<Line>, l: Line, j: nat)
    requires j <= |ls|
    ensures Start(ls + [l], j) == if j == |ls| && l.id == 1 then j else Start(ls, j)
    decreases j
  {
    var ls' := ls + [l];
    if j < |ls| {
      assert ls'[j] == ls[j];
    }
    if !(j < |ls'| && ls'[j].id == 1) && j > 0 {
      StartSnoc(ls, l, j - 1);
    }
  }

  lemma EntriesSlice(ls: seq<Line>, a: nat, b: nat)
    requires a <= b < |ls|
    ensures Entries(ls[a..b + 1]) == Entries(ls[a..b]) + [EntryOf(ls[b])]
  {
  }

  /** Appending line `l` to the lines `ls`: earlier stories are unchanged, the
      story at `l` is reset if `l` is numbered 1, and after `l` it has `l`'s entry
      appended. */
  lemma StorySnoc(ls: seq<Line>, l: Line)
    ensures forall j :: 0 <= j < |ls| ==> StoryAt(ls + [l], j) == StoryAt(ls, j)
    ensures StoryAt(ls + [l], |ls|) == if l.id == 1 then [] else StoryAt(ls, |ls|)
    ensures StoryAt(ls + [l], |ls| + 1) == StoryAt(ls + [l], |ls|) + [EntryOf(l)]
  {
    var ls' := ls + [l];
    forall j | 0 <= j < |ls|
      ensures StoryAt(ls', j) == StoryAt(ls, j)
    {
      StartSnoc(ls, l, j);
      var s := Start(ls, j);
      assert ls'[s..j] == ls[s..j];
    }
    StartSnoc(ls, l, |ls|);
    if l.id != 1 {
      var s := Start(ls, |ls|);
      assert ls'[s..|ls|] == ls[s..];
    }
    assert Start(ls', |ls| + 1) == Start(ls', |ls|);
    EntriesSlice(ls', Start(ls', |ls|), |ls|);
  }

  lemma ExampleForSnoc(ls: seq<Line>, l: Line, j: nat, onlySupporting: bool)
    requires j < |ls| && ls[j].Question?
    ensures (ls + [l])[j] == ls[j]
    ensures ExampleFor(ls + [l], j, onlySupporting) == ExampleFor(ls, j, onlySupporting)
  {
    StorySnoc(ls, l);
  }

  lemma QuestionPositionsSnoc(ls: seq<Line>, l: Line)
    ensures QuestionPositions(ls + [l]) == QuestionPositions(ls) + (if l.Question? then [|ls|] else [])
  {
    assert (ls + [l])[..|ls|] == ls;
  }

  /** Adding a line to lines that read: the examples of the earlier questions
      stay as they were. */
  lemma AllExamplesOkSnoc(ls: seq<Line>, l: Line, onlySupporting: bool)
    ensures AllExamplesOk(ls + [l], onlySupporting) <==>
              AllExamplesOk(ls, onlySupporting)
              && (l.Question? ==> ExampleFor(ls + [l], |ls|, onlySupporting).Ok?)
  {
    forall j | 0 <= j < |ls| && ls[j].Question?
      ensures (ls + [l])[j] == ls[j]
      ensures ExampleFor(ls + [l], j, onlySupporting) == ExampleFor(ls, j, onlySupporting)
    {
      ExampleForSnoc(ls, l, j, onlySupporting);
    }
  }

  /** One more line once the loop state matches the lines read so far. */
  lemma StepMeaning(ls: seq<Line>, st: ParseState, l: Line, onlySupporting: bool)
    requires Describes(ls, st, onlySupporting)
    ensures var ls' := ls + [l];
      (Advance(st, l, onlySupporting).Ok? <==> !l.Question? || ExampleFor(ls', |ls|, onlySupporting).Ok?)
      && (Advance(st, l, onlySupporting).Ok? ==> Describes(ls', Advance(st, l, onlySupporting).value, onlySupporting))
  {
    var ls' := ls + [l];
    StorySnoc(ls, l);
    QuestionPositionsSnoc(ls, l);
    var qs := QuestionPositions(ls);
    forall k | 0 <= k < |qs|
      ensures ExampleFor(ls', qs[k], onlySupporting) == Ok(st.data[k])
    {
      ExampleForSnoc(ls, l, qs[k], onlySupporting);
    }
    if Advance(st, l, onlySupporting).Ok? {
      var st' := Advance(st, l, onlySupporting).value;
      var qs' := QuestionPositions(ls');
      forall k | 0 <= k < |qs'|
        ensures qs'[k] < |ls'| && ls'[qs'[k]].Question?
        ensures ExampleFor(ls', qs'[k], onlySupporting) == Ok(st'.data[k])
      {
        if k < |qs| {
          assert qs'[k] == qs[k];
        }
      }
    }
  }

  /** The loop and the line-by-line reading agree: `parse_stories` succeeds
      exactly when every line reads and every question's substory can be built,
      and then its story and its triples are the ones the lines describe. */
  lemma {:induction false} RunMeaning(lines: seq<string>, onlySupporting: bool)
    ensures Run(lines, onlySupporting).Ok? <==>
              ParseAll(lines).Ok? && AllExamplesOk(ParseAll(lines).value, onlySupporting)
    ensures Run(lines, onlySupporting).Ok? ==>
              Describes(ParseAll(lines).value, Run(lines, onlySupporting).value, onlySupporting)
  {
    if lines != [] {
      var init := lines[..|lines| - 1];
      var raw := lines[|lines| - 1];
      RunMeaning(init, onlySupporting);
      if ParseAll(init).Ok? && ParseLine(raw).Ok? {
        var ls := ParseAll(init).value;
        var l := ParseLine(raw).value;
        assert ParseAll(lines) == Ok(ls + [l]);
        AllExamplesOkSnoc(ls, l, onlySupporting);
        if Run(init, onlySupporting).Ok? {
          assert Run(lines, onlySupporting) == Advance(Run(init, onlySupporting).value, l, onlySupporting);
          StepMeaning(ls, Run(init, onlySupporting).value, l, onlySupporting);
        }
      }
    }
  }

  /** `parse_stories` emits exactly one triple per question line, in file order,
      each built from the story in effect at its line; it fails exactly when a
      line is malformed or a substory cannot be built. */
  lemma ParsedMeaning(lines: seq<string>, onlySupporting: bool)
    ensures Parsed(lines, onlySupporting).Ok? <==>
              ParseAll(lines).Ok? && AllExamplesOk(ParseAll(lines).value, onlySupporting)
    ensures Parsed(lines, onlySupporting).Ok? ==>
              var ls := ParseAll(lines).value;
              var qs := QuestionPositions(ls);
              var data := Parsed(lines, onlySupporting).value;
              |data| == |qs|
              && forall k :: 0 <= k < |qs| ==>
                   qs[k] < |ls| && ls[qs[k]].Question?
                   && ExampleFor(ls, qs[k], onlySupporting) == Ok(data[k])
  {
    RunMeaning(lines, onlySupporting);
  }

  // ---------------------------------------------------------- consequences

  lemma {:induction false} StartShift(ls: seq<Line>, r: nat, j: nat)
    requires r <= j <= |ls| && r < |ls| && ls[r].id == 1
    ensures r <= Start(ls, j) && Start(ls[r..], j - r) == Start(ls, j) - r
    decreases j
  {
    var tail := ls[r..];
    if j > r && !(j < |ls| && ls[j].id == 1) {
      StartShift(ls, r, j - 1);
      if j < |ls| {
        assert tail[j - r] == ls[j];
      }
    } else if j < |ls| {
      assert tail[j - r] == ls[j];
    }
  }

  /** A line numbered 1 cuts the story off from everything before it: from
      there on, the story is the one the lines from that line on give alone. */
  lemma ResetIsolates(ls: seq<Line>, r: nat, j: nat)
    requires r <= j <= |ls| && r < |ls| && ls[r].id == 1
    ensures r <= Start(ls, j)
    ensures StoryAt(ls, j) == StoryAt(ls[r..], j - r)
  {
    StartShift(ls, r, j);
    var s := Start(ls, j);
    assert ls[r..][s - r..j - r] == ls[s..j];
  }

  /** So no triple emitted after a line numbered 1 depends on the lines before it,
      in particular none holds a sentence from before it. */
  lemma ExampleAfterReset(ls: seq<Line>, r: nat, j: nat, onlySupporting: bool)
    requires r <= j < |ls| && ls[r].id == 1 && ls[j].Question?
    ensures ls[r..][j - r] == ls[j]
    ensures ExampleFor(ls, j, onlySupporting) == ExampleFor(ls[r..], j - r, onlySupporting)
  {
    ResetIsolates(ls, r, j);
  }

  /** The statement sentences of the lines, in order, leaving out questions and
      statements without tokens. */
  function StatementSentences(ls: seq<Line>): seq<Entry> {
    if ls == [] then []
    else (if ls[0].Statement? && ls[0].tokens != [] then [Sentence(ls[0].tokens)] else [])
         + StatementSentences(ls[1..])
  }

  lemma {:induction false} TruthfulEntries(ls: seq<Line>)
    ensures Truthful(Entries(ls)) == StatementSentences(ls)
  {
    if ls != [] {
      TruthfulEntries(ls[1..]);
      assert Entries(ls) == [EntryOf(ls[0])] + Entries(ls[1..]);
      TruthfulAppend([EntryOf(ls[0])], Entries(ls[1..]));
      TruthfulSingle(EntryOf(ls[0]));
    }
  }

  /** Without `only_supporting`, a question's substory is the statement
      sentences since the last reset, in their original order, with the
      question placeholders (and empty sentences) removed. */
  lemma PlainSubstory(ls: seq<Line>, j: nat)
    requires j < |ls| && ls[j].Question?
    ensures ExampleFor(ls, j, false)
         == Ok(Example(StatementSentences(ls[Start(ls, j)..j]), ls[j].query, ls[j].answer))
  {
    TruthfulEntries(ls[Start(ls, j)..j]);
  }

  /** The lines of the story in effect at line `j` are numbered 1, 2, 3, ... from
      its start, as in the bAbI files. */
  ghost predicate NumberedFromStart(ls: seq<Line>, j: nat)
    requires j <= |ls|
  {
    forall i :: Start(ls, j) <= i < j ==> ls[i].id == i - Start(ls, j) + 1
  }

  lemma StoryAtEntries(ls: seq<Line>, j: nat)
    requires j <= |ls|
    ensures |StoryAt(ls, j)| == j - Start(ls, j)
    ensures forall i :: 0 <= i < j - Start(ls, j) ==> StoryAt(ls, j)[i] == EntryOf(ls[Start(ls, j) + i])
  {
    var st := Start(ls, j);
    assert forall i :: 0 <= i < j - st ==> ls[st..j][i] == ls[st + i];
  }

  /** Because every line, question or not, adds one entry, the story has one
      entry per line since the last reset, and (with `only_supporting`) a
      supporting id `n` of 1 or more selects the entry of the line numbered `n`. */
  lemma SupportingIdsAlign(ls: seq<Line>, j: nat, ids: seq<int>)
    requires j < |ls| && ls[j].Question? && SupportingIds(ls[j].supporting) == Some(ids)
    requires NumberedFromStart(ls, j)
    requires forall k :: 0 <= k < |ids| ==> 1 <= ids[k] <= j - Start(ls, j)
    ensures |StoryAt(ls, j)| == j - Start(ls, j)
    ensures ExampleFor(ls, j, true).Ok?
    ensures var sub := ExampleFor(ls, j, true).value.story;
      |sub| == |ids|
      && forall k :: 0 <= k < |ids| ==>
           var line := ls[Start(ls, j) + ids[k] - 1];
           line.id == ids[k] && sub[k] == EntryOf(line)
  {
    SelectAligned(ls, j, ids);
    SubstoryOfIds(StoryAt(ls, j), ls[j].supporting, ids);
    var sel := Select(StoryAt(ls, j), ids);
    assert ExampleFor(ls, j, true) == Ok(Example(sel.value, ls[j].query, ls[j].answer));
  }

  lemma SubstoryOfIds(story: seq<Entry>, supporting: string, ids: seq<int>)
    requires SupportingIds(supporting) == Some(ids)
    ensures Substory(story, supporting, true) == Select(story, ids)
  {
  }

  lemma SelectAligned(ls: seq<Line>, j: nat, ids: seq<int>)
    requires j <= |ls| && NumberedFromStart(ls, j)
    requires forall k :: 0 <= k < |ids| ==> 1 <= ids[k] <= j - Start(ls, j)
    ensures |StoryAt(ls, j)| == j - Start(ls, j)
    ensures Select(StoryAt(ls, j), ids).Ok?
    ensures var sub := Select(StoryAt(ls, j), ids).value;
      |sub| == |ids|
      && forall k :: 0 <= k < |ids| ==>
           var line := ls[Start(ls, j) + ids[k] - 1];
           line.id == ids[k] && sub[k] == EntryOf(line)
  {
    StoryAtEntries(ls, j);
    SelectInRange(StoryAt(ls, j), ids);
  }

  /** A supporting id past the lines since the reset is an IndexError. */
  lemma SupportingIdTooLarge(ls: seq<Line>, j: nat, ids: seq<int>, k: nat)
    requires j < |ls| && ls[j].Question? && SupportingIds(ls[j].supporting) == Some(ids)
    requires k < |ids| && ids[k] > j - Start(ls, j)
    ensures ExampleFor(ls, j, true) == Err(SupportingIdOutOfRange)
  {
    SelectTooLarge(StoryAt(ls, j), ids, k);
  }

  /** Supporting id 0 does not fail: Python's `story[-1]` silently picks the
      entry of the line just before the question. */
  lemma SupportingIdZero(ls: seq<Line>, j: nat)
    requires j < |ls| && ls[j].Question? && SupportingIds(ls[j].supporting) == Some([0])
    requires Start(ls, j) < j
    ensures ExampleFor(ls, j, true) == Ok(Example([EntryOf(ls[j - 1])], ls[j].query, ls[j].answer))
  {
    SelectIdZero(StoryAt(ls, j));
  }
}
