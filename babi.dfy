/** `parse_stories` (memory_network_q1.py:42-72): the bAbI file format. Every
    line starts with a number and a space; a line with number 1 starts a new
    story; a line holding tabs is a question `query TAB answer TAB supporting ids`,
    any other line is a statement of the story. Lines are taken as already
    decoded strings. */
module Babi {
  import opened Results
  import opened Text
  import opened Tokenizer

  /** An entry of the running story: the tokens of a statement, or the empty
      string `''` that stands in for a question so that later supporting ids,
      which count every line, still point at the right entry. */
  datatype Entry = Sentence(tokens: seq<string>) | Placeholder

  /** One line of a bAbI file, once its number has been read. The answer and the
      supporting ids are kept as the raw text of their fields. */
  datatype Line =
    | Statement(id: int, tokens: seq<string>)
    | Question(id: int, query: seq<string>, answer: string, supporting: string)

  /** The triple `(substory, q, a)` the parser emits for a question. */
  datatype Example = Example(story: seq<Entry>, query: seq<string>, answer: string)

  // ---------------------------------------------------------------- one line

  /** The handling of one line before the story is touched: strip it, split off
      the number at the first space, read the number, and tell questions (any
      tab present, exactly three tab-separated fields) from statements. */
  function ParseLine(raw: string): Result<Line> {
    match SplitFirst(Strip(raw), ' ')
    case None => Err(MissingId)
    case Some((nid, rest)) =>
      match ParseInt(nid)
      case None => Err(BadId)
      case Some(id) =>
        if '\t' in rest then
          var fields := SplitAll(rest, '\t');
          if |fields| != 3 then Err(BadFieldCount)
          else Ok(Question(id, Tokenize(fields[0]), fields[1], fields[2]))
        else Ok(Statement(id, Tokenize(rest)))
  }

  /** The three ways a line is malformed, each exactly when it happens: no space
      after the number, a number that `int()` refuses, a question line that does
      not have exactly two tabs. Otherwise the line is read, its text tokenized. */
  lemma ParseLineSpec(raw: string)
    ensures ParseLine(raw) == Err(MissingId) <==> ' ' !in Strip(raw)
    ensures ' ' in Strip(raw) ==>
      var (nid, rest) := SplitFirst(Strip(raw), ' ').value;
      Strip(raw) == nid + " " + rest && ' ' !in nid
      && (ParseLine(raw) == Err(BadId) <==> ParseInt(nid).None?)
      && (ParseInt(nid).Some? ==>
            (ParseLine(raw) == Err(BadFieldCount) <==> '\t' in rest && Count(rest, '\t') != 2)
            && ('\t' !in rest ==> ParseLine(raw) == Ok(Statement(ParseInt(nid).value, Tokenize(rest))))
            && ('\t' in rest && Count(rest, '\t') == 2 ==>
                  var f := SplitAll(rest, '\t');
                  |f| == 3 && rest == f[0] + "\t" + f[1] + "\t" + f[2]
                  && ParseLine(raw) == Ok(Question(ParseInt(nid).value, Tokenize(f[0]), f[1], f[2]))))
  {
    SplitFirstSpec(Strip(raw), ' ');
    if ' ' in Strip(raw) {
      var (nid, rest) := SplitFirst(Strip(raw), ' ').value;
      SplitAllSpec(rest, '\t');
      var f := SplitAll(rest, '\t');
      if |f| == 3 {
        assert Join(f, '\t') == f[0] + "\t" + f[1] + "\t" + f[2] by {
          assert f[1..][1..] == [f[2]];
          assert Join(f[1..], '\t') == f[1] + "\t" + f[2];
        }
      }
    }
  }

  /** A statement written in the bAbI file format: its number, a space, its text. */
  function FormatStatement(id: nat, text: string): string {
    ShowNat(id) + " " + text
  }

  /** A question written in the bAbI file format. */
  function FormatQuestion(id: nat, query: string, answer: string, supporting: string): string {
    ShowNat(id) + " " + query + "\t" + answer + "\t" + supporting
  }

  /** Writing a statement and reading it back gives its number and the tokens of
      its text, provided the text has no tab and does not end in whitespace. */
  lemma ParseFormattedStatement(id: nat, text: string)
    requires '\t' !in text && text != [] && !IsSpace(text[|text| - 1])
    ensures ParseLine(FormatStatement(id, text)) == Ok(Statement(id, Tokenize(text)))
  {
    var d := ShowNat(id);
    var s := FormatStatement(id, text);
    ShowNatValue(id);
    assert IsDigit(d[0]);
    assert s[0] == d[0] && s[|s| - 1] == text[|text| - 1];
    StripUnchanged(s);
    SplitAfterNumber(d, text);
    ParseIntShowNat(id);
  }

  /** Writing a question and reading it back gives its number, the tokens of its
      query, and its answer and supporting fields as written, provided no field
      holds a tab and the supporting field ends in something other than whitespace. */
  lemma ParseFormattedQuestion(id: nat, query: string, answer: string, supporting: string)
    requires '\t' !in query && '\t' !in answer && '\t' !in supporting
    requires supporting != [] && !IsSpace(supporting[|supporting| - 1])
    ensures ParseLine(FormatQuestion(id, query, answer, supporting))
         == Ok(Question(id, Tokenize(query), answer, supporting))
  {
    var d := ShowNat(id);
    var rest := query + "\t" + answer + "\t" + supporting;
    var s := FormatQuestion(id, query, answer, supporting);
    ShowNatValue(id);
    assert IsDigit(d[0]);
    assert s == d + " " + rest;
    assert s[0] == d[0] && s[|s| - 1] == supporting[|supporting| - 1];
    StripUnchanged(s);
    SplitAfterNumber(d, rest);
    ParseIntShowNat(id);
    assert rest[|query|] == '\t';
    ThreeFields(query, answer, supporting);
  }

  /** Splitting at the first `sep` of `a + [sep] + rest`, where `a` holds no `sep`. */
  lemma {:induction false} SplitFirstAt(a: string, sep: char, rest: string)
    requires sep !in a
    ensures SplitFirst(a + [sep] + rest, sep) == Some((a, rest))
  {
    var s := a + [sep] + rest;
    if a != [] {
      assert s[0] == a[0] && s[1..] == a[1..] + [sep] + rest;
      SplitFirstAt(a[1..], sep, rest);
      assert [a[0]] + a[1..] == a;
    } else {
      assert s[1..] == rest;
    }
  }

  lemma SplitAfterNumber(d: string, rest: string)
    requires AllDigits(d)
    ensures SplitFirst(d + " " + rest, ' ') == Some((d, rest))
  {
    assert forall i :: 0 <= i < |d| ==> d[i] != ' ';
    SplitFirstAt(d, ' ', rest);
  }

  lemma ThreeFields(a: string, b: string, c: string)
    requires '\t' !in a && '\t' !in b && '\t' !in c
    ensures SplitAll(a + "\t" + b + "\t" + c, '\t') == [a, b, c]
  {
    var bc := b + "\t" + c;
    assert SplitAll(c, '\t') == [c] by {
      SplitFirstSpec(c, '\t');
    }
    assert SplitAll(bc, '\t') == [b, c] by {
      SplitFirstAt(b, '\t', c);
    }
    assert a + "\t" + b + "\t" + c == a + "\t" + bc;
    SplitFirstAt(a, '\t', bc);
  }

  // ---------------------------------------------------------------- substory

  /** Python's `story[i]` on a list of length `n`: a non-negative index counts
      from the front, a negative one from the back; anything else is an IndexError. */
  function PyIndex(n: nat, i: int): (r: Option<nat>)
    ensures r.Some? ==> r.value < n
  {
    if 0 <= i < n then Some(i) else if -(n as int) <= i < 0 then Some(n + i) else None
  }

  /** `map(int, words)`: every word read as an integer, or a ValueError. */
  function ParseInts(words: seq<string>): Option<seq<int>> {
    if words == [] then Some([])
    else match (ParseInt(words[0]), ParseInts(words[1..]))
      case (Some(v), Some(vs)) => Some([v] + vs)
      case _ => None
  }

  /** The list is read exactly when every word is an integer, and then it holds
      their values in order. */
  lemma {:induction false} ParseIntsSpec(words: seq<string>)
    ensures ParseInts(words).Some? <==> forall k :: 0 <= k < |words| ==> ParseInt(words[k]).Some?
    ensures ParseInts(words).Some? ==>
              |ParseInts(words).value| == |words|
              && forall k :: 0 <= k < |words| ==> ParseInts(words).value[k] == ParseInt(words[k]).value
  {
    if words != [] {
      ParseIntsSpec(words[1..]);
      assert forall k :: 1 <= k < |words| ==> words[1..][k - 1] == words[k];
    }
  }

  /** The supporting ids of a question line: `map(int, supporting.split())`. */
  function SupportingIds(supporting: string): Option<seq<int>> {
    ParseInts(SplitWhitespace(supporting))
  }

  /** The decimal forms of the ids, one word each. */
  function ShowNats(ns: seq<nat>): seq<string> {
    seq(|ns|, k requires 0 <= k < |ns| => ShowNat(ns[k]))
  }

  /** A supporting field written as the data files write it, ids in decimal
      separated by single spaces, reads back as exactly those ids. */
  lemma SupportingIdsShowNats(ns: seq<nat>)
    ensures SupportingIds(JoinWords(ShowNats(ns))) == Some(ns)
  {
    var ws := ShowNats(ns);
    forall k | 0 <= k < |ws|
      ensures IsWord(ws[k]) && ParseInt(ws[k]) == Some(ns[k])
    {
      ShowNatValue(ns[k]);
      ParseIntShowNat(ns[k]);
    }
    SplitJoinWords(ws);
    ParseIntsSpec(ws);
    assert ParseInts(ws).value == ns;
  }

  /** `[story[i - 1] for i in ids]`. */
  function Select(story: seq<Entry>, ids: seq<int>): Result<seq<Entry>> {
    if ids == [] then Ok([])
    else match (PyIndex(|story|, ids[0] - 1), Select(story, ids[1..]))
      case (None, _) => Err(SupportingIdOutOfRange)
      case (_, Err(e)) => Err(e)
      case (Some(j), Ok(rest)) => Ok([story[j]] + rest)
  }

  /** The selection fails, with an IndexError, exactly when some id is out of
      Python's index range; otherwise entry `k` is the story entry the `k`-th id
      names under Python indexing. */
  lemma {:induction false} SelectSpec(story: seq<Entry>, ids: seq<int>)
    ensures Select(story, ids).Ok? <==> forall k :: 0 <= k < |ids| ==> PyIndex(|story|, ids[k] - 1).Some?
    ensures Select(story, ids).Err? ==> Select(story, ids).error == SupportingIdOutOfRange
    ensures Select(story, ids).Ok? ==>
              |Select(story, ids).value| == |ids|
              && forall k :: 0 <= k < |ids| ==>
                   Select(story, ids).value[k] == story[PyIndex(|story|, ids[k] - 1).value]
  {
    if ids != [] {
      SelectSpec(story, ids[1..]);
      assert forall k :: 1 <= k < |ids| ==> ids[1..][k - 1] == ids[k];
    }
  }

  /** On an in-range 1-based id, `story[i - 1]` is the entry at that position. */
  lemma SelectInRange(story: seq<Entry>, ids: seq<int>)
    requires forall k :: 0 <= k < |ids| ==> 1 <= ids[k] <= |story|
    ensures Select(story, ids).Ok?
    ensures |Select(story, ids).value| == |ids|
    ensures forall k :: 0 <= k < |ids| ==> Select(story, ids).value[k] == story[ids[k] - 1]
  {
    SelectSpec(story, ids);
  }

  /** An id larger than the story is an IndexError. */
  lemma SelectTooLarge(story: seq<Entry>, ids: seq<int>, k: nat)
    requires k < |ids| && ids[k] > |story|
    ensures Select(story, ids) == Err(SupportingIdOutOfRange)
  {
    SelectSpec(story, ids);
  }

  /** Python's negative indexing: id 0 silently names the last entry of a
      non-empty story (and id -1 the one before it). */
  lemma SelectIdZero(story: seq<Entry>)
    requires story != []
    ensures Select(story, [0]) == Ok([story[|story| - 1]])
  {
    var ids := [0];
    assert PyIndex(|story|, ids[0] - 1) == Some(|story| - 1);
    SelectSpec(story, ids);
    var r := Select(story, ids).value;
    assert r == [r[0]];
  }

  /** Whether Python counts the entry as true: `''` and an empty token list are false. */
  predicate Truthy(e: Entry) {
    e.Sentence? && e.tokens != []
  }

  /** `[x for x in story if x]`. */
  function Truthful(story: seq<Entry>): seq<Entry> {
    if story == [] then []
    else (if Truthy(story[0]) then [story[0]] else []) + Truthful(story[1..])
  }

  /** The filter keeps exactly the true entries, in order: it distributes over
      concatenation and keeps a single entry just when it is true. */
  lemma {:induction false} TruthfulAppend(a: seq<Entry>, b: seq<Entry>)
    ensures Truthful(a + b) == Truthful(a) + Truthful(b)
  {
    if a == [] {
      assert a + b == b;
    } else {
      var h := if Truthy(a[0]) then [a[0]] else [];
      assert (a + b)[0] == a[0] && (a + b)[1..] == a[1..] + b;
      assert Truthful(a + b) == h + Truthful(a[1..] + b);
      TruthfulAppend(a[1..], b);
      assert Truthful(a) == h + Truthful(a[1..]);
      assert h + (Truthful(a[1..]) + Truthful(b)) == (h + Truthful(a[1..])) + Truthful(b);
    }
  }

  lemma TruthfulSingle(e: Entry)
    ensures Truthful([e]) == if Truthy(e) then [e] else []
  {
    assert [e][1..] == [];
  }

  /** No placeholder and no empty sentence survives the filter, and what
      survives comes from the story: every kept entry is a story entry. */
  lemma {:induction false} TruthfulSpec(story: seq<Entry>)
    ensures forall k :: 0 <= k < |Truthful(story)| ==> Truthy(Truthful(story)[k]) && Truthful(story)[k] in story
    ensures |Truthful(story)| <= |story|
  {
    if story != [] {
      TruthfulSpec(story[1..]);
      var head := if Truthy(story[0]) then [story[0]] else [];
      assert Truthful(story) == head + Truthful(story[1..]);
      forall k | 0 <= k < |Truthful(story)|
        ensures Truthy(Truthful(story)[k]) && Truthful(story)[k] in story
      {
        if k >= |head| {
          assert Truthful(story)[k] == Truthful(story[1..])[k - |head|];
          assert Truthful(story)[k] in story[1..];
        }
      }
    }
  }

  /** The substory of a question: with `only_supporting`, the entries its
      supporting ids name; otherwise every true entry of the story, in order. */
  function Substory(story: seq<Entry>, supporting: string, onlySupporting: bool): Result<seq<Entry>> {
    if onlySupporting then
      match SupportingIds(supporting)
      case None => Err(BadSupportingId)
      case Some(ids) => Select(story, ids)
    else Ok(Truthful(story))
  }

  // ---------------------------------------------------------------- the loop

  /** The loop's state between lines: the running story and the triples emitted so far. */
  datatype ParseState = ParseState(story: seq<Entry>, data: seq<Example>)

  /** What the loop body does with a line once it is read: a line numbered 1
      starts a new story; a statement is appended to the story; a question adds
      a triple built from the story and a placeholder entry. */
  function Advance(st: ParseState, line: Line, onlySupporting: bool): Result<ParseState> {
    var story := if line.id == 1 then [] else st.story;
    match line
    case Statement(_, tokens) => Ok(ParseState(story + [Sentence(tokens)], st.data))
    case Question(_, query, answer, supporting) =>
      match Substory(story, supporting, onlySupporting)
      case Err(e) => Err(e)
      case Ok(sub) => Ok(ParseState(story + [Placeholder], st.data + [Example(sub, query, answer)]))
  }

  /** One iteration of the loop over the lines. */
  function Step(st: ParseState, raw: string, onlySupporting: bool): Result<ParseState> {
    match ParseLine(raw)
    case Err(e) => Err(e)
    case Ok(line) => Advance(st, line, onlySupporting)
  }

  /** The state once the loop has taken all of `lines`, or the first error. */
  function Run(lines: seq<string>, onlySupporting: bool): Result<ParseState> {
    if lines == [] then Ok(ParseState([], []))
    else match Run(lines[..|lines| - 1], onlySupporting)
      case Err(e) => Err(e)
      case Ok(st) => Step(st, lines[|lines| - 1], onlySupporting)
  }

  /** What `parse_stories(lines, only_supporting)` returns, or the error it raises. */
  function Parsed(lines: seq<string>, onlySupporting: bool): Result<seq<Example>> {
    match Run(lines, onlySupporting)
    case Err(e) => Err(e)
    case Ok(st) => Ok(st.data)
  }

  /** An error ends the loop: later lines do not matter. */
  lemma {:induction false} RunErrorStays(lines: seq<string>, i: nat, onlySupporting: bool)
    requires i <= |lines| && Run(lines[..i], onlySupporting).Err?
    ensures Run(lines, onlySupporting) == Run(lines[..i], onlySupporting)
    decreases |lines| - i
  {
    if i < |lines| {
      assert lines[..i + 1][..i] == lines[..i];
      RunErrorStays(lines, i + 1, onlySupporting);
    } else {
      assert lines[..i] == lines;
    }
  }

  /** `parse_stories`: reads the lines in order, resetting the story at id 1,
      appending statements, and emitting a triple for each question followed by
      a placeholder entry. */
  method ParseStories(lines: seq<string>, onlySupporting: bool) returns (r: Result<seq<Example>>)
    ensures r == Parsed(lines, onlySupporting)
  {
    var data: seq<Example> := [];
    var story: seq<Entry> := [];
    var i := 0;
    while i < |lines|
      invariant 0 <= i <= |lines|
      invariant Run(lines[..i], onlySupporting) == Ok(ParseState(story, data))
    {
      assert lines[..i + 1][..i] == lines[..i];
      var parsed := ParseLine(lines[i]);
      if parsed.Err? {
        RunErrorStays(lines, i + 1, onlySupporting);
        return Err(parsed.error);
      }
      var line := parsed.value;
      if line.id == 1 {
        story := [];
      }
      if line.Question? {
        var substory := Substory(story, line.supporting, onlySupporting);
        if substory.Err? {
          RunErrorStays(lines, i + 1, onlySupporting);
          return Err(substory.error);
        }
        data := data + [Example(substory.value, line.query, line.answer)];
        story := story + [Placeholder];
      } else {
        story := story + [Sentence(line.tokens)];
      }
      i := i + 1;
    }
    assert lines[..i] == lines;
    return Ok(data);
  }
}
